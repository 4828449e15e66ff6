/**
 `do_fork`, `do_exit` and the stores of user processes over one physical memory. A process lives in a block
 of `Kmem_alloc`; the processor checks its stores against the data segment that `alloc_segments` sets up,
 the kernel translates its pointers with `umap`. The main result says exactly when this shared memory
 behaves like one private memory per process.
 */
module Processes {
  import opened Segments
  import opened Options
  import A = Arena
  import D = Descriptors

  type Byte = bv8

  /** The data and stack maps of a process; `inUse` is the flag P_IN_USE, `ldt` the LDT selector. */
  datatype Pcb = Pcb(inUse: bool, ldt: nat, dataVir: nat, dataPhys: nat, dataSize: nat,
                     stackVir: nat, stackPhys: nat, stackSize: nat)

  /** `mem` is the memory there is; `live` are the slots of forked processes that have not exited. */
  datatype Sys = Sys(procs: seq<Pcb>, arena: A.Arena, mem: seq<Byte>, live: set<nat>)

  const IDLE: nat := 0
  const INIT: nat := 1

  /** `get_free_proc_struct`, or `|procs|`. */
  function FreeProc(procs: seq<Pcb>): (c: nat)
    ensures c <= |procs| && (c < |procs| ==> !procs[c].inUse)
    ensures forall i :: 0 <= i < c ==> procs[i].inUse
  {
    if procs == [] || !procs[0].inUse then 0 else
      var c := FreeProc(procs[1..]);
      assert forall i :: 1 <= i < c + 1 ==> procs[i] == procs[1..][i - 1];
      c + 1
  }

  /** What `mem_copy` allocates for a child of `p`. */
  function CopySize(p: Pcb): nat {
    p.stackSize + if p.stackVir >= p.dataVir then p.stackVir - p.dataVir else 0
  }

  // ---------- memory ----------

  /** What the bus delivers where there is no memory. */
  const OPEN: Byte := 0xFF

  function Peek(mem: seq<Byte>, a: nat): Byte {
    if a < |mem| then mem[a] else OPEN
  }

  /** A store where there is no memory is lost. */
  function Poke(mem: seq<Byte>, a: nat, b: Byte): seq<Byte> {
    if a < |mem| then mem[a := b] else mem
  }

  /** `rep_movsb` of `n` bytes between areas that do not overlap. */
  function Copy(mem: seq<Byte>, from: nat, to: nat, n: nat): (r: seq<Byte>)
    ensures |r| == |mem|
    ensures forall i :: 0 <= i < |mem| ==> r[i] == if to <= i < to + n then Peek(mem, from + (i - to)) else mem[i]
  {
    seq(|mem|, i requires 0 <= i < |mem| => if to <= i < to + n then Peek(mem, from + (i - to)) else mem[i])
  }

  /** The `n` bytes from `at` on. */
  function Seen(mem: seq<Byte>, at: nat, n: nat): (r: seq<Byte>)
    ensures |r| == n && forall i :: 0 <= i < n ==> r[i] == Peek(mem, at + i)
  {
    seq(n, i requires 0 <= i < n => Peek(mem, at + i))
  }

  // ---------- the two translations of an address ----------

  predicate UmapAccepts(p: Pcb, off: nat) {
    off < p.dataVir + p.dataSize
  }

  /** `umap`; 0 is NULL. */
  function Umap(p: Pcb, off: nat): nat {
    if UmapAccepts(p, off) then p.dataPhys + off else 0
  }

  /** The data segment that `alloc_segments` gives a process. */
  function Segment(p: Pcb): D.SegDesc {
    D.SetSeg(p.dataPhys, p.stackVir + p.stackSize)
  }

  predicate ProcessorAccepts(p: Pcb, off: nat) {
    off <= D.LimitOf(Segment(p))
  }

  /** The address the processor uses. */
  function Linear(p: Pcb, off: nat): nat {
    D.BaseOf(Segment(p)) + off
  }

  /** The data map of a process is all of its memory, seen from address 0. */
  predicate Mapped(p: Pcb) {
    p.inUse && p.dataVir == 0 && p.dataSize == p.stackVir + p.stackSize > 0
  }

  predicate U32Map(p: Pcb) {
    Mapped(p) && p.dataPhys + p.dataSize + 0xFFF < D.U32
  }

  /** NULL is for the refused offsets, and for offset 0 of a process at address 0, which is init. */
  lemma UmapIs(p: Pcb, off: nat)
    requires Mapped(p)
    ensures Umap(p, off) == 0 <==> off >= p.stackVir + p.stackSize || (p.dataPhys == 0 && off == 0)
    ensures off < p.stackVir + p.stackSize ==> Umap(p, off) == p.dataPhys + off
  {
  }

  /** What `umap` accepts the processor accepts, at the same address. */
  lemma TranslationsAgree(p: Pcb, off: nat)
    requires U32Map(p) && UmapAccepts(p, off)
    ensures ProcessorAccepts(p, off) && Linear(p, off) == Umap(p, off)
  {
    D.BaseBack(p.dataPhys, p.dataSize);
    D.LimitBack(p.dataPhys, p.dataSize);
  }

  /**
   The processor accepts more: the limit is an inclusive offset but is set to the size. The surplus is
   exactly the offset `dataSize` for a small segment, and for a large one the rest of its page.
   */
  lemma SurplusIs(p: Pcb, off: nat)
    requires U32Map(p)
    ensures ProcessorAccepts(p, off) && !UmapAccepts(p, off)
            <==> p.dataSize <= off <= if p.dataSize > 0xF_FFFF then p.dataSize / 0x1000 * 0x1000 + 0xFFF else p.dataSize
    ensures ProcessorAccepts(p, off) ==> off <= p.dataSize + 0xFFF && Linear(p, off) == p.dataPhys + off
  {
    D.BaseBack(p.dataPhys, p.dataSize);
    D.LimitBack(p.dataPhys, p.dataSize);
  }

  // ---------- the state ----------

  /** The block of a forked process. */
  function BlockOf(p: Pcb): Block {
    Block(p.dataPhys, p.dataSize, A.STAT_BUSY)
  }

  /** As `mem_init` sets it up: the managed range ends one byte behind the memory, a page below the end of addresses. */
  predicate Managed(s: Sys) {
    && Canonical(s.arena.segs) && s.arena.base <= |s.mem|
    && s.arena.base + Total(s.arena.segs) == |s.mem| + 1 && |s.mem| + 0x1000 < D.U32
  }

  /** Init sits below the managed range; each forked process owns a block of its own of exactly its size. */
  ghost predicate Inv(s: Sys) {
    && Managed(s)
    && INIT < |s.procs| && s.procs[IDLE].inUse
    && Mapped(s.procs[INIT]) && s.procs[INIT].dataPhys == 0 && s.procs[INIT].dataSize <= s.arena.base
    && (forall p :: p in s.live ==> INIT < p < |s.procs| && Mapped(s.procs[p])
                                    && BlockOf(s.procs[p]) in A.LiveOf(s.arena))
    && (forall p, q :: p in s.live && q in s.live && p != q ==> s.procs[p].dataPhys != s.procs[q].dataPhys)
  }

  /** The processes whose memory is followed: init and the forked ones. */
  ghost function Subjects(s: Sys): set<nat> {
    s.live + {INIT}
  }

  // ---------- the operations ----------

  datatype Event = Fork(p: nat) | Exit(p: nat) | Store(p: nat, off: nat, b: Byte)

  /**
   Only a followed process runs, and only with an LDT. Init and idle do not exit, the source panics instead.
   A store goes where the processor lets it; init, whose map covers the kernel, stores into its stack only.
   */
  ghost predicate Enabled(s: Sys, e: Event) {
    e.p in Subjects(s) && e.p < |s.procs| && s.procs[e.p].ldt != 0 &&
    match e
    case Fork(p) => true
    case Exit(p) => p != INIT
    case Store(p, off, b) => ProcessorAccepts(s.procs[p], off)
                             && (p == INIT ==> s.procs[p].stackVir <= off < s.procs[p].dataSize)
  }

  /** `do_fork`, with the slot of the child, or None for the result -1. The slot keeps its LDT selector. */
  ghost function ForkStep(s: Sys, p: nat): (Sys, Option<nat>)
    requires Inv(s) && p in Subjects(s)
  {
    var c := FreeProc(s.procs);
    if c == |s.procs| then (s, None)
    else
      var father := s.procs[p];
      var child := father.(ldt := s.procs[c].ldt);
      var n := CopySize(father);
      var (arena', r) := A.Alloc(s.arena, n);
      match r
      case None => (s.(procs := s.procs[c := child], arena := arena'), None)
      case Some(at) =>
        var placed := child.(inUse := true, dataPhys := at, stackPhys := at + (father.stackVir - father.dataVir));
        (Sys(s.procs[c := placed], arena', Copy(s.mem, father.dataPhys, at, n), s.live + {c}), Some(c))
  }

  ghost function ExitStep(s: Sys, p: nat): Sys
    requires Inv(s) && p in s.live
  {
    Sys(s.procs[p := s.procs[p].(inUse := false, ldt := 0)], A.Free(s.arena, s.procs[p].dataPhys), s.mem, s.live - {p})
  }

  ghost function StoreStep(s: Sys, p: nat, off: nat, b: Byte): (t: Sys)
    requires Inv(s) && p in Subjects(s)
    ensures Inv(t) && Subjects(t) == Subjects(s)
  {
    s.(mem := Poke(s.mem, Linear(s.procs[p], off), b))
  }

  ghost function Apply(s: Sys, e: Event): Sys
    requires Inv(s) && Enabled(s, e)
  {
    match e
    case Fork(p) => ForkStep(s, p).0
    case Exit(p) => ExitStep(s, p)
    case Store(p, off, b) => StoreStep(s, p, off, b)
  }

  // ---------- where processes are ----------

  /** A block may end at most one byte behind the memory. */
  lemma Bounds(s: Sys, p: nat)
    requires Inv(s) && p in Subjects(s)
    ensures p < |s.procs| && U32Map(s.procs[p]) && s.procs[p].dataPhys + s.procs[p].dataSize <= |s.mem| + 1
    ensures if p == INIT then s.procs[p].dataPhys + s.procs[p].dataSize <= s.arena.base <= |s.mem|
            else s.arena.base <= s.procs[p].dataPhys
  {
    if p != INIT {
      LiveBounds(s.arena.segs, s.arena.base, BlockOf(s.procs[p]));
    }
  }

  /** The memory areas of two processes do not overlap. */
  lemma AreasDisjoint(s: Sys, p: nat, q: nat)
    requires Inv(s) && p in Subjects(s) && q in Subjects(s) && p != q
    ensures p < |s.procs| && q < |s.procs|
    ensures s.procs[p].dataPhys + s.procs[p].dataSize <= s.procs[q].dataPhys
            || s.procs[q].dataPhys + s.procs[q].dataSize <= s.procs[p].dataPhys
  {
    Bounds(s, p);
    Bounds(s, q);
    if p != INIT && q != INIT {
      LiveDisjoint(s.arena.segs, s.arena.base, BlockOf(s.procs[p]), BlockOf(s.procs[q]));
    }
  }

  /** `umap` never sends two processes to the same address. */
  lemma UmapIsolates(s: Sys, p: nat, q: nat, i: nat, j: nat)
    requires Inv(s) && p in Subjects(s) && q in Subjects(s) && p != q
    requires UmapAccepts(s.procs[p], i) && UmapAccepts(s.procs[q], j)
    ensures Umap(s.procs[p], i) != Umap(s.procs[q], j)
  {
    Bounds(s, p);
    Bounds(s, q);
    AreasDisjoint(s, p, q);
  }

  /** The area of init covers the kernel image, and its segment lets it store anywhere in there. */
  lemma InitCoversKernel(s: Sys, a: nat)
    requires Inv(s) && a < s.procs[INIT].dataSize
    ensures ProcessorAccepts(s.procs[INIT], a) && Linear(s.procs[INIT], a) == a
  {
    Bounds(s, INIT);
    TranslationsAgree(s.procs[INIT], a);
  }

  // ---------- every step keeps the invariant ----------

  /** A successful fork of `p` from `s` to `t`: a new slot `c`, and a block nobody had before. */
  ghost predicate Forked(s: Sys, p: nat, t: Sys, c: nat) {
    && p < |s.procs| && INIT < c < |s.procs| && c !in s.live && !s.procs[c].inUse && t.live == s.live + {c}
    && |t.procs| == |s.procs| && t.procs == s.procs[c := t.procs[c]] && Mapped(t.procs[c])
    && t.procs[c].dataSize == s.procs[p].dataSize && t.procs[c].ldt == s.procs[c].ldt
    && t.procs[c].stackVir == s.procs[p].stackVir && t.procs[c].stackSize == s.procs[p].stackSize
    && t.procs[c].stackPhys == t.procs[c].dataPhys + t.procs[c].stackVir
    && Canonical(t.arena.segs) && A.SameManagedRange(s.arena, t.arena) && |t.mem| == |s.mem|
    && A.LiveOf(t.arena) == A.LiveOf(s.arena) + {BlockOf(t.procs[c])}
    && (forall b :: b in A.LiveOf(s.arena) ==> b.off != t.procs[c].dataPhys)
    && t.procs[c].dataPhys + t.procs[c].dataSize <= |s.mem| + 1
    && t.mem == Copy(s.mem, s.procs[p].dataPhys, t.procs[c].dataPhys, s.procs[p].dataSize)
  }

  lemma ForkGrants(s: Sys, p: nat)
    requires Inv(s) && p in Subjects(s) && ForkStep(s, p).1.Some?
    ensures Forked(s, p, ForkStep(s, p).0, ForkStep(s, p).1.value)
    ensures ForkStep(s, p).1.value == FreeProc(s.procs)
    ensures var t, c := ForkStep(s, p).0, FreeProc(s.procs);
            t.procs[c].dataPhys + t.procs[c].dataSize <= |s.mem| <==> !A.TakesLastWhole(s.arena, s.procs[p].dataSize)
  {
    Bounds(s, p);
    var c, n := FreeProc(s.procs), CopySize(s.procs[p]);
    assert c !in s.live && c != INIT && c != IDLE;
    A.AllocGrants(s.arena, n);
    A.GrantInMemoryIff(s.arena, n, |s.mem|);
    FreshStart(s, A.Alloc(s.arena, n).1.value, n);
  }

  /** The stack of a child is where `umap` finds it. */
  lemma ChildStack(s: Sys, p: nat, t: Sys, c: nat, j: nat)
    requires Inv(s) && p in Subjects(s) && Forked(s, p, t, c) && j < t.procs[c].stackSize
    ensures Umap(t.procs[c], t.procs[c].stackVir + j) == t.procs[c].stackPhys + j
  {
    Bounds(s, p);
  }

  lemma FreshStart(s: Sys, at: nat, n: nat)
    requires Inv(s) && n > 0 && forall b :: b in A.LiveOf(s.arena) ==> b.off + b.len <= at || at + n <= b.off
    ensures forall b :: b in A.LiveOf(s.arena) ==> b.off != at
  {
    forall b | b in A.LiveOf(s.arena)
      ensures b.off != at
    {
      LiveBounds(s.arena.segs, s.arena.base, b);
    }
  }

  /** A refused fork leaves everything but the copied table entry alone. */
  lemma ForkRefused(s: Sys, p: nat)
    requires Inv(s) && p in Subjects(s) && ForkStep(s, p).1.None?
    ensures var t, c := ForkStep(s, p).0, FreeProc(s.procs);
            && t.arena == s.arena && t.mem == s.mem && t.live == s.live && p < |s.procs|
            && c !in s.live && c != INIT && c != IDLE
            && t.procs == if c < |s.procs| then s.procs[c := s.procs[p].(ldt := s.procs[c].ldt)] else s.procs
  {
    Bounds(s, p);
  }

  lemma ForkedKeeps(s: Sys, p: nat, t: Sys, c: nat)
    requires Inv(s) && Forked(s, p, t, c)
    ensures Inv(t)
  {
    assert t.procs[IDLE] == s.procs[IDLE] && t.procs[INIT] == s.procs[INIT];
    forall q | q in s.live
      ensures t.procs[q] == s.procs[q] && t.procs[q].dataPhys != t.procs[c].dataPhys
    {
      assert BlockOf(s.procs[q]) in A.LiveOf(s.arena);
    }
  }

  lemma ForkKeeps(s: Sys, p: nat)
    requires Inv(s) && p in Subjects(s)
    ensures Inv(ForkStep(s, p).0)
  {
    if ForkStep(s, p).1.Some? {
      ForkGrants(s, p);
      ForkedKeeps(s, p, ForkStep(s, p).0, ForkStep(s, p).1.value);
    } else {
      Bounds(s, p);
      ForkRefused(s, p);
      assert forall q :: q in s.live ==> ForkStep(s, p).0.procs[q] == s.procs[q];
    }
  }

  lemma ExitKeeps(s: Sys, p: nat)
    requires Inv(s) && p in s.live
    ensures Inv(ExitStep(s, p))
  {
    A.FreeRemoves(s.arena, s.procs[p].dataPhys);
  }

  lemma ApplyKeeps(s: Sys, e: Event)
    requires Inv(s) && Enabled(s, e)
    ensures Inv(Apply(s, e))
  {
    match e {
      case Fork(p) => ForkKeeps(s, p);
      case Exit(p) => ExitKeeps(s, p);
      case Store(p, off, b) =>
    }
  }

  // ---------- when the shared memory is a set of private memories ----------

  /** The bytes process `p` sees, from its address 0 on. */
  ghost function View(s: Sys, p: nat): seq<Byte>
    requires Inv(s) && p in Subjects(s)
  {
    Seen(s.mem, s.procs[p].dataPhys, s.procs[p].dataSize)
  }

  ghost function Views(s: Sys): map<nat, seq<Byte>>
    requires Inv(s)
  {
    map p | p in Subjects(s) :: View(s, p)
  }

  /** The reference machine: one byte sequence per process, nothing shared. */
  ghost function PrivateStep(m: map<nat, seq<Byte>>, e: Event, child: Option<nat>): map<nat, seq<Byte>> {
    match e
    case Fork(p) => if child.Some? && p in m then m[child.value := m[p]] else m
    case Exit(p) => m - {p}
    case Store(p, off, b) => if p in m && off < |m[p]| then m[p := m[p][off := b]] else m
  }

  ghost function ChildOf(s: Sys, e: Event): Option<nat>
    requires Inv(s) && Enabled(s, e)
  {
    if e.Fork? then ForkStep(s, e.p).1 else None
  }

  /** Address `a` is memory of process `q`. */
  ghost predicate Owns(s: Sys, q: nat, a: int) {
    q in Subjects(s) && q < |s.procs| && a < |s.mem|
    && s.procs[q].dataPhys <= a < s.procs[q].dataPhys + s.procs[q].dataSize
  }

  /** Storing `b` at `a` changes no process's memory. */
  ghost predicate Spares(s: Sys, a: nat, b: Byte) {
    forall q :: Owns(s, q, a) ==> s.mem[a] == b
  }

  /**
   What a step needs for the private machine to follow it. A fork must not be given the last hole whole,
   whose last byte is not memory; a store must reach memory, and beyond the process's size, where the
   processor still accepts it, it must not reach another process. (No harm is done either way if the byte
   happens to be the right one already.)
   */
  ghost predicate Faithful(s: Sys, e: Event)
    requires Inv(s) && Enabled(s, e)
  {
    match e
    case Fork(p) =>
      ForkStep(s, p).1.Some? && A.TakesLastWhole(s.arena, s.procs[p].dataSize) ==>
        View(s, p)[s.procs[p].dataSize - 1] == OPEN
    case Exit(p) => true
    case Store(p, off, b) =>
      var a := s.procs[p].dataPhys + off;
      if off < s.procs[p].dataSize then a < |s.mem| || b == OPEN
      else Spares(s, a, b)
  }

  /** The child has the parent's bytes at every offset, but for a last byte that is not memory. */
  lemma ChildView(s: Sys, p: nat, t: Sys, c: nat)
    requires Inv(s) && Inv(t) && p in Subjects(s) && Forked(s, p, t, c)
    ensures |View(t, c)| == |View(s, p)| == s.procs[p].dataSize > 0
    ensures var n := s.procs[p].dataSize;
            View(t, c) == if t.procs[c].dataPhys + n <= |s.mem| then View(s, p) else View(s, p)[n - 1 := OPEN]
  {
    Bounds(s, p);
    Bounds(t, c);
    AreasDisjointFromNew(s, p, t, c);
  }

  lemma AreasDisjointFromNew(s: Sys, p: nat, t: Sys, c: nat)
    requires Inv(s) && Inv(t) && p in Subjects(s) && p < |s.procs| && Forked(s, p, t, c)
    ensures s.procs[p].dataPhys + s.procs[p].dataSize <= t.procs[c].dataPhys
            || t.procs[c].dataPhys + s.procs[p].dataSize <= s.procs[p].dataPhys
  {
    AreasDisjoint(t, p, c);
    assert t.procs[p] == s.procs[p];
  }

  /** Nobody else's bytes are touched by a fork. */
  lemma OtherView(s: Sys, p: nat, t: Sys, c: nat, q: nat)
    requires Inv(s) && Inv(t) && p in Subjects(s) && Forked(s, p, t, c) && q in Subjects(s)
    ensures View(t, q) == View(s, q)
  {
    Bounds(s, q);
    AreasDisjoint(t, q, c);
    assert t.procs[q] == s.procs[q];
  }

  lemma ForkedViewsIff(s: Sys, p: nat, t: Sys, c: nat)
    requires Inv(s) && Inv(t) && p in Subjects(s) && Forked(s, p, t, c)
    ensures Views(t) == Views(s)[c := View(t, c)]
    ensures Views(t) == Views(s)[c := View(s, p)] <==> View(t, c) == View(s, p)
  {
    forall q | q in Subjects(s)
      ensures View(t, q) == View(s, q)
    {
      OtherView(s, p, t, c, q);
    }
    assert Subjects(t) == Subjects(s) + {c};
    assert Views(t) == Views(s)[c := View(t, c)];
    assert Views(s)[c := View(t, c)][c] == View(t, c) && Views(s)[c := View(s, p)][c] == View(s, p);
  }

  lemma ForkRefinesIff(s: Sys, p: nat)
    requires Inv(s) && Enabled(s, Fork(p))
    ensures Inv(ForkStep(s, p).0)
    ensures Views(ForkStep(s, p).0) == PrivateStep(Views(s), Fork(p), ForkStep(s, p).1) <==> Faithful(s, Fork(p))
  {
    ForkKeeps(s, p);
    var (t, r) := ForkStep(s, p);
    if r.Some? {
      ForkGrants(s, p);
      GrantedViewsIff(s, p, t, r.value);
    } else {
      ForkRefused(s, p);
      SameViews(s, t);
    }
  }

  lemma GrantedViewsIff(s: Sys, p: nat, t: Sys, c: nat)
    requires Inv(s) && Inv(t) && p in Subjects(s) && Forked(s, p, t, c)
    ensures |View(s, p)| == s.procs[p].dataSize > 0
    ensures Views(t) == Views(s)[c := View(s, p)] <==>
              t.procs[c].dataPhys + t.procs[c].dataSize <= |s.mem| || View(s, p)[s.procs[p].dataSize - 1] == OPEN
  {
    ForkedViewsIff(s, p, t, c);
    ChildView(s, p, t, c);
    var v, n := View(s, p), s.procs[p].dataSize;
    assert v[n - 1 := OPEN][n - 1] == OPEN;
  }

  lemma SameViews(s: Sys, t: Sys)
    requires Inv(s) && Inv(t) && t.mem == s.mem && t.live == s.live
    requires forall q :: q in Subjects(s) ==> q < |s.procs| && q < |t.procs| && t.procs[q] == s.procs[q]
    ensures Views(t) == Views(s)
  {
    forall q | q in Subjects(s)
      ensures View(t, q) == View(s, q)
    {
    }
  }

  /** What a store does to the bytes of a process, its own or another. */
  lemma StoreView(s: Sys, p: nat, off: nat, b: Byte, q: nat)
    requires Inv(s) && Enabled(s, Store(p, off, b)) && q in Subjects(s)
    ensures p < |s.procs| && q < |s.procs|
    ensures var a, t := s.procs[p].dataPhys + off, StoreStep(s, p, off, b);
            && Linear(s.procs[p], off) == a
            && View(t, q) == if Owns(s, q, a) then View(s, q)[a - s.procs[q].dataPhys := b] else View(s, q)
    ensures off < s.procs[p].dataSize && q != p ==> !Owns(s, q, s.procs[p].dataPhys + off)
  {
    Bounds(s, p);
    Bounds(s, q);
    SurplusIs(s.procs[p], off);
    if q != p {
      AreasDisjoint(s, p, q);
    }
  }

  /** The part of `Faithful` that concerns the view of `q`. */
  ghost predicate StoreIsRightFor(s: Sys, p: nat, off: nat, b: Byte, q: nat)
    requires Inv(s) && Enabled(s, Store(p, off, b))
  {
    var a := s.procs[p].dataPhys + off;
    if q == p && off < s.procs[p].dataSize then a < |s.mem| || b == OPEN
    else Owns(s, q, a) ==> s.mem[a] == b
  }

  /** What the private machine holds for `q` after the store. */
  ghost function Right(s: Sys, p: nat, off: nat, b: Byte, q: nat): seq<Byte>
    requires Inv(s) && q in Subjects(s)
  {
    if q == p && off < |View(s, q)| then View(s, q)[off := b] else View(s, q)
  }

  lemma OwnStoreSeenIff(s: Sys, p: nat, off: nat, b: Byte)
    requires Inv(s) && Enabled(s, Store(p, off, b)) && off < s.procs[p].dataSize
    ensures View(StoreStep(s, p, off, b), p) == Right(s, p, off, b, p) <==> StoreIsRightFor(s, p, off, b, p)
  {
    StoreView(s, p, off, b, p);
    assert Owns(s, p, s.procs[p].dataPhys + off) <==> s.procs[p].dataPhys + off < |s.mem|;
    UpdateIsSameIff(View(s, p), off, b);
  }

  lemma StoreSeenIff(s: Sys, p: nat, off: nat, b: Byte, q: nat)
    requires Inv(s) && Enabled(s, Store(p, off, b)) && q in Subjects(s)
    ensures View(StoreStep(s, p, off, b), q) == Right(s, p, off, b, q) <==> StoreIsRightFor(s, p, off, b, q)
  {
    if q == p && off < s.procs[p].dataSize {
      OwnStoreSeenIff(s, p, off, b);
    } else {
      StoreView(s, p, off, b, q);
      var a := s.procs[p].dataPhys + off;
      if Owns(s, q, a) {
        UpdateIsSameIff(View(s, q), a - s.procs[q].dataPhys, b);
      }
    }
  }

  lemma UpdateIsSameIff(v: seq<Byte>, i: nat, b: Byte)
    requires i < |v|
    ensures v[i := b] == v <==> v[i] == b
  {
    assert v[i := b][i] == b;
  }

  lemma FaithfulStoreIff(s: Sys, p: nat, off: nat, b: Byte)
    requires Inv(s) && Enabled(s, Store(p, off, b))
    ensures Faithful(s, Store(p, off, b)) <==> forall q :: q in Subjects(s) ==> StoreIsRightFor(s, p, off, b, q)
  {
    var a := s.procs[p].dataPhys + off;
    if off < s.procs[p].dataSize {
      assert Faithful(s, Store(p, off, b)) <==> StoreIsRightFor(s, p, off, b, p);
      forall q | q in Subjects(s) && q != p
        ensures StoreIsRightFor(s, p, off, b, q)
      {
        StoreView(s, p, off, b, q);
      }
    } else {
      if forall q :: q in Subjects(s) ==> StoreIsRightFor(s, p, off, b, q) {
        forall q | Owns(s, q, a)
          ensures s.mem[a] == b
        {
          assert StoreIsRightFor(s, p, off, b, q);
        }
        assert Spares(s, a, b);
      }
    }
  }

  lemma PrivateStore(s: Sys, p: nat, off: nat, b: Byte)
    requires Inv(s) && p in Subjects(s)
    ensures PrivateStep(Views(s), Store(p, off, b), None) == map q | q in Subjects(s) :: Right(s, p, off, b, q)
  {
  }

  lemma StoreRefinesIff(s: Sys, p: nat, off: nat, b: Byte)
    requires Inv(s) && Enabled(s, Store(p, off, b))
    ensures Views(StoreStep(s, p, off, b)) == PrivateStep(Views(s), Store(p, off, b), None)
            <==> Faithful(s, Store(p, off, b))
  {
    PrivateStore(s, p, off, b);
    FaithfulStoreIff(s, p, off, b);
    var t := StoreStep(s, p, off, b);
    forall q | q in Subjects(s)
      ensures View(t, q) == Right(s, p, off, b, q) <==> StoreIsRightFor(s, p, off, b, q)
    {
      StoreSeenIff(s, p, off, b, q);
    }
    SameMapsIff(s, t, p, off, b);
  }

  lemma SameMapsIff(s: Sys, t: Sys, p: nat, off: nat, b: Byte)
    requires Inv(s) && Inv(t) && Subjects(t) == Subjects(s)
    ensures Views(t) == (map q | q in Subjects(s) :: Right(s, p, off, b, q))
            <==> forall q :: q in Subjects(s) ==> View(t, q) == Right(s, p, off, b, q)
  {
    var m := map q | q in Subjects(s) :: Right(s, p, off, b, q);
    if Views(t) == m {
      forall q | q in Subjects(s)
        ensures View(t, q) == Right(s, p, off, b, q)
      {
        assert Views(t)[q] == m[q];
      }
    }
  }

  lemma ExitRefines(s: Sys, p: nat)
    requires Inv(s) && p in s.live
    ensures Inv(ExitStep(s, p))
    ensures Views(ExitStep(s, p)) == PrivateStep(Views(s), Exit(p), None)
  {
    ExitKeeps(s, p);
    var t := ExitStep(s, p);
    forall q | q in Subjects(t)
      ensures q in Subjects(s) && View(t, q) == View(s, q)
    {
      assert t.procs[q] == s.procs[q];
    }
    assert Subjects(t) == Subjects(s) - {p};
  }

  /** A step does to the views what the private machine does, exactly when it is faithful. */
  lemma StepRefinesIff(s: Sys, e: Event)
    requires Inv(s) && Enabled(s, e)
    ensures Inv(Apply(s, e))
    ensures Views(Apply(s, e)) == PrivateStep(Views(s), e, ChildOf(s, e)) <==> Faithful(s, e)
  {
    ApplyKeeps(s, e);
    match e {
      case Fork(p) => ForkRefinesIff(s, p);
      case Exit(p) => ExitRefines(s, p);
      case Store(p, off, b) => StoreRefinesIff(s, p, off, b);
    }
  }

  // ---------- whole runs ----------

  ghost predicate EnabledRun(s: Sys, es: seq<Event>)
    decreases |es|
  {
    es == [] || (Inv(s) && Enabled(s, es[0]) && EnabledRun(Apply(s, es[0]), es[1..]))
  }

  ghost function Run(s: Sys, es: seq<Event>): Sys
    requires EnabledRun(s, es)
    decreases |es|
  {
    if es == [] then s else Run(Apply(s, es[0]), es[1..])
  }

  /**
   Fed with the same events and the child numbers the kernel chose, the private machine holds the views
   after every step.
   */
  ghost predicate Shadows(m: map<nat, seq<Byte>>, s: Sys, es: seq<Event>)
    requires Inv(s) && EnabledRun(s, es)
    decreases |es|
  {
    m == Views(s) &&
    (es == [] ||
     (ApplyKeeps(s, es[0]);
      Shadows(PrivateStep(m, es[0], ChildOf(s, es[0])), Apply(s, es[0]), es[1..])))
  }

  ghost predicate FaithfulRun(s: Sys, es: seq<Event>)
    requires EnabledRun(s, es)
    decreases |es|
  {
    es == [] || (Faithful(s, es[0]) && FaithfulRun(Apply(s, es[0]), es[1..]))
  }

  /** Over any run, the processes see private memories throughout iff every step is faithful. */
  lemma {:induction false} RunRefinesIff(s: Sys, es: seq<Event>)
    requires Inv(s) && EnabledRun(s, es)
    ensures Inv(Run(s, es))
    ensures Shadows(Views(s), s, es) <==> FaithfulRun(s, es)
    decreases |es|
  {
    if es != [] {
      var m, t := PrivateStep(Views(s), es[0], ChildOf(s, es[0])), Apply(s, es[0]);
      StepRefinesIff(s, es[0]);
      RunRefinesIff(t, es[1..]);
      if Faithful(s, es[0]) {
        assert m == Views(t);
      } else {
        assert m != Views(t) && !Shadows(m, t, es[1..]);
      }
    }
  }

  // ---------- stores at offsets umap accepts ----------

  /** All of the process's area is memory. */
  ghost predicate Whole(s: Sys, p: nat) {
    p < |s.procs| && s.procs[p].dataPhys + s.procs[p].dataSize <= |s.mem|
  }

  /** Every store is at an offset `umap` accepts, and no fork is given the last hole whole. */
  ghost predicate UmapRun(s: Sys, es: seq<Event>)
    requires EnabledRun(s, es)
    decreases |es|
  {
    es == [] ||
    (&& UmapRun(Apply(s, es[0]), es[1..])
     && match es[0]
        case Fork(p) => !A.TakesLastWhole(s.arena, s.procs[p].dataSize)
        case Exit(p) => true
        case Store(p, off, b) => UmapAccepts(s.procs[p], off))
  }

  /** Runs whose stores stay where `umap` would accept them are faithful. */
  lemma {:induction false} UmapStoresAreFaithful(s: Sys, es: seq<Event>)
    requires Inv(s) && EnabledRun(s, es) && UmapRun(s, es)
    requires forall p :: p in Subjects(s) ==> Whole(s, p)
    ensures FaithfulRun(s, es)
    decreases |es|
  {
    if es != [] {
      var t := Apply(s, es[0]);
      ApplyKeeps(s, es[0]);
      forall p | p in Subjects(t)
        ensures Whole(t, p)
      {
        StepWhole(s, es[0], p);
      }
      if es[0].Store? {
        assert Whole(s, es[0].p);
      }
      UmapStoresAreFaithful(t, es[1..]);
    }
  }

  lemma StepWhole(s: Sys, e: Event, p: nat)
    requires Inv(s) && Enabled(s, e) && p in Subjects(Apply(s, e))
    requires forall q :: q in Subjects(s) ==> Whole(s, q)
    requires e.Fork? ==> !A.TakesLastWhole(s.arena, s.procs[e.p].dataSize)
    ensures Whole(Apply(s, e), p)
  {
    match e {
      case Fork(f) =>
        if ForkStep(s, f).1.Some? {
          ForkGrants(s, f);
        } else {
          ForkRefused(s, f);
        }
      case _ =>
    }
    assert p in Subjects(s) ==> Whole(s, p);
  }

  // ---------- stores beyond ----------

  /** Addresses the processor accepts from `p` beyond its own area. */
  ghost predicate InSurplus(s: Sys, p: nat, a: int)
    requires p < |s.procs|
  {
    s.procs[p].dataPhys + s.procs[p].dataSize <= a <= s.procs[p].dataPhys + D.LimitOf(Segment(s.procs[p]))
  }

  /** No store that the processor accepts from `p` changes what another process sees. */
  ghost predicate Harmless(s: Sys, p: nat)
    requires Inv(s) && p in Subjects(s) && p < |s.procs|
  {
    forall off: nat, b, q :: ProcessorAccepts(s.procs[p], off) && q in Subjects(s) && q != p ==>
                          View(StoreStep(s, p, off, b), q) == View(s, q)
  }

  /** It does so exactly when no other process has memory in the surplus behind its area. */
  lemma HarmlessIff(s: Sys, p: nat)
    requires Inv(s) && p in s.live && p < |s.procs| && s.procs[p].ldt != 0
    ensures Harmless(s, p) <==> forall q, a :: q != p && Owns(s, q, a) ==> !InSurplus(s, p, a)
  {
    if q, a :| q != p && Owns(s, q, a) && InSurplus(s, p, a) {
      SurplusHits(s, p, q, a, Flip(s.mem[a]));
      StoreSeen(s, p, q, a);
    } else {
      forall off: nat, b, q | ProcessorAccepts(s.procs[p], off) && q in Subjects(s) && q != p
        ensures View(StoreStep(s, p, off, b), q) == View(s, q)
      {
        StoreView(s, p, off, b, q);
        if off >= s.procs[p].dataSize && Owns(s, q, s.procs[p].dataPhys + off) {
          assert InSurplus(s, p, s.procs[p].dataPhys + off);
        }
      }
    }
  }

  function Flip(b: Byte): (r: Byte)
    ensures r != b
  {
    if b == 0 then 1 else 0
  }

  /** A store into the surplus lands in the other process. */
  lemma SurplusHits(s: Sys, p: nat, q: nat, a: nat, b: Byte)
    requires Inv(s) && p in s.live && p < |s.procs| && s.procs[p].ldt != 0 && q != p && Owns(s, q, a) && InSurplus(s, p, a)
    ensures var off := a - s.procs[p].dataPhys;
            && ProcessorAccepts(s.procs[p], off) && !UmapAccepts(s.procs[p], off)
            && View(StoreStep(s, p, off, b), q) == View(s, q)[a - s.procs[q].dataPhys := b]
  {
    var off := a - s.procs[p].dataPhys;
    assert Enabled(s, Store(p, off, b));
    StoreView(s, p, off, b, q);
  }

  lemma StoreSeen(s: Sys, p: nat, q: nat, a: nat)
    requires Inv(s) && p in s.live && p < |s.procs| && s.procs[p].ldt != 0 && q != p && Owns(s, q, a) && InSurplus(s, p, a)
    ensures !Harmless(s, p)
  {
    var off, i, b := a - s.procs[p].dataPhys, a - s.procs[q].dataPhys, Flip(s.mem[a]);
    SurplusHits(s, p, q, a, b);
    assert View(s, q)[i := b][i] == b && View(s, q)[i] == s.mem[a];
    assert View(StoreStep(s, p, off, b), q) != View(s, q);
  }

  // ---------- memory is given back, process slots are not always ----------

  ghost function Owned(s: Sys): set<Block>
    requires forall p :: p in s.live ==> p < |s.procs|
  {
    set p | p in s.live :: BlockOf(s.procs[p])
  }

  /** The live blocks of the allocator are the ones in `kernel` and one for each forked process. */
  ghost predicate Accounts(s: Sys, kernel: set<Block>) {
    && Inv(s) && kernel !! Owned(s)
    && A.LiveOf(s.arena) == kernel + Owned(s)
  }

  lemma SameStart(s: Sys, b: Block, c: Block)
    requires Inv(s) && b in A.LiveOf(s.arena) && c in A.LiveOf(s.arena) && b.off == c.off
    ensures b == c
  {
    if b != c {
      LiveDisjoint(s.arena.segs, s.arena.base, b, c);
      LiveBounds(s.arena.segs, s.arena.base, b);
      LiveBounds(s.arena.segs, s.arena.base, c);
      assert false;
    }
  }

  lemma ForkAccounts(s: Sys, p: nat, kernel: set<Block>)
    requires Accounts(s, kernel) && p in Subjects(s)
    ensures Accounts(ForkStep(s, p).0, kernel)
    ensures A.SameManagedRange(s.arena, ForkStep(s, p).0.arena)
  {
    ForkKeeps(s, p);
    if ForkStep(s, p).1.Some? {
      ForkGrants(s, p);
      ForkedAccounts(s, p, ForkStep(s, p).0, ForkStep(s, p).1.value, kernel);
    } else {
      ForkRefused(s, p);
      assert Owned(ForkStep(s, p).0) == Owned(s);
    }
  }

  lemma ForkedAccounts(s: Sys, p: nat, t: Sys, c: nat, kernel: set<Block>)
    requires Accounts(s, kernel) && Inv(t) && Forked(s, p, t, c)
    ensures Accounts(t, kernel)
  {
    var b := BlockOf(t.procs[c]);
    assert b !in A.LiveOf(s.arena);
    assert Owned(t) == Owned(s) + {b};
  }

  lemma ExitAccounts(s: Sys, p: nat, kernel: set<Block>)
    requires Accounts(s, kernel) && p in s.live
    ensures Accounts(ExitStep(s, p), kernel)
    ensures A.SameManagedRange(s.arena, ExitStep(s, p).arena)
  {
    ExitKeeps(s, p);
    var t := ExitStep(s, p);
    var mine := BlockOf(s.procs[p]);
    A.FreeRemoves(s.arena, s.procs[p].dataPhys);
    assert mine in Owned(s);
    forall b | b in A.LiveOf(s.arena)
      ensures b.off != mine.off <==> b != mine
    {
      if b.off == mine.off {
        SameStart(s, b, mine);
      }
    }
    assert forall q :: q in t.live ==> t.procs[q] == s.procs[q] && BlockOf(s.procs[q]) != mine;
    assert Owned(t) == Owned(s) - {mine};
  }

  lemma {:induction false} RunAccounts(s: Sys, es: seq<Event>, kernel: set<Block>)
    requires Accounts(s, kernel) && EnabledRun(s, es)
    ensures Accounts(Run(s, es), kernel) && A.SameManagedRange(s.arena, Run(s, es).arena)
    decreases |es|
  {
    if es != [] {
      var t := Apply(s, es[0]);
      match es[0] {
        case Fork(p) => ForkAccounts(s, p, kernel);
        case Exit(p) => ExitAccounts(s, p, kernel);
        case Store(p, off, b) =>
          ApplyKeeps(s, es[0]);
          assert Owned(t) == Owned(s);
      }
      RunAccounts(t, es[1..], kernel);
    }
  }

  /** When all forked processes are gone, the allocator is back where it started, list and descriptors. */
  lemma NoMemoryLeak(s: Sys, es: seq<Event>)
    requires Inv(s) && s.live == {} && EnabledRun(s, es) && Run(s, es).live == {}
    ensures Run(s, es).arena == s.arena
  {
    assert Owned(s) == {};
    RunAccounts(s, es, A.LiveOf(s.arena));
    assert Owned(Run(s, es)) == {};
    A.LiveDeterminesArena(s.arena, Run(s, es).arena);
  }

  /** A slot that is marked in use although no process owns it. */
  ghost predicate Leaked(s: Sys, c: nat) {
    INIT < c < |s.procs| && s.procs[c].inUse && c !in s.live
  }

  /** A fork leaks a process slot exactly when there was a slot but no memory for the child. */
  lemma ForkLeaksIff(s: Sys, p: nat)
    requires Inv(s) && p in Subjects(s)
    ensures (exists c :: Leaked(ForkStep(s, p).0, c) && !Leaked(s, c)) <==>
              FreeProc(s.procs) < |s.procs| && A.Alloc(s.arena, s.procs[p].dataSize).1.None?
  {
    Bounds(s, p);
    var t, c := ForkStep(s, p).0, FreeProc(s.procs);
    if c < |s.procs| && A.Alloc(s.arena, s.procs[p].dataSize).1.None? {
      assert Leaked(t, c) && !Leaked(s, c);
    }
  }

  /** A leaked slot is never handed out again. */
  lemma {:induction false} LeakIsPermanent(s: Sys, es: seq<Event>, c: nat)
    requires Inv(s) && EnabledRun(s, es) && Leaked(s, c)
    ensures Leaked(Run(s, es), c)
    decreases |es|
  {
    if es != [] {
      ApplyKeeps(s, es[0]);
      LeakIsPermanent(Apply(s, es[0]), es[1..], c);
    }
  }

  // ---------- a slot loses its LDT selector ----------

  /** A slot has its selector until a process exits from it. */
  lemma {:induction false} SelectorAfter(s: Sys, es: seq<Event>, c: nat)
    requires Inv(s) && EnabledRun(s, es) && c < |s.procs|
    ensures c < |Run(s, es).procs|
    ensures Run(s, es).procs[c].ldt == if Exit(c) in es then 0 else s.procs[c].ldt
    decreases |es|
  {
    if es != [] {
      var t := Apply(s, es[0]);
      ApplyKeeps(s, es[0]);
      assert Exit(c) in es <==> es[0] == Exit(c) || Exit(c) in es[1..];
      SelectorAfter(t, es[1..], c);
    }
  }

  /** The process in a slot can run iff none has exited from that slot before. */
  lemma RunsIff(s: Sys, es: seq<Event>, c: nat)
    requires Inv(s) && EnabledRun(s, es) && c < |s.procs| && s.procs[c].ldt != 0 && c in Subjects(Run(s, es))
    ensures (exists e: Event :: e.p == c && Enabled(Run(s, es), e)) <==> Exit(c) !in es
  {
    SelectorAfter(s, es, c);
    var t := Run(s, es);
    if Exit(c) !in es {
      assert Fork(c).p == c && Enabled(t, Fork(c));
    }
  }
}
