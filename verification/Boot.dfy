/**
 The process table, the memory and the hole list after `mem_init` and `proc_init`, and what can go wrong
 from there in a few steps.
 */
module Boot {
  import opened Processes
  import opened Options
  import opened Segments
  import A = Arena
  import D = Descriptors
  import Pages

  const MEMORY_START: nat := 0x10_0000
  const NR_PAGES: nat := 128

  /** What `mem_init` allocates for `kmalloc`. */
  const HEAP: nat := Pages.PAGE_SIZE * NR_PAGES

  /** `seg_selector` for the LDT of slot `t`. */
  function Selector(t: nat): nat {
    (6 + t) * 8
  }

  /** The LDT of each slot has a descriptor of its own in the GDT, behind the one of the task state at 0x28. */
  lemma SelectorsAre(t: nat, u: nat)
    ensures Selector(t) == 0x30 + 8 * t && (t != u ==> Selector(t) != Selector(u))
  {
  }

  /** Memory for more than the heap, a page below the end of addresses; `memory_end` is its size. */
  predicate Memory(end: nat, descriptors: nat) {
    descriptors >= 2 && MEMORY_START + HEAP <= end && end + 0x1000 < D.U32
  }

  /** The holes after `mem_init`: the heap, and the rest. */
  function Holes(end: nat, descriptors: nat): A.Arena
    requires Memory(end, descriptors)
  {
    A.Alloc(A.Initial(descriptors, MEMORY_START, end), HEAP).0
  }

  /** Bytes behind the heap, one more than there are. */
  function Rest(end: nat): nat
    requires end >= MEMORY_START + HEAP
  {
    end - MEMORY_START - HEAP + 1
  }

  /** Bytes of the stacks of idle and init, one behind the other in `userstack`. */
  const IDLE_STACK: nat := 50
  const INIT_STACK: nat := 512 * 5

  /** The entry `proc_init` fills in: the data map reaches from 0 to the end of the stack. */
  function FirstPcb(t: nat, stack: nat, size: nat): Pcb {
    Pcb(true, Selector(t), 0, 0, stack + size, stack, 0, size)
  }

  /** The stack of init has 2560 bytes behind the 50 of idle, and its data map ends with it. */
  lemma InitMapIs(userstack: nat)
    ensures var p := FirstPcb(INIT, userstack + IDLE_STACK, INIT_STACK);
            Mapped(p) && p.dataPhys == 0 && p.stackVir == userstack + 50 && p.dataSize == userstack + 2610
  {
  }

  predicate Booted(s: Sys, descriptors: nat) {
    && Memory(|s.mem|, descriptors) && s.arena == Holes(|s.mem|, descriptors) && s.live == {}
    && INIT < |s.procs| && s.procs[IDLE].inUse
    && Mapped(s.procs[INIT]) && s.procs[INIT].dataPhys == 0 && s.procs[INIT].dataSize <= MEMORY_START
    && (forall c :: 0 <= c < |s.procs| ==> s.procs[c].ldt == Selector(c))
    && (forall c :: INIT < c < |s.procs| ==> !s.procs[c].inUse)
  }

  lemma HolesAre(end: nat, descriptors: nat)
    requires Memory(end, descriptors)
    ensures var a := Holes(end, descriptors);
            && a == A.Arena(MEMORY_START, [Busy(HEAP, A.STAT_BUSY), Seg.Free(Rest(end))], descriptors - 2)
            && A.OnlyRest(a, [Busy(HEAP, A.STAT_BUSY)], Rest(end))
            && Canonical(a.segs) && MEMORY_START + Total(a.segs) == end + 1
  {
    var a := A.Initial(descriptors, MEMORY_START, end);
    A.RestCut(a, [], end - MEMORY_START + 1, HEAP);
    var s := [Busy(HEAP, A.STAT_BUSY), Seg.Free(Rest(end))];
    assert [] + [Busy(HEAP, A.STAT_BUSY)] + [Seg.Free(Rest(end))] == s;
    assert s == [Busy(HEAP, A.STAT_BUSY)] + [Seg.Free(Rest(end))];
    TotalOfTwo(HEAP, Rest(end));
  }

  lemma TotalOfTwo(m: nat, n: nat)
    ensures Total([Busy(m, A.STAT_BUSY)]) == m && Total([Busy(m, A.STAT_BUSY), Seg.Free(n)]) == m + n
  {
    assert [Busy(m, A.STAT_BUSY), Seg.Free(n)][1..] == [Seg.Free(n)];
    assert Total([Seg.Free(n)]) == n;
  }

  lemma BootedInv(s: Sys, descriptors: nat)
    requires Booted(s, descriptors)
    ensures Inv(s)
  {
    HolesAre(|s.mem|, descriptors);
  }

  lemma FirstFree(procs: seq<Pcb>, c: nat)
    requires c < |procs| && !procs[c].inUse && forall i :: 0 <= i < c ==> procs[i].inUse
    ensures FreeProc(procs) == c
  {
  }

  lemma OneStep(s: Sys, e: Event)
    requires Inv(s) && Enabled(s, e)
    ensures EnabledRun(s, [e]) && Run(s, [e]) == Apply(s, e) && Inv(Apply(s, e))
  {
    ApplyKeeps(s, e);
    assert [e][1..] == [];
  }

  // ---------- fork without memory ----------

  /** There is a free slot but no hole large enough for the first child: the slot is lost. */
  lemma ForkLeakExample(s: Sys, descriptors: nat)
    requires Booted(s, descriptors) && |s.procs| > 2 && Rest(|s.mem|) < s.procs[INIT].dataSize
    ensures EnabledRun(s, [Fork(INIT)]) && !Leaked(s, 2) && Leaked(Run(s, [Fork(INIT)]), 2)
  {
    BootedInv(s, descriptors);
    HolesAre(|s.mem|, descriptors);
    FirstFree(s.procs, 2);
    A.RestTooSmall(s.arena, [Busy(HEAP, A.STAT_BUSY)], Rest(|s.mem|), s.procs[INIT].dataSize);
    OneStep(s, Fork(INIT));
  }

  // ---------- the last hole taken whole ----------

  /** The first child needs exactly the rest of the managed range: its last byte is behind the memory. */
  lemma LastHoleExample(s: Sys, descriptors: nat)
    requires Booted(s, descriptors) && |s.procs| > 2 && Rest(|s.mem|) == s.procs[INIT].dataSize
    ensures EnabledRun(s, [Fork(INIT)])
    ensures var t, n := Run(s, [Fork(INIT)]), s.procs[INIT].dataSize;
            && Inv(t) && 2 in t.live && t.procs[2].dataPhys + n == |s.mem| + 1
            && View(t, 2) == View(s, INIT)[n - 1 := OPEN]
  {
    BootedInv(s, descriptors);
    HolesAre(|s.mem|, descriptors);
    FirstFree(s.procs, 2);
    A.RestTaken(s.arena, [Busy(HEAP, A.STAT_BUSY)], Rest(|s.mem|));
    OneStep(s, Fork(INIT));
    ForkGrants(s, INIT);
    ChildView(s, INIT, ForkStep(s, INIT).0, 2);
  }

  // ---------- a slot used twice ----------

  const REUSE := [Fork(INIT), Exit(2), Fork(INIT)]

  /**
   From the boot on: init forks, the child exits, init forks again. The second child gets slot 2 once more,
   without an LDT selector, and cannot run.
   */
  lemma ReusedSlotExample(s: Sys, descriptors: nat)
    requires Booted(s, descriptors) && |s.procs| > 2 && descriptors > 2 && s.procs[INIT].dataSize < Rest(|s.mem|)
    ensures EnabledRun(s, REUSE)
    ensures var t := Run(s, REUSE);
            2 in t.live && 2 < |t.procs| && t.procs[2].ldt == 0 && forall e: Event :: e.p == 2 ==> !Enabled(t, e)
  {
    var a := FirstChild(s, descriptors);
    var b := ExitStep(a, 2);
    ExitKeeps(a, 2);
    A.FreeUndoesAlloc(s.arena, s.procs[INIT].dataSize);
    assert b.arena == s.arena && b.live == {};
    FirstFree(b.procs, 2);
    ForkGrants(b, INIT);
    OneStep(b, Fork(INIT));
    assert REUSE[1..][1..] == [Fork(INIT)];
    assert EnabledRun(a, REUSE[1..]);
  }

  lemma FirstChild(s: Sys, descriptors: nat) returns (t: Sys)
    requires Booted(s, descriptors) && |s.procs| > 2 && descriptors > 2 && s.procs[INIT].dataSize < Rest(|s.mem|)
    ensures Inv(s) && Enabled(s, Fork(INIT)) && t == Apply(s, Fork(INIT)) && Inv(t) && Forked(s, INIT, t, 2)
    ensures t.live == {2} && t.arena == A.Alloc(s.arena, s.procs[INIT].dataSize).0
    ensures A.Alloc(s.arena, s.procs[INIT].dataSize).1 == Some(t.procs[2].dataPhys)
  {
    BootedInv(s, descriptors);
    HolesAre(|s.mem|, descriptors);
    FirstFree(s.procs, 2);
    A.RestCut(s.arena, [Busy(HEAP, A.STAT_BUSY)], Rest(|s.mem|), s.procs[INIT].dataSize);
    t := Apply(s, Fork(INIT));
    ApplyKeeps(s, Fork(INIT));
    ForkGrants(s, INIT);
  }

  // ---------- neighbours ----------

  /** The holes after the first fork. */
  lemma HolesAfterFork(s: Sys, descriptors: nat)
    requires Booted(s, descriptors) && descriptors > 2 && 0 < s.procs[INIT].dataSize < Rest(|s.mem|)
    ensures var n := s.procs[INIT].dataSize; var (a, r) := A.Alloc(s.arena, n);
            && r == Some(MEMORY_START + HEAP) && a.base == MEMORY_START && a.spare == descriptors - 3
            && A.OnlyRest(a, [Busy(HEAP, A.STAT_BUSY), Busy(n, A.STAT_BUSY)], Rest(|s.mem|) - n)
  {
    var n, heap := s.procs[INIT].dataSize, [Busy(HEAP, A.STAT_BUSY)];
    HolesAre(|s.mem|, descriptors);
    TotalOfTwo(HEAP, n);
    A.RestCut(s.arena, heap, Rest(|s.mem|), n);
    assert heap + [Busy(n, A.STAT_BUSY)] == [Busy(HEAP, A.STAT_BUSY), Busy(n, A.STAT_BUSY)];
  }

  /** Another fork of init, with only the last stretch free. */
  lemma SecondChild(t: Sys, n: nat, rest: nat) returns (u: Sys)
    requires Inv(t) && |t.procs| > 3 && t.live == {2} && !t.procs[3].inUse && t.procs[INIT].ldt != 0
    requires n == t.procs[INIT].dataSize < rest && t.arena.spare > 0 && t.arena.base == MEMORY_START
    requires A.OnlyRest(t.arena, [Busy(HEAP, A.STAT_BUSY), Busy(n, A.STAT_BUSY)], rest)
    ensures Enabled(t, Fork(INIT)) && u == Apply(t, Fork(INIT)) && Inv(u) && Forked(t, INIT, u, 3)
    ensures u.procs[3].dataPhys == MEMORY_START + HEAP + n
  {
    FirstFree(t.procs, 3);
    TwoBlocks(HEAP, n);
    A.RestCut(t.arena, [Busy(HEAP, A.STAT_BUSY), Busy(n, A.STAT_BUSY)], rest, n);
    u := Apply(t, Fork(INIT));
    ApplyKeeps(t, Fork(INIT));
    ForkGrants(t, INIT);
  }

  lemma TwoBlocks(m: nat, n: nat)
    ensures Total([Busy(m, A.STAT_BUSY), Busy(n, A.STAT_BUSY)]) == m + n
  {
    TotalConcat([Busy(m, A.STAT_BUSY)], [Busy(n, A.STAT_BUSY)]);
    TotalOfTwo(m, 0);
    TotalOfTwo(n, 0);
    assert [Busy(m, A.STAT_BUSY)] + [Busy(n, A.STAT_BUSY)] == [Busy(m, A.STAT_BUSY), Busy(n, A.STAT_BUSY)];
  }

  /** Two forks of init give neighbouring blocks. */
  lemma Neighbours(s: Sys, descriptors: nat) returns (t: Sys, u: Sys)
    requires Booted(s, descriptors) && |s.procs| > 3 && descriptors > 3 && 2 * s.procs[INIT].dataSize < Rest(|s.mem|)
    ensures Inv(s) && Enabled(s, Fork(INIT)) && t == Apply(s, Fork(INIT))
    ensures Inv(t) && Enabled(t, Fork(INIT)) && u == Apply(t, Fork(INIT))
    ensures Inv(u) && u.live == {2, 3} && |u.procs| == |s.procs| && |u.mem| == |s.mem|
    ensures forall c :: 2 <= c <= 3 ==> u.procs[c].ldt == Selector(c) && u.procs[c].dataSize == s.procs[INIT].dataSize
    ensures u.procs[2].dataPhys == MEMORY_START + HEAP
    ensures u.procs[3].dataPhys == MEMORY_START + HEAP + s.procs[INIT].dataSize <= |u.mem| - s.procs[INIT].dataSize
  {
    var n := s.procs[INIT].dataSize;
    t := FirstChild(s, descriptors);
    HolesAfterFork(s, descriptors);
    u := SecondChild(t, n, Rest(|s.mem|) - n);
  }

  /**
   From the boot on: init forks twice, and the first child stores one byte behind its size, at an offset
   the processor accepts and `umap` does not. The byte lands at address 0 of the second child.
   */
  lemma NeighbourIsHit(s: Sys, descriptors: nat, b: Byte) returns (u: Sys)
    requires Booted(s, descriptors) && |s.procs| > 3 && descriptors > 3 && 2 * s.procs[INIT].dataSize < Rest(|s.mem|)
    ensures EnabledRun(s, [Fork(INIT), Fork(INIT)]) && u == Run(s, [Fork(INIT), Fork(INIT)]) && Inv(u) && 3 in u.live
    ensures 2 < |u.procs| && u.procs[2].dataPhys == 0x12_0000
    ensures var e := Store(2, s.procs[INIT].dataSize, b);
            && Enabled(u, e) && !UmapAccepts(u.procs[2], e.off)
            && Inv(Apply(u, e)) && 3 in Apply(u, e).live
            && View(Apply(u, e), 3) == View(u, 3)[0 := b]
  {
    var n := s.procs[INIT].dataSize;
    var t;
    t, u := Neighbours(s, descriptors);
    OneStep(t, Fork(INIT));
    assert [Fork(INIT), Fork(INIT)][1..] == [Fork(INIT)];
    Bounds(u, 2);
    Bounds(u, 3);
    SurplusIs(u.procs[2], n);
    assert Owns(u, 3, u.procs[3].dataPhys);
    LimitAtLeast(u.procs[2]);
    SurplusHits(u, 2, 3, u.procs[3].dataPhys, b);
  }

  lemma LimitAtLeast(p: Pcb)
    requires U32Map(p)
    ensures D.LimitOf(Segment(p)) >= p.dataSize
  {
    D.LimitBack(p.dataPhys, p.dataSize);
  }
}
