/**
 The hole list of `ker/mem.c`: a static table of descriptors, some linked in address order as the
 hole list, the others linked as the free list. Each method is proved against the arena functions.
 */
module Holes {
  import opened Links
  import opened Segments
  import opened Sequences
  import A = Arena

  datatype Hole = Hole(base: nat, size: nat, busy: bool, next: int)

  type Table = seq<Hole>

  ghost function NextOf(t: Table): (r: seq<int>)
    ensures |r| == |t| && forall i :: 0 <= i < |t| ==> r[i] == t[i].next
  {
    seq(|t|, i requires 0 <= i < |t| => t[i].next)
  }

  ghost predicate Inside(t: Table, path: seq<int>) {
    forall i :: 0 <= i < |path| ==> 0 <= path[i] < |t|
  }

  ghost function SegOf(h: Hole): Seg {
    if h.busy then Busy(h.size, A.STAT_BUSY) else Free(h.size)
  }

  ghost function SegsOf(t: Table, path: seq<int>): (r: seq<Seg>)
    requires Inside(t, path)
    ensures |r| == |path| && forall i :: 0 <= i < |path| ==> r[i] == SegOf(t[path[i]])
  {
    seq(|path|, i requires 0 <= i < |path| => SegOf(t[path[i]]))
  }

  /** Each hole starts where the one before it ends. */
  ghost predicate Tiled(t: Table, path: seq<int>, low: nat)
    requires Inside(t, path)
  {
    && (path != [] ==> t[path[0]].base == low)
    && forall i {:trigger t[path[i]].size} :: 0 <= i < |path| - 1 ==>
         t[path[i + 1]].base == t[path[i]].base + t[path[i]].size
  }

  /** A linked list of holes that tile a range of 32-bit addresses in canonical form. */
  ghost predicate HoleList(t: Table, head: int, path: seq<int>, low: nat) {
    && Chain(NextOf(t), head, path) && Distinct(path) && path != [] && low > 0
    && Tiled(t, path, low)
    && Canonical(SegsOf(t, path))
    && low + Total(SegsOf(t, path)) <= 0x1_0000_0000
  }

  lemma {:induction false} TiledStart(t: Table, path: seq<int>, low: nat, k: nat)
    requires Inside(t, path) && Tiled(t, path, low) && k < |path|
    ensures t[path[k]].base == Start(SegsOf(t, path), low, k)
  {
    if k > 0 {
      TiledStart(t, path, low, k - 1);
      StartStep(SegsOf(t, path), low, k - 1);
    }
  }

  lemma FirstFitIs(s: seq<Seg>, n: nat, k: nat)
    requires k <= |s| && (k < |s| ==> A.Fits(s[k], n))
    requires forall i :: 0 <= i < k ==> !A.Fits(s[i], n)
    ensures A.FirstFit(s, n) == k
  {
  }

  lemma FindBusyUnique(s: seq<Seg>, base: nat, addr: nat, k: nat)
    requires k <= |s| && (k < |s| ==> s[k].Busy? && Start(s, base, k) == addr)
    requires forall i :: 0 <= i < k && s[i].Busy? ==> Start(s, base, i) != addr
    ensures A.FindBusy(s, base, addr) == k
  {
    A.FindBusyIs(s, base, addr);
  }

  // ---------- the three edits of the table ----------

  /** Lines 84-90: hole `k` keeps the low part and becomes busy, descriptor `s` takes the rest. */
  ghost function SplitTable(t: Table, i: int, s: int, size: nat): Table
    requires 0 <= i < |t| && 0 <= s < |t| && size <= t[i].size
  {
    t[s := Hole(t[i].base + size, t[i].size - size, false, t[i].next)][i := Hole(t[i].base, size, true, s)]
  }

  lemma SplitChain(t: Table, head: int, path: seq<int>, k: nat, s: int, size: nat, path': seq<int>)
    requires Chain(NextOf(t), head, path) && Distinct(path)
    requires k < |path| && size < t[path[k]].size
    requires 0 <= s < |t| && s !in path && Inserted(path, k + 1, s, path')
    ensures Chain(NextOf(SplitTable(t, path[k], s, size)), head, path') && Distinct(path')
  {
    InsertedDistinct(path, k + 1, s, path');
    ChainInsert(NextOf(t), head, path, k, s, path');
    assert NextOf(SplitTable(t, path[k], s, size)) == NextOf(t)[s := NextOf(t)[path[k]]][path[k] := s];
  }

  lemma SplitTiled(t: Table, path: seq<int>, low: nat, k: nat, s: int, size: nat, path': seq<int>)
    requires Inside(t, path) && Tiled(t, path, low) && Distinct(path)
    requires k < |path| && size < t[path[k]].size
    requires 0 <= s < |t| && s !in path && Inserted(path, k + 1, s, path')
    ensures Inside(t, path') && Tiled(SplitTable(t, path[k], s, size), path', low)
  {
    DistinctOthers(path, k);
    var t' := SplitTable(t, path[k], s, size);
    forall j | 0 <= j < |path'| - 1
      ensures t'[path'[j + 1]].base == t'[path'[j]].base + t'[path'[j]].size
    {
      if j < k {
        TiledAt(t, path, low, j);
      } else if j > k {
        TiledAt(t, path, low, j - 1);
      }
    }
  }

  lemma TiledAt(t: Table, path: seq<int>, low: nat, j: nat)
    requires Inside(t, path) && Tiled(t, path, low) && j + 1 < |path|
    ensures t[path[j + 1]].base == t[path[j]].base + t[path[j]].size
  {
  }

  lemma SplitSegs(t: Table, path: seq<int>, k: nat, s: int, size: nat, path': seq<int>)
    requires Inside(t, path) && Distinct(path)
    requires k < |path| && !t[path[k]].busy && 0 < size < t[path[k]].size
    requires 0 <= s < |t| && s !in path && Inserted(path, k + 1, s, path')
    ensures Inside(t, path')
    ensures SegsOf(SplitTable(t, path[k], s, size), path') == Carve(SegsOf(t, path), k, size, A.STAT_BUSY)
  {
    DistinctOthers(path, k);
  }

  lemma SplitKeeps(t: Table, head: int, path: seq<int>, low: nat, k: nat, s: int, size: nat, path': seq<int>)
    requires HoleList(t, head, path, low)
    requires k < |path| && !t[path[k]].busy && 0 < size < t[path[k]].size
    requires 0 <= s < |t| && s !in path && Inserted(path, k + 1, s, path')
    ensures HoleList(SplitTable(t, path[k], s, size), head, path', low)
    ensures SegsOf(SplitTable(t, path[k], s, size), path') == Carve(SegsOf(t, path), k, size, A.STAT_BUSY)
  {
    SplitChain(t, head, path, k, s, size, path');
    SplitTiled(t, path, low, k, s, size, path');
    SplitSegs(t, path, k, s, size, path');
    CarveLive(SegsOf(t, path), low, k, size, A.STAT_BUSY);
    CarveCanonical(SegsOf(t, path), k, size, A.STAT_BUSY);
  }

  /** Line 96: a hole of exactly the right size changes its status. */
  lemma MarkKeeps(t: Table, head: int, path: seq<int>, low: nat, k: nat)
    requires HoleList(t, head, path, low) && k < |path| && !t[path[k]].busy
    ensures var t' := t[path[k] := t[path[k]].(busy := true)];
            && HoleList(t', head, path, low)
            && SegsOf(t', path) == Carve(SegsOf(t, path), k, t[path[k]].size, A.STAT_BUSY)
  {
    var t' := t[path[k] := t[path[k]].(busy := true)];
    DistinctOthers(path, k);
    assert NextOf(t') == NextOf(t);
    var segs, n := SegsOf(t, path), t[path[k]].size;
    assert SegsOf(t', path) == Carve(segs, k, n, A.STAT_BUSY);
    CarveLive(segs, low, k, n, A.STAT_BUSY);
    CarveCanonical(segs, k, n, A.STAT_BUSY);
    assert forall j :: 0 <= j < |path| ==> t'[path[j]].base == t[path[j]].base && t'[path[j]].size == t[path[j]].size;
  }

  /** A linked tiling; while neighbours are being merged it need not be canonical. */
  ghost predicate LooseList(t: Table, head: int, path: seq<int>, low: nat) {
    Chain(NextOf(t), head, path) && Distinct(path) && Tiled(t, path, low)
  }

  /** Line 116: the status change of a release. */
  lemma UnmarkKeeps(t: Table, head: int, path: seq<int>, low: nat, k: nat)
    requires LooseList(t, head, path, low) && k < |path|
    ensures var t' := t[path[k] := t[path[k]].(busy := false)];
            && LooseList(t', head, path, low)
            && SegsOf(t', path) == SegsOf(t, path)[k := Free(t[path[k]].size)]
  {
    var t' := t[path[k] := t[path[k]].(busy := false)];
    DistinctOthers(path, k);
    assert NextOf(t') == NextOf(t);
    assert forall j :: 0 <= j < |path| ==> t'[path[j]].base == t[path[j]].base && t'[path[j]].size == t[path[j]].size;
  }

  lemma Relist(t: Table, head: int, path: seq<int>, low: nat, segs: seq<Seg>)
    requires LooseList(t, head, path, low) && path != [] && low > 0
    requires SegsOf(t, path) == segs && Canonical(segs) && low + Total(segs) <= 0x1_0000_0000
    ensures HoleList(t, head, path, low) && |path| == |segs|
  {
  }

  /** Two touching free stretches become one. */
  function Join(s: seq<Seg>, k: nat): seq<Seg>
    requires k + 1 < |s|
  {
    s[..k] + [Free(s[k].len + s[k + 1].len)] + s[k + 2..]
  }

  /** Lines 122-124 and 130-132: the hole at `i` takes over the size and the link of the one behind it. */
  ghost function AbsorbTable(t: Table, i: int, n: int): Table
    requires 0 <= i < |t| && 0 <= n < |t|
  {
    t[i := t[i].(size := t[i].size + t[n].size, next := t[n].next)]
  }

  lemma AbsorbKeeps(t: Table, head: int, path: seq<int>, low: nat, k: nat, path': seq<int>)
    requires LooseList(t, head, path, low) && k + 1 < |path|
    requires !t[path[k]].busy && !t[path[k + 1]].busy && Inserted(path', k + 1, path[k + 1], path)
    ensures var t' := AbsorbTable(t, path[k], path[k + 1]);
            && LooseList(t', head, path', low) && Inside(t, path) && Inside(t, path')
            && SegsOf(t', path') == Join(SegsOf(t, path), k)
            && path[k + 1] !in path'
  {
    InsertedDistinct(path', k + 1, path[k + 1], path);
    AbsorbChain(t, head, path, k, path');
    AbsorbTiled(t, path, low, k, path');
    AbsorbSegs(t, path, k, path');
  }

  lemma AbsorbChain(t: Table, head: int, path: seq<int>, k: nat, path': seq<int>)
    requires Chain(NextOf(t), head, path) && Distinct(path) && k + 1 < |path|
    requires Inserted(path', k + 1, path[k + 1], path)
    ensures Chain(NextOf(AbsorbTable(t, path[k], path[k + 1])), head, path')
  {
    ChainRemove(NextOf(t), head, path, k, path');
    assert NextOf(AbsorbTable(t, path[k], path[k + 1])) == NextOf(t)[path[k] := NextOf(t)[path[k + 1]]];
  }

  lemma AbsorbSegs(t: Table, path: seq<int>, k: nat, path': seq<int>)
    requires Inside(t, path) && Distinct(path) && k + 1 < |path|
    requires !t[path[k]].busy && Inserted(path', k + 1, path[k + 1], path)
    ensures Inside(t, path')
    ensures SegsOf(AbsorbTable(t, path[k], path[k + 1]), path') == Join(SegsOf(t, path), k)
  {
    DistinctOthers(path, k);
    assert forall j :: 0 <= j < |path'| ==> path'[j] == path[if j <= k then j else j + 1];
  }

  lemma AbsorbTiled(t: Table, path: seq<int>, low: nat, k: nat, path': seq<int>)
    requires Inside(t, path) && Tiled(t, path, low) && Distinct(path) && k + 1 < |path|
    requires Inserted(path', k + 1, path[k + 1], path)
    ensures Inside(t, path') && Tiled(AbsorbTable(t, path[k], path[k + 1]), path', low)
  {
    DistinctOthers(path, k);
    var t' := AbsorbTable(t, path[k], path[k + 1]);
    assert Inside(t, path') by {
      assert forall j :: 0 <= j < |path'| ==> path'[j] == path[if j <= k then j else j + 1];
    }
    forall j | 0 <= j < |path'| - 1
      ensures t'[path'[j + 1]].base == t'[path'[j]].base + t'[path'[j]].size
    {
      if j < k {
        assert path'[j] == path[j] && path'[j + 1] == path[j + 1];
        TiledAt(t, path, low, j);
      } else {
        assert path'[j + 1] == path[j + 2];
        TiledAt(t, path, low, j + 1);
        if j == k {
          TiledAt(t, path, low, k);
        } else {
          assert path'[j] == path[j + 1];
        }
      }
    }
    assert path'[0] == path[0];
  }

  function JoinIfFree(s: seq<Seg>, k: int): seq<Seg> {
    if 0 <= k && k + 1 < |s| && s[k].Free? && s[k + 1].Free? then Join(s, k) else s
  }

  /** Changing the status and joining on both sides is exactly `Release`. */
  lemma JoinsAreRelease(s: seq<Seg>, k: nat)
    requires k < |s|
    ensures Release(s, k) == JoinIfFree(JoinIfFree(s[k := Free(s[k].len)], k), k - 1)
  {
    MiddleTotal(s, k);
    JoinRight(s, k);
    var hi := MergeHi(s, k);
    var n := s[k].len + if hi > k + 1 then s[k + 1].len else 0;
    JoinLeft(s[..k], n, s[hi..]);
  }

  lemma JoinRight(s: seq<Seg>, k: nat)
    requires k < |s|
    ensures var hi := MergeHi(s, k);
            JoinIfFree(s[k := Free(s[k].len)], k)
            == s[..k] + [Free(s[k].len + if hi > k + 1 then s[k + 1].len else 0)] + s[hi..]
  {
    var f := s[k := Free(s[k].len)];
    assert f[..k] == s[..k] && f[k + 1..] == s[k + 1..];
    if MergeHi(s, k) > k + 1 {
      assert f[k + 2..] == s[k + 2..];
    } else {
      assert f == f[..k] + [f[k]] + f[k + 1..];
    }
  }

  lemma JoinLeft(a: seq<Seg>, n: nat, z: seq<Seg>)
    ensures JoinIfFree(a + [Free(n)] + z, |a| - 1)
            == if a != [] && a[|a| - 1].Free? then a[..|a| - 1] + [Free(a[|a| - 1].len + n)] + z
               else a + [Free(n)] + z
  {
    var t, k := a + [Free(n)] + z, |a| - 1;
    if a != [] {
      assert t[..k] == a[..k] && t[k + 2..] == z;
    }
  }

  /** The free list next to the hole list. */
  ghost predicate Pool(t: Table, slotFree: int, slots: seq<int>, path: seq<int>) {
    && Chain(NextOf(t), slotFree, slots) && Distinct(slots) && Apart(path, slots)
    && |path| + |slots| == |t|
  }

  lemma SlotsFrame(t: Table, t': Table, slotFree: int, slots: seq<int>)
    requires Chain(NextOf(t), slotFree, slots) && |t'| == |t|
    requires forall x :: x in slots && 0 <= x < |t| ==> t'[x].next == t[x].next
    ensures Chain(NextOf(t'), slotFree, slots)
  {
    ChainFrame(NextOf(t), NextOf(t'), slotFree, slots);
  }

  /** The descriptor taken from the free list becomes the hole behind `path[k]`. */
  lemma TakeLowKeeps(t: Table, head: int, path: seq<int>, slotFree: int, slots: seq<int>, low: nat,
                     k: nat, s: int, size: nat, path': seq<int>)
    requires HoleList(t, head, path, low) && Pool(t, s, [s] + slots, path) && Chain(NextOf(t), slotFree, slots)
    requires k < |path| && !t[path[k]].busy && 0 < size < t[path[k]].size
    requires Inserted(path, k + 1, s, path')
    ensures 0 <= s < |t| && s != path[k]
    ensures var t' := SplitTable(t, path[k], s, size);
            && HoleList(t', head, path', low) && Pool(t', slotFree, slots, path')
            && SegsOf(t', path') == Carve(SegsOf(t, path), k, size, A.STAT_BUSY)
  {
    assert ([s] + slots)[0] == s && s in [s] + slots && path[k] in path;
    InsertedDistinct(path, k + 1, s, path');
    InsertedDistinct(slots, 0, s, [s] + slots);
    SplitElsewhere(t, path[k], s, size, slotFree, slots);
    SplitKeeps(t, head, path, low, k, s, size, path');
  }

  lemma SplitElsewhere(t: Table, i: int, s: int, size: nat, slotFree: int, slots: seq<int>)
    requires Chain(NextOf(t), slotFree, slots) && 0 <= i < |t| && 0 <= s < |t| && size <= t[i].size
    requires i !in slots && s !in slots
    ensures Chain(NextOf(SplitTable(t, i, s, size)), slotFree, slots)
  {
    SlotsFrame(t, SplitTable(t, i, s, size), slotFree, slots);
  }

  /** Absorbing the hole behind `i` and putting its descriptor on the free list. */
  ghost function MergeTable(t: Table, i: int, n: int, slotFree: int): Table
    requires 0 <= i < |t| && 0 <= n < |t|
  {
    var u := AbsorbTable(t, i, n);
    u[n := u[n].(next := slotFree)]
  }

  lemma MergeKeeps(t: Table, head: int, path: seq<int>, slotFree: int, slots: seq<int>, low: nat, k: nat, path': seq<int>)
    requires LooseList(t, head, path, low) && Pool(t, slotFree, slots, path) && k + 1 < |path|
    requires !t[path[k]].busy && !t[path[k + 1]].busy && Inserted(path', k + 1, path[k + 1], path)
    ensures path[k] != path[k + 1]
    ensures var t' := MergeTable(t, path[k], path[k + 1], slotFree);
            && LooseList(t', head, path', low) && Pool(t', path[k + 1], [path[k + 1]] + slots, path')
            && Inside(t, path) && SegsOf(t', path') == Join(SegsOf(t, path), k)
  {
    var i, n := path[k], path[k + 1];
    assert i in path && n in path;
    DistinctOthers(path, k);
    InsertedDistinct(path', k + 1, n, path);
    InsertedDistinct(slots, 0, n, [n] + slots);
    AbsorbKeeps(t, head, path, low, k, path');
    var u, t' := AbsorbTable(t, i, n), MergeTable(t, i, n, slotFree);
    SlotsFrame(t, u, slotFree, slots);
    ChainPush(NextOf(u), slotFree, slots, n);
    assert NextOf(t') == NextOf(u)[n := slotFree];
    PathFrame(u, t', head, path', low);
  }

  /** The list does not notice a change of a descriptor it does not contain. */
  lemma PathFrame(t: Table, t': Table, head: int, path: seq<int>, low: nat)
    requires LooseList(t, head, path, low) && |t'| == |t|
    requires forall j :: 0 <= j < |path| ==> t'[path[j]] == t[path[j]]
    ensures LooseList(t', head, path, low) && SegsOf(t', path) == SegsOf(t, path)
  {
    ChainFrame(NextOf(t), NextOf(t'), head, path);
    forall j | 0 <= j < |path| - 1
      ensures t'[path[j + 1]].base == t'[path[j]].base + t'[path[j]].size
    {
      assert t[path[j]].size == t'[path[j]].size;
    }
  }

  class HoleAllocator {
    const tab: array<Hole>
    var head: int
    var slotFree: int
    var irqOn: bool
    ghost var path: seq<int>
    ghost var slots: seq<int>
    ghost const low: nat

    /** Every descriptor is on exactly one of two acyclic lists, and the holes are canonical. */
    ghost predicate Valid()
      reads this, tab
    {
      HoleList(tab[..], head, path, low) && Pool(tab[..], slotFree, slots, path)
    }

    ghost function Abs(): A.Arena
      requires Valid()
      reads this, tab
    {
      A.Arena(low, SegsOf(tab[..], path), |slots|)
    }

    /** `init_slot`: every descriptor linked to the next one. */
    method InitSlot()
      requires tab.Length > 0
      modifies this`slotFree, tab
      ensures slotFree == 0
      ensures forall i :: 0 <= i < tab.Length ==> tab[i].next == if i + 1 < tab.Length then i + 1 else NIL
    {
      var hp := 0;
      while hp < tab.Length
        invariant 0 <= hp <= tab.Length
        invariant forall i :: 0 <= i < hp ==> tab[i].next == i + 1
      {
        tab[hp] := tab[hp].(next := hp + 1);
        hp := hp + 1;
      }
      slotFree := 0;
      tab[tab.Length - 1] := tab[tab.Length - 1].(next := NIL);
    }

    /**
     The hole part of `mem_init`: one free hole from `memory_start` on. Its size is one more than the memory
     there is, so the managed range ends one byte behind it.
     */
    constructor (descriptors: nat, start: nat, end: nat)
      requires descriptors > 0 && 0 < start <= end < 0x1_0000_0000
      ensures Valid() && irqOn && fresh(tab)
      ensures Abs() == A.Initial(descriptors, start, end)
    {
      tab := new Hole[descriptors](_ => Hole(0, 0, false, NIL));
      irqOn, low := true, start;
      new;
      InitSlot();
      head := slotFree;
      slotFree := tab[slotFree].next;
      tab[head] := Hole(start, end - start + 1, false, NIL);
      path := [0];
      slots := seq(tab.Length - 1, i => i + 1);
      assert SegsOf(tab[..], path) == [Free(end - start + 1)];
      assert Total([Free(end - start + 1)]) == end - start + 1;
    }

    /** The search of lines 77-101: the first free hole that is large enough. */
    method Search(size: nat) returns (i: int, ghost k: nat)
      requires Valid()
      ensures k == A.FirstFit(Abs().segs, size)
      ensures i == if k < |path| then path[k] else NIL
    {
      i, k := head, 0;
      ghost var segs := SegsOf(tab[..], path);
      while i != NIL
        invariant k <= |path| && i == (if k < |path| then path[k] else NIL)
        invariant forall j :: 0 <= j < k ==> !A.Fits(segs[j], size)
        decreases |path| - k
      {
        assert SegOf(tab[..][path[k]]) == segs[k];
        if !tab[i].busy && tab[i].size >= size {
          break;
        }
        assert NextOf(tab[..])[path[k]] == tab[i].next;
        i := tab[i].next;
        k := k + 1;
      }
      FirstFitIs(segs, size, k);
    }

    method AllocSlot() returns (r: int)
      requires Valid()
      modifies this`slotFree, this`slots
      ensures Chain(NextOf(tab[..]), slotFree, slots)
      ensures old(slots) == [] ==> r == NIL && slots == []
      ensures old(slots) != [] ==> r == old(slots)[0] && slots == old(slots)[1..]
    {
      r := NIL;
      if slotFree != NIL {
        ChainPop(NextOf(tab[..]), slotFree, slots);
        r := slotFree;
        slotFree := tab[r].next;
        slots := slots[1..];
      }
    }

    /** `Kmem_alloc`; 0 is NULL. Running out of descriptors returns with interrupts left off. */
    method KmemAlloc(size: nat) returns (p: nat)
      requires Valid()
      modifies this`slotFree, this`irqOn, this`path, this`slots, tab
      ensures Valid()
      ensures Abs() == A.Alloc(old(Abs()), size).0
      ensures p == match A.Alloc(old(Abs()), size).1 { case None => 0 case Some(v) => v }
      ensures irqOn == (old(irqOn) && !A.OutOfSlots(old(Abs()), size))
    {
      if size == 0 { return 0; }
      var flags := irqOn;
      irqOn := false;
      var i, k := Search(size);
      ghost var a, r := Abs(), A.Alloc(Abs(), size);
      A.AllocCases(a, size);
      if i == NIL {
        irqOn := flags;
        return 0;
      }
      TiledStart(tab[..], path, low, k);
      assert a.segs[k] == SegOf(tab[i]);
      var base := tab[i].base;
      assert low <= base;
      var ok := Take(i, k, size);
      if !ok {
        assert Abs() == r.0;
        return 0;
      }
      assert Abs() == r.0;
      irqOn := flags;
      return base;
    }

    /** Lines 81-99 for the hole found: split it, or hand it out whole. */
    method Take(i: int, ghost k: nat, size: nat) returns (ok: bool)
      requires Valid() && k < |path| && path[k] == i && !tab[i].busy && 0 < size <= tab[i].size
      modifies this`slotFree, this`path, this`slots, tab
      ensures Valid()
      ensures ok <==> tab.Length > old(|path|) || old(tab[i].size) == size
      ensures ok ==> SegsOf(tab[..], path) == Carve(old(SegsOf(tab[..], path)), k, size, A.STAT_BUSY)
      ensures ok ==> |slots| == old(|slots|) - if old(tab[i].size) > size then 1 else 0
      ensures !ok ==> path == old(path) && slots == old(slots) && tab[..] == old(tab[..])
    {
      if tab[i].size > size {
        var t := AllocSlot();
        if t == NIL { return false; }
        assert [t] + slots == old(slots);
        TakeLow(i, k, size, t);
      } else {
        TakeWhole(i, k);
      }
      return true;
    }

    method TakeLow(i: int, ghost k: nat, size: nat, t: int)
      requires HoleList(tab[..], head, path, low) && Pool(tab[..], t, [t] + slots, path)
      requires Chain(NextOf(tab[..]), slotFree, slots)
      requires k < |path| && path[k] == i && !tab[i].busy && 0 < size < tab[i].size
      modifies this`path, tab
      ensures Valid()
      ensures SegsOf(tab[..], path) == Carve(old(SegsOf(tab[..], path)), k, size, A.STAT_BUSY)
    {
      ghost var path' := With(path, k + 1, t);
      TakeLowKeeps(tab[..], head, path, slotFree, slots, low, k, t, size, path');
      WriteSplit(i, size, t);
      path := path';
    }

    method TakeWhole(i: int, ghost k: nat)
      requires Valid() && k < |path| && path[k] == i && !tab[i].busy
      modifies tab
      ensures Valid()
      ensures SegsOf(tab[..], path) == Carve(old(SegsOf(tab[..], path)), k, old(tab[i].size), A.STAT_BUSY)
    {
      ghost var was := tab[..];
      MarkKeeps(was, head, path, low, k);
      tab[i] := tab[i].(busy := true);
      assert tab[..] == was[i := was[i].(busy := true)];
      SlotsFrame(was, tab[..], slotFree, slots);
    }

    method WriteSplit(i: int, size: nat, t: int)
      requires 0 <= i < tab.Length && 0 <= t < tab.Length && i != t && size <= tab[i].size
      modifies tab
      ensures tab[..] == SplitTable(old(tab[..]), i, t, size)
    {
      tab[t] := tab[t].(next := tab[i].next);
      tab[t] := tab[t].(base := tab[i].base + size);
      tab[t] := tab[t].(size := tab[i].size - size);
      tab[t] := tab[t].(busy := false);
      tab[i] := tab[i].(next := t);
      tab[i] := tab[i].(size := size);
      tab[i] := tab[i].(busy := true);
    }

    /** The search of lines 112-139; `pre` trails one hole behind. */
    method FindBlock(addr: nat) returns (i: int, pre: int, ghost k: nat)
      requires Valid()
      ensures k == A.FindBusy(Abs().segs, low, addr)
      ensures i == if k < |path| then path[k] else NIL
      ensures k < |path| ==> pre == path[if k == 0 then 0 else k - 1]
    {
      i, k := head, 0;
      pre := i;
      ghost var segs := SegsOf(tab[..], path);
      while i != NIL
        invariant k <= |path| && i == (if k < |path| then path[k] else NIL)
        invariant pre == path[if k == 0 then 0 else k - 1]
        invariant forall j :: 0 <= j < k && segs[j].Busy? ==> Start(segs, low, j) != addr
        decreases |path| - k
      {
        TiledStart(tab[..], path, low, k);
        assert segs[k] == SegOf(tab[i]);
        if tab[i].base == addr && tab[i].busy {
          break;
        }
        pre := i;
        assert NextOf(tab[..])[path[k]] == tab[i].next;
        i := tab[i].next;
        k := k + 1;
      }
      FindBusyUnique(segs, low, addr, k);
    }

    /** `free_slot`. */
    method FreeSlot(h: int)
      requires 0 <= h < tab.Length
      modifies this`slotFree, this`slots, tab
      ensures tab[..] == old(tab[..])[h := old(tab[h]).(next := old(slotFree))]
      ensures slotFree == h && slots == [h] + old(slots)
    {
      tab[h] := tab[h].(next := slotFree);
      slotFree := h;
      slots := [h] + slots;
    }

    /** Lines 122-125 and 130-133. */
    method WriteMerge(i: int, t: int)
      requires 0 <= i < tab.Length && 0 <= t < tab.Length && i != t
      modifies this`slotFree, this`slots, tab
      ensures tab[..] == MergeTable(old(tab[..]), i, t, old(slotFree))
      ensures slotFree == t && slots == [t] + old(slots)
    {
      tab[i] := tab[i].(size := tab[i].size + tab[t].size);
      tab[i] := tab[i].(next := tab[t].next);
      FreeSlot(t);
    }

    /** Hole `i` absorbs the one behind it when both are free. */
    method MergeBehind(i: int, ghost k: nat)
      requires LooseList(tab[..], head, path, low) && Pool(tab[..], slotFree, slots, path)
      requires k < |path| && path[k] == i
      modifies this`slotFree, this`slots, this`path, tab
      ensures LooseList(tab[..], head, path, low) && Pool(tab[..], slotFree, slots, path)
      ensures SegsOf(tab[..], path) == JoinIfFree(old(SegsOf(tab[..], path)), k)
      ensures k < |path| && forall j :: 0 <= j <= k ==> path[j] == old(path)[j]
    {
      assert NextOf(tab[..])[path[k]] == tab[i].next;
      var t := tab[i].next;
      if t != NIL && !tab[i].busy && !tab[t].busy {
        ghost var path' := Without(path, k + 1);
        Absorb(i, t, k, path');
      }
    }

    method Absorb(i: int, t: int, ghost k: nat, ghost path': seq<int>)
      requires LooseList(tab[..], head, path, low) && Pool(tab[..], slotFree, slots, path)
      requires k + 1 < |path| && path[k] == i && path[k + 1] == t && !tab[i].busy && !tab[t].busy
      requires Inserted(path', k + 1, t, path)
      modifies this`slotFree, this`slots, this`path, tab
      ensures LooseList(tab[..], head, path, low) && Pool(tab[..], slotFree, slots, path)
      ensures SegsOf(tab[..], path) == Join(old(SegsOf(tab[..], path)), k) && path == path'
    {
      MergeKeeps(tab[..], head, path, slotFree, slots, low, k, path');
      WriteMerge(i, t);
      path := path';
    }

    method Unmark(i: int, ghost k: nat)
      requires Valid() && k < |path| && path[k] == i
      modifies tab
      ensures LooseList(tab[..], head, path, low) && Pool(tab[..], slotFree, slots, path)
      ensures SegsOf(tab[..], path) == old(SegsOf(tab[..], path))[k := Free(old(tab[i].size))]
    {
      ghost var was := tab[..];
      UnmarkKeeps(was, head, path, low, k);
      tab[i] := tab[i].(busy := false);
      assert tab[..] == was[i := was[i].(busy := false)];
      SlotsFrame(was, tab[..], slotFree, slots);
    }

    /** Lines 116-135 for the hole found: release it and merge on both sides. */
    method ReleaseHole(i: int, pre: int, ghost k: nat)
      requires Valid() && k < |path| && path[k] == i && tab[i].busy
      requires pre == path[if k == 0 then 0 else k - 1]
      modifies this`slotFree, this`slots, this`path, tab
      ensures LooseList(tab[..], head, path, low) && Pool(tab[..], slotFree, slots, path)
      ensures SegsOf(tab[..], path) == Release(old(SegsOf(tab[..], path)), k)
      ensures path != []
    {
      JoinsAreRelease(SegsOf(tab[..], path), k);
      DistinctOthers(path, k);
      Unmark(i, k);
      MergeBehind(i, k);
      if pre != i {
        MergeBehind(pre, k - 1);
      }
    }

    method FreeHole(i: int, pre: int, ghost k: nat, ghost addr: nat)
      requires Valid() && k < |path| && path[k] == i && tab[i].busy
      requires pre == path[if k == 0 then 0 else k - 1] && k == A.FindBusy(Abs().segs, low, addr)
      modifies this`slotFree, this`slots, this`path, tab
      ensures Valid() && Abs() == A.Free(old(Abs()), addr)
    {
      ghost var a' := A.Free(Abs(), addr);
      A.FreeCases(Abs(), addr);
      ReleaseHole(i, pre, k);
      Relist(tab[..], head, path, low, a'.segs);
    }

    /** `Kmem_free`; an address that starts no busy hole is ignored. */
    method KmemFree(addr: nat)
      requires Valid()
      modifies this`slotFree, this`irqOn, this`path, this`slots, tab
      ensures Valid()
      ensures Abs() == A.Free(old(Abs()), addr)
      ensures irqOn == old(irqOn)
    {
      var flags := irqOn;
      irqOn := false;
      var i, pre, k := FindBlock(addr);
      if i != NIL {
        A.FindBusyIs(Abs().segs, low, addr);
        assert Abs().segs[k] == SegOf(tab[i]);
        FreeHole(i, pre, k, addr);
      }
      irqOn := flags;
    }
  }
}
