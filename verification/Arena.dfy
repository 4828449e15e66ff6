/**
 What `Kmem_alloc` and `Kmem_free` compute, on values: a base address, the run list from that address
 on, and the number of unused hole descriptors.
 */
module Arena {
  import opened Options
  import opened Segments

  datatype Arena = Arena(base: nat, segs: seq<Seg>, spare: nat)

  /** The tag of a busy hole (`STAT_BUSY`). */
  const STAT_BUSY: nat := 1

  function LiveOf(a: Arena): set<Block> {
    Live(a.segs, a.base)
  }

  predicate Fits(g: Seg, n: nat) {
    g.Free? && g.len >= n
  }

  /** Index of the lowest free stretch holding `n` units, or `|s|`. */
  function FirstFit(s: seq<Seg>, n: nat): (k: nat)
    ensures k <= |s|
    ensures k < |s| ==> Fits(s[k], n)
    ensures forall i :: 0 <= i < k ==> !Fits(s[i], n)
  {
    if s == [] || Fits(s[0], n) then 0 else
      var k := FirstFit(s[1..], n);
      assert forall i :: 1 <= i < k + 1 ==> s[i] == s[1..][i - 1];
      k + 1
  }

  /** Splitting is needed but every descriptor is taken. */
  predicate OutOfSlots(a: Arena, n: nat) {
    var k := FirstFit(a.segs, n);
    n > 0 && a.spare == 0 && k < |a.segs| && a.segs[k].len > n
  }

  function Alloc(a: Arena, n: nat): (Arena, Option<nat>) {
    var k := FirstFit(a.segs, n);
    if n == 0 || k == |a.segs| || OutOfSlots(a, n) then (a, None)
    else
      var used := if a.segs[k].len > n then 1 else 0;
      (Arena(a.base, Carve(a.segs, k, n, STAT_BUSY), a.spare - used), Some(Start(a.segs, a.base, k)))
  }

  /** Index of the busy stretch that starts at `addr`, or `|s|`. */
  function FindBusy(s: seq<Seg>, base: nat, addr: nat): (k: nat)
    ensures k <= |s|
  {
    if s == [] || (s[0].Busy? && base == addr) then 0
    else 1 + FindBusy(s[1..], base + s[0].len, addr)
  }

  function Free(a: Arena, addr: nat): Arena {
    var k := FindBusy(a.segs, a.base, addr);
    if k == |a.segs| then a
    else Arena(a.base, Release(a.segs, k), a.spare + MergeHi(a.segs, k) - MergeLo(a.segs, k) - 1)
  }

  lemma {:induction false} FindBusyIs(s: seq<Seg>, base: nat, addr: nat)
    ensures var k := FindBusy(s, base, addr);
            && (k < |s| ==> s[k].Busy? && Start(s, base, k) == addr)
            && (forall i :: 0 <= i < k && s[i].Busy? ==> Start(s, base, i) != addr)
  {
    if s != [] && !(s[0].Busy? && base == addr) {
      FindBusyIs(s[1..], base + s[0].len, addr);
      forall i | 1 <= i <= |s|
        ensures Start(s, base, i) == Start(s[1..], base + s[0].len, i - 1)
      {
        assert s[..i][1..] == s[1..][..i - 1];
      }
      forall i | 0 <= i < FindBusy(s, base, addr) && s[i].Busy?
        ensures Start(s, base, i) != addr
      {
        if i > 0 {
          assert s[i] == s[1..][i - 1];
        }
      }
    }
  }

  // ---------- one call ----------

  /** `Alloc`, case by case. */
  lemma AllocCases(a: Arena, n: nat)
    ensures var k := FirstFit(a.segs, n);
            && (n == 0 || k == |a.segs| || OutOfSlots(a, n) ==> Alloc(a, n) == (a, None))
            && (n > 0 && k < |a.segs| && !OutOfSlots(a, n) ==>
                  && Alloc(a, n).0.base == a.base && Alloc(a, n).0.segs == Carve(a.segs, k, n, STAT_BUSY)
                  && Alloc(a, n).0.spare == a.spare - (if a.segs[k].len > n then 1 else 0)
                  && Alloc(a, n).1 == Some(Start(a.segs, a.base, k)))
  {
  }

  /** `Free` of an address that starts a live block. */
  lemma FreeCases(a: Arena, addr: nat)
    requires Canonical(a.segs) && FindBusy(a.segs, a.base, addr) < |a.segs|
    ensures var k := FindBusy(a.segs, a.base, addr);
            && a.segs[k].Busy? && Start(a.segs, a.base, k) == addr
            && Free(a, addr).segs == Release(a.segs, k) && Canonical(Release(a.segs, k))
            && Total(Release(a.segs, k)) == Total(a.segs)
            && |Free(a, addr).segs| + Free(a, addr).spare == |a.segs| + a.spare
  {
    var k := FindBusy(a.segs, a.base, addr);
    FindBusyIs(a.segs, a.base, addr);
    ReleaseCanonical(a.segs, k);
    ReleaseLive(a.segs, a.base, k);
  }

  /** A successful request gets the lowest free stretch that is large enough, and nobody else's bytes. */
  lemma AllocGrants(a: Arena, n: nat)
    requires Canonical(a.segs) && Alloc(a, n).1.Some?
    ensures var a' := Alloc(a, n).0; var p := Alloc(a, n).1.value;
            && Canonical(a'.segs) && a'.base == a.base
            && Total(a'.segs) == Total(a.segs) && |a'.segs| + a'.spare == |a.segs| + a.spare
            && LiveOf(a') == LiveOf(a) + {Block(p, n, STAT_BUSY)}
            && a.base <= p && p + n <= a.base + Total(a.segs)
            && (forall b :: b in LiveOf(a) ==> b.off + b.len <= p || p + n <= b.off)
            && (forall i :: 0 <= i < |a.segs| && Fits(a.segs[i], n) ==> p <= Start(a.segs, a.base, i))
  {
    var k := FirstFit(a.segs, n);
    CarveLive(a.segs, a.base, k, n, STAT_BUSY);
    CarveCanonical(a.segs, k, n, STAT_BUSY);
    LiveSplit(a.segs, a.base, k, k + 1);
    assert a.segs[k..k + 1][0] == a.segs[k];
    forall i | 0 <= i < |a.segs| && Fits(a.segs[i], n)
      ensures Start(a.segs, a.base, k) <= Start(a.segs, a.base, i)
    {
      StartMonotone(a.segs, a.base, k, i);
    }
  }

  /** The ways to be refused, the arena being then untouched: nothing asked, no room, or no descriptor for a split. */
  lemma AllocRefuses(a: Arena, n: nat)
    ensures Alloc(a, n).1.None? <==>
              || n == 0
              || (forall i :: 0 <= i < |a.segs| && a.segs[i].Free? ==> a.segs[i].len < n)
              || (a.spare == 0 && exists i :: LowestRoom(a.segs, i, n) && a.segs[i].len > n)
    ensures Alloc(a, n).1.None? ==> Alloc(a, n).0 == a
  {
    var k := FirstFit(a.segs, n);
    if k < |a.segs| {
      assert LowestRoom(a.segs, k, n);
      assert forall i :: LowestRoom(a.segs, i, n) ==> i == k;
    }
  }

  /** The first free stretch with room for `n`. */
  predicate LowestRoom(s: seq<Seg>, i: int, n: nat) {
    0 <= i < |s| && s[i].Free? && s[i].len >= n && forall j :: 0 <= j < i && s[j].Free? ==> s[j].len < n
  }

  /** Running out of descriptors takes at least half as many live blocks as there are descriptors. */
  lemma OutOfSlotsNeedsBlocks(a: Arena, n: nat, descriptors: nat)
    requires Canonical(a.segs) && |a.segs| + a.spare == descriptors && OutOfSlots(a, n)
    ensures |LiveOf(a)| >= descriptors / 2
  {
    BusyCountIsLive(a.segs, a.base);
    AlternationBound(a.segs);
  }

  lemma FirstFitOfRest(busy: seq<Seg>, rest: nat, n: nat)
    requires forall i :: 0 <= i < |busy| ==> busy[i].Busy?
    ensures FirstFit(busy + [Seg.Free(rest)], n) == if n <= rest then |busy| else |busy| + 1
  {
    var s := busy + [Seg.Free(rest)];
    assert forall i :: 0 <= i < |busy| ==> s[i] == busy[i];
    assert s[|busy|] == Seg.Free(rest);
  }

  lemma CarveRest(busy: seq<Seg>, rest: nat, n: nat)
    requires n < rest
    ensures Carve(busy + [Seg.Free(rest)], |busy|, n, STAT_BUSY) == busy + [Busy(n, STAT_BUSY)] + [Seg.Free(rest - n)]
  {
    var s := busy + [Seg.Free(rest)];
    assert s[..|busy|] == busy && s[|busy| + 1..] == [];
  }

  /** Only the last stretch is free. */
  predicate OnlyRest(a: Arena, busy: seq<Seg>, rest: nat) {
    a.segs == busy + [Seg.Free(rest)] && forall i :: 0 <= i < |busy| ==> busy[i].Busy?
  }

  lemma RestTooSmall(a: Arena, busy: seq<Seg>, rest: nat, n: nat)
    requires OnlyRest(a, busy, rest) && rest < n
    ensures Alloc(a, n).0 == a && Alloc(a, n).1 == None
  {
    FirstFitOfRest(busy, rest, n);
  }

  lemma RestTaken(a: Arena, busy: seq<Seg>, rest: nat)
    requires OnlyRest(a, busy, rest) && rest > 0
    ensures TakesLastWhole(a, rest) && Alloc(a, rest).1 == Some(a.base + Total(busy))
  {
    FirstFitOfRest(busy, rest, rest);
    assert a.segs[|busy|] == Seg.Free(rest);
    assert a.segs[..|busy|] == busy;
    AllocCases(a, rest);
  }

  lemma RestCut(a: Arena, busy: seq<Seg>, rest: nat, n: nat)
    requires OnlyRest(a, busy, rest) && 0 < n < rest && a.spare > 0
    ensures !TakesLastWhole(a, n) && Alloc(a, n).1 == Some(a.base + Total(busy))
    ensures Alloc(a, n).0 == Arena(a.base, busy + [Busy(n, STAT_BUSY)] + [Seg.Free(rest - n)], a.spare - 1)
    ensures OnlyRest(Alloc(a, n).0, busy + [Busy(n, STAT_BUSY)], rest - n)
  {
    FirstFitOfRest(busy, rest, n);
    assert a.segs[|busy|] == Seg.Free(rest);
    assert a.segs[..|busy|] == busy;
    AllocCases(a, n);
    CarveRest(busy, rest, n);
  }

  // ---------- the byte behind the memory ----------

  /** The arena of `mem_init` over the memory `[start, end)`: its hole is one byte larger. */
  function Initial(descriptors: nat, start: nat, end: nat): Arena
    requires descriptors > 0 && start <= end
  {
    Arena(start, [Seg.Free(end - start + 1)], descriptors - 1)
  }

  /** The request takes the last hole whole. */
  predicate TakesLastWhole(a: Arena, n: nat) {
    var k := FirstFit(a.segs, n);
    k + 1 == |a.segs| && a.segs[k].len == n
  }

  /** In a range that ends one byte behind the memory, a granted block lies in memory iff it is not the last hole whole. */
  lemma GrantInMemoryIff(a: Arena, n: nat, end: nat)
    requires Canonical(a.segs) && a.base + Total(a.segs) == end + 1 && Alloc(a, n).1.Some?
    ensures Alloc(a, n).1.value + n <= end <==> !TakesLastWhole(a, n)
  {
    var k := FirstFit(a.segs, n);
    LiveSplit(a.segs, a.base, k, k + 1);
    assert a.segs[k..k + 1] == [a.segs[k]];
    assert Total(a.segs[k..k + 1]) == a.segs[k].len;
    if k + 1 < |a.segs| {
      assert a.segs[k + 1..][0] == a.segs[k + 1];
    }
  }

  /** The failing request: all of the initial range; the block ends at `end + 1`. */
  lemma WholeRangeExample(descriptors: nat, start: nat, end: nat)
    requires descriptors > 0 && start <= end
    ensures var n := end - start + 1; Alloc(Initial(descriptors, start, end), n).1 == Some(start) && start + n == end + 1
  {
    var s := [Seg.Free(end - start + 1)];
    assert Fits(s[0], end - start + 1) && s[..0] == [];
  }

  /** Freeing an address removes exactly the live block that starts there, if any. */
  lemma FreeRemoves(a: Arena, addr: nat)
    requires Canonical(a.segs)
    ensures var a' := Free(a, addr);
            && Canonical(a'.segs) && a'.base == a.base
            && Total(a'.segs) == Total(a.segs) && |a'.segs| + a'.spare == |a.segs| + a.spare
            && LiveOf(a') == set b | b in LiveOf(a) && b.off != addr
  {
    var k := FindBusy(a.segs, a.base, addr);
    FindBusyIs(a.segs, a.base, addr);
    if k < |a.segs| {
      ReleaseLive(a.segs, a.base, k);
      ReleaseCanonical(a.segs, k);
      var c := BlockAt(a.segs, a.base, k);
      BlockAtIsLive(a.segs, a.base, k);
      forall b | b in LiveOf(a) && b.off == addr
        ensures b == c
      {
        if b != c {
          LiveBounds(a.segs, a.base, b);
          LiveBounds(a.segs, a.base, c);
          LiveDisjoint(a.segs, a.base, b, c);
          assert false;
        }
      }
    } else {
      forall b | b in LiveOf(a)
        ensures b.off != addr
      {
        var i := LiveIndex(a.segs, a.base, b);
      }
    }
  }

  // ---------- whole runs ----------

  datatype Op = AllocOp(n: nat) | FreeOp(addr: nat)

  function Apply(a: Arena, op: Op): Arena {
    match op
    case AllocOp(n) => Alloc(a, n).0
    case FreeOp(addr) => Free(a, addr)
  }

  function Run(a: Arena, ops: seq<Op>): Arena
    decreases |ops|
  {
    if ops == [] then a else Run(Apply(a, ops[0]), ops[1..])
  }

  /** What no run of requests and releases, valid or not, can change. */
  predicate SameManagedRange(a: Arena, a': Arena) {
    && a'.base == a.base
    && Total(a'.segs) == Total(a.segs)
    && |a'.segs| + a'.spare == |a.segs| + a.spare
  }

  lemma {:induction false} RunCanonical(a: Arena, ops: seq<Op>)
    requires Canonical(a.segs)
    ensures Canonical(Run(a, ops).segs) && SameManagedRange(a, Run(a, ops))
    decreases |ops|
  {
    if ops != [] {
      match ops[0] {
        case AllocOp(n) =>
          if Alloc(a, n).1.Some? {
            AllocGrants(a, n);
          }
        case FreeOp(addr) => FreeRemoves(a, addr);
      }
      RunCanonical(Apply(a, ops[0]), ops[1..]);
    }
  }

  /** Two arenas over one range with the same live blocks are equal, descriptors included. */
  lemma LiveDeterminesArena(a: Arena, b: Arena)
    requires Canonical(a.segs) && Canonical(b.segs) && SameManagedRange(a, b)
    requires LiveOf(a) == LiveOf(b)
    ensures a == b
  {
    CanonicalUnique(a.segs, b.segs, a.base);
  }

  /** The state after a run depends on which blocks are live, never on the history. */
  lemma HistoryIndependent(a: Arena, ops: seq<Op>, ops': seq<Op>)
    requires Canonical(a.segs) && LiveOf(Run(a, ops)) == LiveOf(Run(a, ops'))
    ensures Run(a, ops) == Run(a, ops')
  {
    RunCanonical(a, ops);
    RunCanonical(a, ops');
    LiveDeterminesArena(Run(a, ops), Run(a, ops'));
  }

  /** Releasing what was just granted restores the arena exactly. */
  lemma FreeUndoesAlloc(a: Arena, n: nat)
    requires Canonical(a.segs) && Alloc(a, n).1.Some?
    ensures Free(Alloc(a, n).0, Alloc(a, n).1.value) == a
  {
    var (a', r) := Alloc(a, n);
    AllocGrants(a, n);
    FreeRemoves(a', r.value);
    forall b | b in LiveOf(a)
      ensures b.off != r.value
    {
      LiveBounds(a.segs, a.base, b);
    }
    LiveDeterminesArena(a, Free(a', r.value));
  }

  lemma FreesCommute(a: Arena, p: nat, q: nat)
    requires Canonical(a.segs)
    ensures Free(Free(a, p), q) == Free(Free(a, q), p)
  {
    FreeRemoves(a, p);
    FreeRemoves(a, q);
    FreeRemoves(Free(a, p), q);
    FreeRemoves(Free(a, q), p);
    LiveDeterminesArena(Free(Free(a, p), q), Free(Free(a, q), p));
  }

  function FreeAll(a: Arena, addrs: seq<nat>): Arena
    decreases |addrs|
  {
    if addrs == [] then a else FreeAll(Free(a, addrs[0]), addrs[1..])
  }

  lemma {:induction false} FreeAllRemoves(a: Arena, addrs: seq<nat>)
    requires Canonical(a.segs)
    ensures var a' := FreeAll(a, addrs);
            && Canonical(a'.segs) && SameManagedRange(a, a')
            && LiveOf(a') == set b | b in LiveOf(a) && b.off !in addrs
    decreases |addrs|
  {
    if addrs != [] {
      FreeRemoves(a, addrs[0]);
      FreeAllRemoves(Free(a, addrs[0]), addrs[1..]);
      assert forall x :: x in addrs <==> x == addrs[0] || x in addrs[1..];
    }
  }

  /** After any run, releasing every live block, in any order, leaves one hole over the whole range. */
  lemma FullRecovery(a: Arena, ops: seq<Op>, addrs: seq<nat>)
    requires Canonical(a.segs) && Total(a.segs) > 0
    requires forall b :: b in LiveOf(Run(a, ops)) ==> b.off in addrs
    ensures FreeAll(Run(a, ops), addrs)
            == Arena(a.base, [Seg.Free(Total(a.segs))], |a.segs| + a.spare - 1)
  {
    RunCanonical(a, ops);
    FreeAllRemoves(Run(a, ops), addrs);
    var a' := FreeAll(Run(a, ops), addrs);
    assert LiveOf(a') == {};
    NoLive(a'.segs, a'.base);
  }
}
