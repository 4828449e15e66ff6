/**
 The run lists behind both memory allocators.

 The hole list of `Kmem_alloc` and the page table of `kmalloc` describe the same thing: a range cut
 into consecutive free and busy stretches. This module defines carving a block out of a free stretch
 and releasing it with merging on both sides, and proves that a merged ("canonical") list is fixed by
 its live blocks alone. Exact undo, commuting releases and full recovery all follow from that.
 */
module Segments {
  import opened Sequences

  /** A stretch of the managed range; `tag` is what the allocator recorded for a live block. */
  datatype Seg = Free(len: nat) | Busy(len: nat, tag: nat)

  /** A live block, by position. */
  datatype Block = Block(off: nat, len: nat, tag: nat)

  function Total(s: seq<Seg>): nat {
    if s == [] then 0 else s[0].len + Total(s[1..])
  }

  /** The live blocks of a list whose first stretch starts at `base`. */
  function Live(s: seq<Seg>, base: nat): set<Block> {
    if s == [] then {} else
      (if s[0].Busy? then {Block(base, s[0].len, s[0].tag)} else {}) + Live(s[1..], base + s[0].len)
  }

  /** Every stretch is positive and no two free stretches touch. */
  predicate Canonical(s: seq<Seg>) {
    && (forall i :: 0 <= i < |s| ==> s[i].len > 0)
    && (forall i :: 0 <= i < |s| - 1 ==> s[i].Busy? || s[i + 1].Busy?)
  }

  /** Where stretch `k` starts. */
  function Start(s: seq<Seg>, base: nat, k: nat): nat
    requires k <= |s|
  {
    base + Total(s[..k])
  }

  function BlockAt(s: seq<Seg>, base: nat, k: nat): Block
    requires k < |s| && s[k].Busy?
  {
    Block(Start(s, base, k), s[k].len, s[k].tag)
  }

  /** The stretches `[lo, hi)` that a release of `k` turns into one free stretch. */
  function MergeLo(s: seq<Seg>, k: nat): nat
    requires k < |s|
  {
    if k > 0 && s[k - 1].Free? then k - 1 else k
  }

  function MergeHi(s: seq<Seg>, k: nat): nat
    requires k < |s|
  {
    if k + 1 < |s| && s[k + 1].Free? then k + 2 else k + 1
  }

  /** Block `k` becomes free and absorbs a free neighbour on either side. */
  function Release(s: seq<Seg>, k: nat): seq<Seg>
    requires k < |s|
  {
    var lo, hi := MergeLo(s, k), MergeHi(s, k);
    s[..lo] + [Free(Total(s[lo..hi]))] + s[hi..]
  }

  /** The low `n` units of free stretch `k` become a block tagged `tag`. */
  function Carve(s: seq<Seg>, k: nat, n: nat, tag: nat): seq<Seg>
    requires k < |s| && s[k].Free? && n <= s[k].len
  {
    s[..k] + [Busy(n, tag)] + (if n < s[k].len then [Free(s[k].len - n)] else []) + s[k + 1..]
  }

  // ---------- sums and live sets of concatenations ----------

  lemma {:induction false} TotalConcat(a: seq<Seg>, b: seq<Seg>)
    ensures Total(a + b) == Total(a) + Total(b)
  {
    if a == [] {
      assert a + b == b;
    } else {
      assert (a + b)[1..] == a[1..] + b;
      TotalConcat(a[1..], b);
    }
  }

  lemma {:induction false} LiveConcat(a: seq<Seg>, b: seq<Seg>, base: nat)
    ensures Live(a + b, base) == Live(a, base) + Live(b, base + Total(a))
  {
    if a == [] {
      assert a + b == b;
    } else {
      assert (a + b)[1..] == a[1..] + b;
      LiveConcat(a[1..], b, base + a[0].len);
    }
  }

  /** Live blocks lie inside the range and, with positive stretches, are positive themselves. */
  lemma {:induction false} LiveBounds(s: seq<Seg>, base: nat, b: Block)
    requires b in Live(s, base)
    ensures base <= b.off && b.off + b.len <= base + Total(s)
    ensures (forall i :: 0 <= i < |s| ==> s[i].len > 0) ==> b.len > 0
  {
    if b in Live(s[1..], base + s[0].len) {
      LiveBounds(s[1..], base + s[0].len, b);
    }
  }

  /** `s` cut around `[lo, hi)`. */
  lemma LiveSplit(s: seq<Seg>, base: nat, lo: nat, hi: nat)
    requires lo <= hi <= |s|
    ensures Total(s) == Total(s[..lo]) + Total(s[lo..hi]) + Total(s[hi..])
    ensures Live(s, base) == Live(s[..lo], base) + Live(s[lo..hi], Start(s, base, lo))
                             + Live(s[hi..], Start(s, base, lo) + Total(s[lo..hi]))
  {
    assert s == s[..lo] + (s[lo..hi] + s[hi..]);
    TotalConcat(s[..lo], s[lo..hi] + s[hi..]);
    TotalConcat(s[lo..hi], s[hi..]);
    LiveConcat(s[..lo], s[lo..hi] + s[hi..], base);
    LiveConcat(s[lo..hi], s[hi..], Start(s, base, lo));
  }

  /** Replacing the middle of a list by one of equal total length touches only the middle's blocks. */
  lemma LiveReplace(a: seq<Seg>, m: seq<Seg>, m': seq<Seg>, b: seq<Seg>, base: nat)
    requires Total(m) == Total(m')
    ensures Total(a + m' + b) == Total(a + m + b)
    ensures Live(a + m + b, base) == Live(a, base) + Live(m, base + Total(a)) + Live(b, base + Total(a) + Total(m))
    ensures Live(a + m' + b, base) == Live(a, base) + Live(m', base + Total(a)) + Live(b, base + Total(a) + Total(m))
  {
    var s, s' := a + m + b, a + m' + b;
    var i, j, j' := |a|, |a + m|, |a + m'|;
    assert s[..i] == a && s[i..j] == m && s[j..] == b;
    assert s'[..i] == a && s'[i..j'] == m' && s'[j'..] == b;
    LiveSplit(s, base, i, j);
    LiveSplit(s', base, i, j');
  }

  // ---------- the live blocks are pairwise disjoint ----------

  lemma {:induction false} LiveDisjoint(s: seq<Seg>, base: nat, b: Block, c: Block)
    requires b in Live(s, base) && c in Live(s, base) && b != c
    ensures b.off + b.len <= c.off || c.off + c.len <= b.off
  {
    var rest := Live(s[1..], base + s[0].len);
    if b in rest && c in rest {
      LiveDisjoint(s[1..], base + s[0].len, b, c);
    } else if b in rest {
      LiveBounds(s[1..], base + s[0].len, b);
    } else {
      LiveBounds(s[1..], base + s[0].len, c);
    }
  }

  lemma BlockAtIsLive(s: seq<Seg>, base: nat, k: nat)
    requires k < |s| && s[k].Busy?
    ensures BlockAt(s, base, k) in Live(s, base)
  {
    LiveSplit(s, base, k, k + 1);
    assert s[k..k + 1][0] == s[k];
  }

  /** A live block is some busy stretch of the list. */
  lemma {:induction false} LiveIndex(s: seq<Seg>, base: nat, b: Block) returns (k: nat)
    requires b in Live(s, base)
    ensures k < |s| && s[k].Busy? && BlockAt(s, base, k) == b
  {
    if s[0].Busy? && b == Block(base, s[0].len, s[0].tag) {
      k := 0;
    } else {
      k := LiveIndex(s[1..], base + s[0].len, b);
      assert s[..k + 1][1..] == s[1..][..k];
      k := k + 1;
    }
  }

  // ---------- what Release and Carve do to the live set ----------

  lemma ReleaseLive(s: seq<Seg>, base: nat, k: nat)
    requires Canonical(s) && k < |s| && s[k].Busy?
    ensures Live(Release(s, k), base) == Live(s, base) - {BlockAt(s, base, k)}
    ensures Total(Release(s, k)) == Total(s)
  {
    var lo, hi := MergeLo(s, k), MergeHi(s, k);
    var a, m, z := s[..lo], s[lo..hi], s[hi..];
    var at, b := Start(s, base, lo), BlockAt(s, base, k);
    CutThree(s, lo, hi);
    LiveReplace(a, m, [Free(Total(m))], z, base);
    assert Live([Free(Total(m))], at) == {};
    ReleasedMiddle(s, base, k);
    BlockOutside(s, base, k, lo, hi);
  }

  /** A block is live only where it stands. */
  lemma BlockOutside(s: seq<Seg>, base: nat, k: nat, lo: nat, hi: nat)
    requires Canonical(s) && lo <= k < hi <= |s| && s[k].Busy?
    ensures BlockAt(s, base, k) !in Live(s[..lo], base)
    ensures BlockAt(s, base, k) !in Live(s[hi..], Start(s, base, lo) + Total(s[lo..hi]))
  {
    var b := BlockAt(s, base, k);
    if b in Live(s[..lo], base) {
      LiveBounds(s[..lo], base, b);
      StartMonotone(s, base, lo, k);
      assert false;
    }
    assert s[..hi] == s[..lo] + s[lo..hi];
    TotalConcat(s[..lo], s[lo..hi]);
    if b in Live(s[hi..], Start(s, base, hi)) {
      LiveBounds(s[hi..], Start(s, base, hi), b);
      StartStep(s, base, k);
      StartMonotone(s, base, k + 1, hi);
      assert false;
    }
  }

  lemma StartStep(s: seq<Seg>, base: nat, k: nat)
    requires k < |s|
    ensures Start(s, base, k + 1) == Start(s, base, k) + s[k].len
  {
    assert s[..k + 1] == s[..k] + [s[k]];
    TotalConcat(s[..k], [s[k]]);
  }

  lemma StartMonotone(s: seq<Seg>, base: nat, j: nat, k: nat)
    requires j <= k <= |s|
    ensures Start(s, base, j) <= Start(s, base, k)
  {
    assert s[..k] == s[..j] + s[j..k];
    TotalConcat(s[..j], s[j..k]);
  }

  /** Among the merged stretches only block `k` is live. */
  lemma ReleasedMiddle(s: seq<Seg>, base: nat, k: nat)
    requires k < |s| && s[k].Busy?
    ensures Live(s[MergeLo(s, k)..MergeHi(s, k)], Start(s, base, MergeLo(s, k))) == {BlockAt(s, base, k)}
  {
    var lo, hi := MergeLo(s, k), MergeHi(s, k);
    var m := s[lo..hi];
    assert m == s[lo..k] + ([s[k]] + s[k + 1..hi]);
    LiveConcat(s[lo..k], [s[k]] + s[k + 1..hi], Start(s, base, lo));
    LiveConcat([s[k]], s[k + 1..hi], Start(s, base, k));
    assert s[..k] == s[..lo] + s[lo..k];
    TotalConcat(s[..lo], s[lo..k]);
    assert Live(s[lo..k], Start(s, base, lo)) == {};
    assert Live(s[k + 1..hi], Start(s, base, k) + s[k].len) == {};
  }

  /** The length of the merged stretch, and where block `k` stands in it. */
  lemma MiddleTotal(s: seq<Seg>, k: nat)
    requires k < |s|
    ensures var lo, hi := MergeLo(s, k), MergeHi(s, k);
            var m, at := s[lo..hi], if lo < k then s[k - 1].len else 0;
            && Total(m) == at + s[k].len + (if hi > k + 1 then s[k + 1].len else 0)
            && Start(m, 0, k - lo) == at && Start(m, 0, k - lo + 1) == at + s[k].len
  {
    var lo, hi := MergeLo(s, k), MergeHi(s, k);
    var m := s[lo..hi];
    assert m == m[..k - lo] + ([s[k]] + m[k - lo + 1..]);
    TotalConcat(m[..k - lo], [s[k]] + m[k - lo + 1..]);
    assert m[..k - lo] == if lo < k then [s[k - 1]] else [];
    assert m[k - lo + 1..] == if hi > k + 1 then [s[k + 1]] else [];
    TotalConcat([s[k]], m[k - lo + 1..]);
    StartStep(m, 0, k - lo);
  }

  lemma ReleaseCanonical(s: seq<Seg>, k: nat)
    requires Canonical(s) && k < |s| && s[k].Busy?
    ensures Canonical(Release(s, k))
  {
    var lo, hi := MergeLo(s, k), MergeHi(s, k);
    assert Total(s[lo..hi]) > 0 by { assert s[lo..hi][0].len > 0; }
  }

  lemma CarveLive(s: seq<Seg>, base: nat, k: nat, n: nat, tag: nat)
    requires Canonical(s) && k < |s| && s[k].Free? && 0 < n <= s[k].len
    ensures Live(Carve(s, k, n, tag), base) == Live(s, base) + {Block(Start(s, base, k), n, tag)}
    ensures Total(Carve(s, k, n, tag)) == Total(s)
    ensures forall b :: b in Live(s, base) ==>
                          b.off + b.len <= Start(s, base, k) || Start(s, base, k) + s[k].len <= b.off
  {
    var m := CarvedPart(s[k].len, n, tag);
    CutThree(s, k, k + 1);
    assert s[k..k + 1] == [s[k]];
    CarvedPartLive(s[k].len, Start(s, base, k), n, tag);
    LiveReplace(s[..k], [s[k]], m, s[k + 1..], base);
    CutAssoc(s[..k], [Busy(n, tag)], if n < s[k].len then [Free(s[k].len - n)] else [], s[k + 1..]);
    AroundFree(s, base, k);
  }

  /** What a free stretch of `len` turns into. */
  function CarvedPart(len: nat, n: nat, tag: nat): seq<Seg>
    requires n <= len
  {
    [Busy(n, tag)] + if n < len then [Free(len - n)] else []
  }

  lemma CarvedPartLive(len: nat, at: nat, n: nat, tag: nat)
    requires n <= len
    ensures Total(CarvedPart(len, n, tag)) == len == Total([Free(len)])
    ensures Live(CarvedPart(len, n, tag), at) == {Block(at, n, tag)} && Live([Free(len)], at) == {}
  {
    var rest := if n < len then [Free(len - n)] else [];
    TotalConcat([Busy(n, tag)], rest);
    LiveConcat([Busy(n, tag)], rest, at);
    assert Live(rest, at + n) == {};
  }

  lemma CutAssoc<T>(a: seq<T>, x: seq<T>, y: seq<T>, b: seq<T>)
    ensures a + (x + y) + b == a + x + y + b
  {
  }

  /** Live blocks lie on either side of a free stretch. */
  lemma AroundFree(s: seq<Seg>, base: nat, k: nat)
    requires k < |s| && s[k].Free?
    ensures forall b :: b in Live(s, base) ==>
                          b.off + b.len <= Start(s, base, k) || Start(s, base, k) + s[k].len <= b.off
  {
    LiveSplit(s, base, k, k + 1);
    assert s[k..k + 1] == [s[k]];
    assert Live([s[k]], Start(s, base, k)) == {};
    forall b | b in Live(s, base)
      ensures b.off + b.len <= Start(s, base, k) || Start(s, base, k) + s[k].len <= b.off
    {
      if b in Live(s[..k], base) {
        LiveBounds(s[..k], base, b);
      } else {
        LiveBounds(s[k + 1..], Start(s, base, k) + s[k].len, b);
      }
    }
  }

  lemma CarveCanonical(s: seq<Seg>, k: nat, n: nat, tag: nat)
    requires Canonical(s) && k < |s| && s[k].Free? && 0 < n <= s[k].len
    ensures Canonical(Carve(s, k, n, tag))
  {
  }

  // ---------- a canonical list is determined by its live blocks ----------

  lemma CanonicalTail(s: seq<Seg>)
    requires Canonical(s) && s != []
    ensures Canonical(s[1..])
  {
  }

  /** Which live blocks start at the very beginning of the list. */
  lemma HeadBlock(s: seq<Seg>, base: nat, b: Block)
    requires Canonical(s) && s != [] && b in Live(s, base)
    ensures s[0].Busy? && b.off == base ==> b == Block(base, s[0].len, s[0].tag)
    ensures s[0].Free? ==> b.off >= base + s[0].len
  {
    if b in Live(s[1..], base + s[0].len) {
      LiveBounds(s[1..], base + s[0].len, b);
    }
  }

  /** A canonical list with no live block is empty or one free stretch. */
  lemma NoLive(s: seq<Seg>, base: nat)
    requires Canonical(s) && Live(s, base) == {}
    ensures s == if Total(s) == 0 then [] else [Free(Total(s))]
  {
    if |s| > 1 && s[0].Free? {
      var b := FreeHeadLength(s, base);
      assert false;
    }
  }

  /** After a leading free stretch, the first live block starts where that stretch ends. */
  lemma FreeHeadLength(s: seq<Seg>, base: nat) returns (b: Block)
    requires Canonical(s) && |s| > 1 && s[0].Free?
    ensures b in Live(s, base) && b.off == base + s[0].len
  {
    b := Block(base + s[0].len, s[1].len, s[1].tag);
    assert s[1..][0] == s[1];
  }

  lemma {:induction false} SameHead(s: seq<Seg>, t: seq<Seg>, base: nat)
    requires Canonical(s) && Canonical(t) && s != [] && t != []
    requires Total(s) == Total(t) && Live(s, base) == Live(t, base) != {}
    ensures s[0] == t[0]
  {
    if s[0].Busy? {
      var b := Block(base, s[0].len, s[0].tag);
      assert b in Live(s, base);
      HeadBlock(t, base, b);
    } else if t[0].Busy? {
      var b := Block(base, t[0].len, t[0].tag);
      assert b in Live(t, base);
      HeadBlock(s, base, b);
    } else {
      LoneFree(s, base);
      LoneFree(t, base);
      var b := FreeHeadLength(s, base);
      HeadBlock(t, base, b);
      var c := FreeHeadLength(t, base);
      HeadBlock(s, base, c);
    }
  }

  lemma LoneFree(s: seq<Seg>, base: nat)
    requires s != [] && s[0].Free? && Live(s, base) != {}
    ensures |s| > 1
  {
  }

  lemma HeadNotInTail(s: seq<Seg>, base: nat)
    requires Canonical(s) && s != [] && s[0].Busy?
    ensures Live(s[1..], base + s[0].len) == Live(s, base) - {Block(base, s[0].len, s[0].tag)}
  {
    var b := Block(base, s[0].len, s[0].tag);
    if b in Live(s[1..], base + s[0].len) {
      LiveBounds(s[1..], base + s[0].len, b);
    }
  }

  /** Uniqueness: the live blocks and the size of the range determine the whole list. */
  lemma {:induction false} CanonicalUnique(s: seq<Seg>, t: seq<Seg>, base: nat)
    requires Canonical(s) && Canonical(t)
    requires Total(s) == Total(t) && Live(s, base) == Live(t, base)
    ensures s == t
    decreases |s|
  {
    if Live(s, base) == {} {
      NoLive(s, base);
      NoLive(t, base);
    } else {
      SameHead(s, t, base);
      if s[0].Busy? {
        HeadNotInTail(s, base);
        HeadNotInTail(t, base);
      }
      CanonicalUnique(s[1..], t[1..], base + s[0].len);
      assert s == [s[0]] + s[1..] && t == [t[0]] + t[1..];
    }
  }

  lemma CarveStart(s: seq<Seg>, base: nat, k: nat, n: nat, tag: nat)
    requires k < |s| && s[k].Free? && n <= s[k].len
    ensures Carve(s, k, n, tag)[k] == Busy(n, tag) && Start(Carve(s, k, n, tag), base, k) == Start(s, base, k)
  {
    assert Carve(s, k, n, tag)[..k] == s[..k];
  }

  /** Releasing a block just carved puts the list back exactly. */
  lemma ReleaseUndoesCarve(s: seq<Seg>, k: nat, n: nat, tag: nat)
    requires Canonical(s) && k < |s| && s[k].Free? && 0 < n <= s[k].len
    ensures Release(Carve(s, k, n, tag), k) == s
  {
    var c := Carve(s, k, n, tag);
    CarveLive(s, 0, k, n, tag);
    CarveCanonical(s, k, n, tag);
    CarveStart(s, 0, k, n, tag);
    ReleaseLive(c, 0, k);
    ReleaseCanonical(c, k);
    CanonicalUnique(Release(c, k), s, 0);
  }

  // ---------- canonical lists have few free stretches ----------

  function BusyCount(s: seq<Seg>): nat {
    if s == [] then 0 else (if s[0].Busy? then 1 else 0) + BusyCount(s[1..])
  }

  lemma {:induction false} BusyCountIsLive(s: seq<Seg>, base: nat)
    requires Canonical(s)
    ensures |Live(s, base)| == BusyCount(s)
  {
    if s != [] {
      BusyCountIsLive(s[1..], base + s[0].len);
      if s[0].Busy? {
        HeadNotInTail(s, base);
      }
    }
  }

  /** No two free stretches touch, so at least every second stretch is a live block. */
  lemma {:induction false} AlternationBound(s: seq<Seg>)
    requires Canonical(s)
    ensures |s| <= 2 * BusyCount(s) + 1
    ensures s != [] && s[0].Busy? ==> |s| <= 2 * BusyCount(s)
  {
    if |s| > 0 {
      AlternationBound(s[1..]);
    }
  }
}
