/** Duplicate-free sequences, and inserting into and removing from them. */
module Sequences {

  predicate At<T>(s: seq<T>, i: int) {
    0 <= i < |s|
  }

  /** Triggered by `At` only, so that it costs nothing where it is not asked for. */
  ghost predicate Distinct<T>(s: seq<T>) {
    forall i, j {:trigger At(s, i), At(s, j)} :: At(s, i) && At(s, j) && i != j ==> s[i] != s[j]
  }

  ghost predicate Apart<T>(s: seq<T>, t: seq<T>) {
    forall x :: x in s ==> x !in t
  }

  /** `s'` is `s` with `x` put in at index `k`. */
  ghost predicate Inserted<T>(s: seq<T>, k: nat, x: T, s': seq<T>) {
    && k <= |s| && |s'| == |s| + 1
    && (forall j :: 0 <= j < k ==> s'[j] == s[j])
    && s'[k] == x
    && (forall j :: k < j < |s'| ==> s'[j] == s[j - 1])
  }

  /** `s` without its element `k`, and `s` with `x` put in at `k`. */
  lemma Without<T>(s: seq<T>, k: nat) returns (s': seq<T>)
    requires k < |s|
    ensures Inserted(s', k, s[k], s)
  {
    s' := s[..k] + s[k + 1..];
  }

  lemma With<T>(s: seq<T>, k: nat, x: T) returns (s': seq<T>)
    requires k <= |s|
    ensures Inserted(s, k, x, s')
  {
    s' := s[..k] + [x] + s[k..];
  }

  lemma DistinctOthers<T>(s: seq<T>, k: nat)
    requires Distinct(s) && k < |s|
    ensures forall j :: 0 <= j < |s| && j != k ==> s[j] != s[k]
  {
    assert At(s, k);
    forall j | 0 <= j < |s| && j != k
      ensures s[j] != s[k]
    {
      assert At(s, j);
    }
  }

  lemma InsertedDistinct<T>(s: seq<T>, k: nat, x: T, s': seq<T>)
    requires Inserted(s, k, x, s')
    ensures forall y :: y in s' <==> y == x || y in s
    ensures Distinct(s) && x !in s ==> Distinct(s')
    ensures Distinct(s') ==> Distinct(s) && x !in s
  {
    assert forall j :: 0 <= j < |s| ==> s[j] == s'[if j < k then j else j + 1];
    if Distinct(s) && x !in s {
      forall i, j | At(s', i) && At(s', j) && i != j
        ensures s'[i] != s'[j]
      {
        assert At(s, if i < k then i else i - 1) || i == k;
        assert At(s, if j < k then j else j - 1) || j == k;
      }
    }
    if Distinct(s') {
      forall i, j | At(s, i) && At(s, j) && i != j
        ensures s[i] != s[j]
      {
        assert At(s', if i < k then i else i + 1) && At(s', if j < k then j else j + 1);
      }
      DistinctOthers(s', k);
    }
  }

  lemma DistinctSlice<T>(s: seq<T>, lo: nat, hi: nat)
    requires Distinct(s) && lo <= hi <= |s|
    ensures Distinct(s[lo..hi])
  {
    forall i, j | At(s[lo..hi], i) && At(s[lo..hi], j) && i != j
      ensures s[lo..hi][i] != s[lo..hi][j]
    {
      assert At(s, lo + i) && At(s, lo + j);
    }
  }

  lemma Assoc<T>(x: seq<T>, y: seq<T>, z: seq<T>)
    ensures (x + y) + z == x + (y + z)
  {
  }

  lemma MoveFirst<T>(a: seq<T>, x: T, b: seq<T>)
    ensures a + ([x] + b) == (a + [x]) + b && |a + ([x] + b)| == |a| + 1 + |b|
  {
  }

  lemma CutAround<T>(s: seq<T>, k: nat)
    requires k < |s|
    ensures s == s[..k] + ([s[k]] + s[k + 1..])
  {
  }

  lemma CutThree<T>(s: seq<T>, lo: nat, hi: nat)
    requires lo <= hi <= |s|
    ensures s == s[..lo] + s[lo..hi] + s[hi..]
  {
  }
}
