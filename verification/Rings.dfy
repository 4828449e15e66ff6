/** Circular buffers: a start index, a count, and pointers that go back to the start when they run off the end. */
module Rings {

  function Wrap(x: nat, n: nat): nat {
    if x >= n then x - n else x
  }

  /** The next slot. */
  function Next(x: nat, n: nat): nat {
    if x + 1 == n then 0 else x + 1
  }

  /** The `count` entries from `start` on. */
  function Window<T>(ring: seq<T>, start: nat, count: nat): (q: seq<T>)
    requires start < |ring| && count <= |ring|
    ensures |q| == count
    ensures forall i :: 0 <= i < count ==> q[i] == ring[Wrap(start + i, |ring|)]
  {
    seq(count, i requires 0 <= i < count => ring[Wrap(start + i, |ring|)])
  }

  /** Filling the slot behind the window lengthens it. */
  lemma WindowPut<T>(ring: seq<T>, start: nat, count: nat, x: T)
    requires start < |ring| && count < |ring|
    ensures Wrap(start + count, |ring|) < |ring|
    ensures Window(ring[Wrap(start + count, |ring|) := x], start, count) == Window(ring, start, count)
    ensures Window(ring[Wrap(start + count, |ring|) := x], start, count + 1) == Window(ring, start, count) + [x]
  {
    var at := Wrap(start + count, |ring|);
    var q, q' := Window(ring, start, count), Window(ring[at := x], start, count);
    forall i | 0 <= i < count
      ensures q'[i] == q[i]
    {
      assert Wrap(start + i, |ring|) != at;
    }
    assert Window(ring[at := x], start, count + 1) == q' + [x];
  }

  /** Moving the start takes the first entry off. */
  lemma WindowGet<T>(ring: seq<T>, start: nat, count: nat)
    requires start < |ring| && 0 < count <= |ring|
    ensures Next(start, |ring|) < |ring|
    ensures Window(ring, start, count) == [ring[start]] + Window(ring, Next(start, |ring|), count - 1)
  {
    var q, q' := Window(ring, start, count), Window(ring, Next(start, |ring|), count - 1);
    forall i | 0 <= i < count - 1
      ensures q[i + 1] == q'[i]
    {
      assert Wrap(start + (i + 1), |ring|) == Wrap(Next(start, |ring|) + i, |ring|);
    }
    assert q[0] == ring[Wrap(start + 0, |ring|)];
  }
}
