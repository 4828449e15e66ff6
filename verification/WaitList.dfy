/**
 The wait lists of `include/list.h` and `include/wait.h`: circular doubly linked lists threaded through
 entries that also name a process, with `sleep_on` and `wake_up` on top of the scheduler.
 */
module WaitList {
  import opened Sequences
  import S = Sched
  import W = Wakeups
  import R = ReadyQueue

  /** `c[0]` is the list head, the rest the waiters; both directions go round. */
  ghost predicate Ring(nxt: seq<int>, prv: seq<int>, c: seq<int>) {
    && |nxt| == |prv| && c != [] && Distinct(c)
    && (forall i :: 0 <= i < |c| ==> 0 <= c[i] < |nxt|)
    && (forall i {:trigger nxt[c[i]]} :: 0 <= i < |c| ==> nxt[c[i]] == if i + 1 < |c| then c[i + 1] else c[0])
    && (forall i {:trigger prv[c[i]]} :: 0 <= i < |c| ==> prv[c[i]] == if i == 0 then c[|c| - 1] else c[i - 1])
  }

  /** A ring does not notice changes of entries that are not on it. */
  lemma RingFrame(nxt: seq<int>, prv: seq<int>, nxt': seq<int>, prv': seq<int>, c: seq<int>)
    requires Ring(nxt, prv, c) && |nxt'| == |nxt| && |prv'| == |prv|
    requires forall x :: 0 <= x < |nxt| && x in c ==> nxt'[x] == nxt[x] && prv'[x] == prv[x]
    ensures Ring(nxt', prv', c)
  {
    assert forall i :: 0 <= i < |c| ==> c[i] in c;
    assert forall i :: 0 <= i < |c| ==> nxt'[c[i]] == nxt[c[i]] && prv'[c[i]] == prv[c[i]];
  }

  // ---------- list_add ----------

  ghost function AddNext(nxt: seq<int>, h: int, n: int): seq<int>
    requires 0 <= h < |nxt| && 0 <= n < |nxt|
  {
    nxt[n := nxt[h]][h := n]
  }

  ghost function AddPrev(nxt: seq<int>, prv: seq<int>, h: int, n: int): seq<int>
    requires |prv| == |nxt| && 0 <= h < |nxt| && 0 <= n < |nxt| && 0 <= nxt[h] < |prv|
  {
    prv[nxt[h] := n][n := h]
  }

  lemma AddKeepsRing(nxt: seq<int>, prv: seq<int>, h: int, ms: seq<int>, n: int)
    requires Ring(nxt, prv, [h] + ms) && 0 <= n < |nxt| && n !in [h] + ms
    ensures 0 <= h < |nxt| && 0 <= nxt[h] < |nxt|
    ensures Ring(AddNext(nxt, h, n), AddPrev(nxt, prv, h, n), [h] + [n] + ms)
  {
    var c, c' := [h] + ms, [h] + [n] + ms;
    assert c[0] == h && nxt[c[0]] == if |c| > 1 then c[1] else h;
    InsertedDistinct(c, 1, n, c');
    DistinctOthers(c, 0);
    if |c| > 1 {
      DistinctOthers(c, 1);
    }
    var nxt', prv' := AddNext(nxt, h, n), AddPrev(nxt, prv, h, n);
    forall i | 0 <= i < |c'|
      ensures nxt'[c'[i]] == if i + 1 < |c'| then c'[i + 1] else c'[0]
      ensures prv'[c'[i]] == if i == 0 then c'[|c'| - 1] else c'[i - 1]
    {
      if i != 1 {
        var j := if i == 0 then 0 else i - 1;
        assert c'[i] == c[j];
        assert nxt[c[j]] == if j + 1 < |c| then c[j + 1] else c[0];
        assert prv[c[j]] == if j == 0 then c[|c| - 1] else c[j - 1];
      }
    }
  }

  // ---------- list_del ----------

  ghost predicate Linked(nxt: seq<int>, prv: seq<int>, n: int) {
    |nxt| == |prv| && 0 <= n < |nxt| && 0 <= nxt[n] < |nxt| && 0 <= prv[n] < |nxt|
  }

  lemma DelKeepsRing(nxt: seq<int>, prv: seq<int>, c: seq<int>, k: nat, c': seq<int>)
    requires Ring(nxt, prv, c) && 0 < k < |c| && Inserted(c', k, c[k], c)
    ensures Linked(nxt, prv, c[k])
    ensures Ring(nxt[prv[c[k]] := nxt[c[k]]], prv[nxt[c[k]] := prv[c[k]]], c')
  {
    var n := c[k];
    InsertedDistinct(c', k, n, c);
    var before, after := k - 1, if k + 1 < |c| then k + 1 else 0;
    DistinctOthers(c, before);
    DistinctOthers(c, after);
    assert prv[c[k]] == c[before] && nxt[c[k]] == c[after];
    var nxt', prv' := nxt[c[before] := c[after]], prv[c[after] := c[before]];
    assert forall i :: 0 <= i < |c'| ==> c'[i] == c[if i < k then i else i + 1];
    forall i | 0 <= i < |c'|
      ensures nxt'[c'[i]] == if i + 1 < |c'| then c'[i + 1] else c'[0]
      ensures prv'[c'[i]] == if i == 0 then c'[|c'| - 1] else c'[i - 1]
    {
      var j := if i < k then i else i + 1;
      assert nxt[c[j]] == if j + 1 < |c| then c[j + 1] else c[0];
      assert prv[c[j]] == if j == 0 then c[|c| - 1] else c[j - 1];
    }
  }

  class WaitMemory {
    const next: array<int>
    const prev: array<int>
    const proc: array<nat>

    ghost predicate Valid()
      reads this
    {
      && next.Length == prev.Length == proc.Length
      && next != prev && next as object != proc && prev as object != proc
    }

    /** The wait list headed by entry `h` holds the entries `ms`, most recent first. */
    ghost predicate List(h: int, ms: seq<int>)
      requires Valid()
      reads this, next, prev
    {
      Ring(next[..], prev[..], [h] + ms)
    }

    /** `INIT_WAIT_QUEUE_HEAD`. */
    method InitHead(h: int)
      requires Valid() && 0 <= h < next.Length
      modifies next, prev
      ensures List(h, [])
      ensures forall x :: 0 <= x < next.Length && x != h ==> next[x] == old(next[x]) && prev[x] == old(prev[x])
    {
      prev[h] := h;
      next[h] := h;
    }

    /** `list_add`. */
    method ListAdd(h: int, n: int, ghost ms: seq<int>)
      requires Valid() && List(h, ms) && 0 <= n < next.Length && n !in [h] + ms
      modifies next, prev
      ensures List(h, [n] + ms)
      ensures forall x :: 0 <= x < next.Length && x !in [h, n] + ms ==> next[x] == old(next[x]) && prev[x] == old(prev[x])
    {
      ghost var nx, pv := next[..], prev[..];
      AddKeepsRing(nx, pv, h, ms, n);
      assert ([h] + ms)[0] == h && nx[h] in [h] + ms;
      prev[next[h]] := n;
      next[n] := next[h];
      prev[n] := h;
      next[h] := n;
      assert next[..] == AddNext(nx, h, n) && prev[..] == AddPrev(nx, pv, h, n);
      assert [h] + ([n] + ms) == [h] + [n] + ms;
    }

    /** `list_del` of the waiter at position `k`. */
    method ListDel(n: int, ghost h: int, ghost ms: seq<int>, ghost k: nat)
      requires Valid() && List(h, ms) && k < |ms| && ms[k] == n
      modifies next, prev
      ensures List(h, ms[..k] + ms[k + 1..])
      ensures forall x :: 0 <= x < next.Length && x !in [h] + ms ==> next[x] == old(next[x]) && prev[x] == old(prev[x])
    {
      ghost var nx, pv, c := next[..], prev[..], [h] + ms;
      ghost var c' := [h] + (ms[..k] + ms[k + 1..]);
      assert c[k + 1] == n;
      DelKeepsRing(nx, pv, c, k + 1, c');
      assert nx[c[k + 1]] in c && pv[c[k + 1]] in c;
      prev[next[n]] := prev[n];
      next[prev[n]] := next[n];
      assert next[..] == nx[pv[n] := nx[n]] && prev[..] == pv[nx[n] := pv[n]];
    }
  }

  // ---------- sleeping and waking ----------

  ghost predicate Separate(m: WaitMemory, s: R.Scheduler)
    reads m
  {
    m.next as object != s.tab && m.prev as object != s.tab && m.proc as object != s.tab
  }

  /** The processes behind the entries `ms`. */
  ghost function ProcsOf(proc: seq<nat>, ms: seq<int>): (r: seq<nat>)
    requires forall i :: 0 <= i < |ms| ==> 0 <= ms[i] < |proc|
    ensures |r| == |ms| && forall i :: 0 <= i < |ms| ==> r[i] == proc[ms[i]]
  {
    seq(|ms|, i requires 0 <= i < |ms| => proc[ms[i]])
  }

  ghost predicate Waiting(m: WaitMemory, s: R.Scheduler, h: int, ms: seq<int>)
    requires m.Valid()
    reads m, m.next, m.prev, m.proc
  {
    && m.List(h, ms)
    && (forall i :: 0 <= i < |ms| ==> 0 <= ms[i] < m.proc.Length)
    && forall i :: 0 <= i < |ms| ==> m.proc[ms[i]] < s.tab.Length
  }

  /** `sleep_on` up to the switch: the caller is the first on the list and off the processor. */
  method SleepEnter(m: WaitMemory, s: R.Scheduler, h: int, n: int, ghost ms: seq<int>)
    requires m.Valid() && s.Valid() && Separate(m, s) && Waiting(m, s, h, ms)
    requires 0 <= n < m.proc.Length && n !in [h] + ms
    requires s.queue != []
    modifies m.next, m.prev, m.proc, s`readyHead, s`readyTail, s`current, s`queue, s.tab
    ensures m.Valid() && s.Valid() && Waiting(m, s, h, [n] + ms)
    ensures m.proc[..] == old(m.proc[..])[n := old(s.current)]
    ensures s.Abs() == S.Sleep(old(s.Abs()))
  {
    m.proc[n] := s.current;
    m.ListAdd(h, n, ms);
    s.Sleep();
  }

  /** The rest of `sleep_on`, run when the caller has the processor again. */
  method SleepLeave(m: WaitMemory, n: int, ghost h: int, ghost ms: seq<int>, ghost k: nat)
    requires m.Valid() && m.List(h, ms) && k < |ms| && ms[k] == n
    modifies m.next, m.prev
    ensures m.List(h, ms[..k] + ms[k + 1..])
  {
    m.ListDel(n, h, ms, k);
  }

  /**
   `wake_up` terminates, leaves the list alone, and readies the waiters in list order: each is appended
   exactly once, the most recent sleeper first, exactly when none was queued before.
   */
  method WakeUp(m: WaitMemory, s: R.Scheduler, h: int, ghost ms: seq<int>)
    requires m.Valid() && s.Valid() && Separate(m, s) && Waiting(m, s, h, ms)
    modifies s`readyHead, s`readyTail, s`queue, s.tab
    ensures s.Valid() && s.Abs() == W.WakeAll(old(s.Abs()), ProcsOf(m.proc[..], ms))
    ensures s.queue == old(s.queue) + ProcsOf(m.proc[..], ms)
            <==> W.NoneQueued(old(s.Abs()), ProcsOf(m.proc[..], ms))
  {
    ghost var ws := ProcsOf(m.proc[..], ms);
    ghost var nx := m.next[..];
    W.WakeAllAppendsIff(s.Abs(), ws);
    RingNext(nx, m.prev[..], h, ms, 0);
    var tmp := m.next[h];
    ghost var k := 0;
    while tmp != h
      invariant s.Valid() && k <= |ms| && m.next[..] == nx
      invariant tmp == if k < |ms| then ms[k] else h
      invariant W.WakeAll(old(s.Abs()), ws) == W.WakeAll(s.Abs(), ws[k..])
      decreases |ms| - k
    {
      RingNext(nx, m.prev[..], h, ms, k + 1);
      WakeRest(s.Abs(), ws, k);
      var curr := tmp;
      tmp := m.next[tmp];
      s.WakeUpProcess(m.proc[curr]);
      k := k + 1;
    }
    HeadOnce(h, ms, k);
  }

  /** The entry behind waiter `k - 1`, or behind the head. */
  lemma RingNext(nxt: seq<int>, prv: seq<int>, h: int, ms: seq<int>, k: nat)
    requires Ring(nxt, prv, [h] + ms) && k <= |ms|
    ensures var x := if k == 0 then h else ms[k - 1];
            0 <= x < |nxt| && nxt[x] == if k < |ms| then ms[k] else h
  {
    var c := [h] + ms;
    assert nxt[c[k]] == if k + 1 < |c| then c[k + 1] else c[0];
  }

  lemma WakeRest(s: S.Kernel, ws: seq<nat>, k: nat)
    requires k < |ws| && forall i :: 0 <= i < |ws| ==> ws[i] < |s.procs|
    ensures W.WakeAll(s, ws[k..]) == W.WakeAll(S.WakeProcess(s, ws[k]), ws[k + 1..])
  {
    assert ws[k..][1..] == ws[k + 1..];
  }

  /** The list head is not one of its waiters, so the walk ends only after the last of them. */
  lemma HeadOnce(h: int, ms: seq<int>, k: nat)
    requires Distinct([h] + ms) && k <= |ms| && (k < |ms| ==> ms[k] == h)
    ensures k == |ms|
  {
    InsertedDistinct(ms, 0, h, [h] + ms);
  }
}
