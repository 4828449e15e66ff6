/**
 How long a ready process waits, and who is still queued by then. The runs here are timer ticks in user mode
 and interrupts that ready processes, whatever their status; nobody goes to sleep.
 */
module Fairness {
  import opened Sequences
  import opened Sched

  datatype Step = Tick | Arrive(p: nat)

  /** A timer interrupt that hits user mode. */
  function TickState(s: Kernel): Kernel {
    UserReturn(Bill(s))
  }

  ghost predicate Eligible(s: Kernel, p: int) {
    0 <= p < |s.procs| && s.procs[p].counter >= 0
  }

  ghost predicate AllEligible(s: Kernel) {
    forall i :: 0 <= i < |s.queue| ==> Eligible(s, s.queue[i])
  }

  /** A process is running, in user mode. */
  ghost predicate Busy(s: Kernel) {
    Inv(s) && AllEligible(s) && s.current != IDLE && !s.procs[s.current].needResched
  }

  /** Only processes that are not queued arrive. */
  ghost predicate Fits(s: Kernel, e: Step) {
    e.Arrive? ==> e.p != IDLE && Eligible(s, e.p) && e.p !in s.queue
  }

  ghost function Apply(s: Kernel, e: Step): Kernel
    requires Fits(s, e)
  {
    match e
    case Tick => TickState(s)
    case Arrive(p) => WakeProcess(s, p)
  }

  ghost predicate FitsRun(s: Kernel, es: seq<Step>)
    decreases |es|
  {
    es == [] || (Fits(s, es[0]) && FitsRun(Apply(s, es[0]), es[1..]))
  }

  ghost function Run(s: Kernel, es: seq<Step>): Kernel
    requires FitsRun(s, es)
    decreases |es|
  {
    if es == [] then s else Run(Apply(s, es[0]), es[1..])
  }

  function Ticks(es: seq<Step>): nat {
    if es == [] then 0 else (if es[0].Tick? then 1 else 0) + Ticks(es[1..])
  }

  /** The slices left to the first `k` processes, one tick more each for noticing that they are used up. */
  ghost function Ahead(s: Kernel, k: nat): int
    requires k <= |s.queue|
  {
    if k == 0 then 0 else Ahead(s, k - 1) + s.procs[s.queue[k - 1]].counter + 1
  }

  /** `Ahead` looks at nothing but the counters of the first `k` queue entries. */
  lemma {:induction false} AheadSame(s: Kernel, t: Kernel, k: nat)
    requires k <= |s.queue| && k <= |t.queue|
    requires forall i :: 0 <= i < k ==> s.queue[i] == t.queue[i] &&
                                        s.procs[s.queue[i]].counter == t.procs[t.queue[i]].counter
    ensures Ahead(s, k) == Ahead(t, k)
  {
    if k > 0 {
      AheadSame(s, t, k - 1);
    }
  }

  /** The front process one tick poorer. */
  lemma {:induction false} AheadLess(s: Kernel, t: Kernel, k: nat)
    requires 0 < k <= |s.queue| && k <= |t.queue|
    requires s.queue[0] == t.queue[0] && t.procs[t.queue[0]].counter == s.procs[s.queue[0]].counter - 1
    requires forall i :: 1 <= i < k ==> s.queue[i] == t.queue[i] &&
                                        s.procs[s.queue[i]].counter == t.procs[t.queue[i]].counter
    ensures Ahead(t, k) == Ahead(s, k) - 1
  {
    if k > 1 {
      AheadLess(s, t, k - 1);
    }
  }

  /** The front process gone. */
  lemma {:induction false} AheadShift(s: Kernel, t: Kernel, k: nat)
    requires 0 < k <= |s.queue| && k - 1 <= |t.queue|
    requires forall i :: 1 <= i < k ==> s.queue[i] == t.queue[i - 1] &&
                                        s.procs[s.queue[i]].counter == t.procs[t.queue[i - 1]].counter
    ensures Ahead(t, k - 1) == Ahead(s, k) - s.procs[s.queue[0]].counter - 1
  {
    if k > 1 {
      AheadShift(s, t, k - 1);
    }
  }

  lemma {:induction false} AheadPositive(s: Kernel, k: nat)
    requires AllEligible(s) && k <= |s.queue|
    ensures Ahead(s, k) >= k
  {
    if k > 0 {
      AheadPositive(s, k - 1);
      assert Eligible(s, s.queue[k - 1]);
    }
  }

  /** The queue after the slice of its head: rotated, or dropped if it is not marked running. */
  function AfterSlice(s: Kernel): seq<int>
    requires s.queue != []
  {
    s.queue[1..] + if s.procs[s.current].status.Running? then [s.queue[0]] else []
  }

  /** What a tick does when a process is running, alone or not. */
  lemma TickCases(s: Kernel)
    requires Busy(s)
    ensures var t := TickState(s); var c := s.current; var n := s.procs[c].counter;
            && |t.procs| == |s.procs|
            && (forall x :: 0 <= x < |s.procs| && x != c ==> t.procs[x].counter == s.procs[x].counter)
            && (forall x :: 0 <= x < |s.procs| ==> t.procs[x].status == s.procs[x].status)
            && (n > 0 ==> t.queue == s.queue && t.procs[c].counter == n - 1 && t.current == c
                          && !t.procs[c].needResched)
            && (n == 0 ==> t.queue == AfterSlice(s) && t.procs[c].counter == 10
                           && t.current == (if t.queue == [] then 0 else t.queue[0])
                           && !t.procs[t.current].needResched)
  {
    assert Eligible(s, s.queue[0]);
    ScheduleIs(Bill(s));
  }

  /** One tick brings every process behind the front exactly one tick closer to running. */
  lemma TickProgress(s: Kernel, k: nat) returns (k': nat)
    requires Busy(s) && 0 < k < |s.queue|
    ensures k' == if s.procs[s.current].counter > 0 then k else k - 1
    ensures var t := TickState(s);
            && Busy(t) && k' < |t.queue| && t.queue[k'] == s.queue[k] && Ahead(t, k') == Ahead(s, k) - 1
  {
    var t := TickState(s);
    TickCases(s);
    TickBusy(s);
    assert Eligible(s, s.queue[0]);
    DistinctOthers(s.queue, 0);
    if s.procs[s.current].counter > 0 {
      k' := k;
      AheadLess(s, t, k);
    } else {
      k' := k - 1;
      AheadShift(s, t, k);
    }
  }

  lemma TickBusy(s: Kernel)
    requires Busy(s) && (|s.queue| > 1 || s.procs[s.current].status.Running?)
    ensures Busy(TickState(s))
  {
    TickCases(s);
    var b := Bill(s);
    ScheduleKeeps(b);
    var t := TickState(s);
    assert s.queue[0] == s.current;
    forall i | 0 <= i < |t.queue|
      ensures Eligible(t, t.queue[i])
    {
      assert t.queue[i] in s.queue;
      var j :| 0 <= j < |s.queue| && s.queue[j] == t.queue[i];
      assert Eligible(s, s.queue[j]);
    }
  }

  lemma ArriveProgress(s: Kernel, p: nat, k: nat)
    requires Busy(s) && Fits(s, Arrive(p)) && k < |s.queue|
    ensures var t := WakeProcess(s, p);
            && Busy(t) && t.queue == s.queue + [p] && Ahead(t, k) == Ahead(s, k)
  {
    var t := WakeProcess(s, p);
    InsertedDistinct(s.queue, |s.queue|, p, s.queue + [p]);
    forall i | 0 <= i < |t.queue|
      ensures Eligible(t, t.queue[i])
    {
      assert i < |s.queue| ==> Eligible(s, s.queue[i]);
    }
    AheadSame(s, t, k);
  }

  /**
   The process at queue position `k` runs after exactly `Ahead(s, k)` ticks, and not before, whoever
   becomes ready in the meantime.
   */
  lemma {:induction false} ExactWait(s: Kernel, k: nat, es: seq<Step>)
    requires Busy(s) && k < |s.queue| && FitsRun(s, es) && Ticks(es) <= Ahead(s, k)
    ensures Run(s, es).current == s.queue[k] <==> Ticks(es) == Ahead(s, k)
    ensures Busy(Run(s, es))
    decreases |es|
  {
    if es == [] {
      AheadPositive(s, k);
      DistinctOthers(s.queue, 0);
    } else {
      match es[0] {
        case Tick =>
          AheadPositive(s, k);
          var k' := TickProgress(s, k);
          ExactWait(TickState(s), k', es[1..]);
        case Arrive(p) =>
          ArriveProgress(s, p, k);
          ExactWait(WakeProcess(s, p), k, es[1..]);
      }
    }
  }

  // ---------- who is still queued ----------

  /** While `x` runs, an interrupt readies somebody, and so marks `x` running. */
  ghost predicate WokeWhile(s: Kernel, es: seq<Step>, x: nat)
    requires FitsRun(s, es)
    decreases |es|
  {
    es != [] && ((es[0].Arrive? && s.current == x) || WokeWhile(Apply(s, es[0]), es[1..], x))
  }

  /** Who does not stand before position `k + 1` does not run before position `k` has had its wait. */
  lemma {:induction false} NotWoken(s: Kernel, k: nat, es: seq<Step>, x: nat)
    requires Busy(s) && k < |s.queue| && FitsRun(s, es) && Ticks(es) <= Ahead(s, k) && x !in s.queue[..k + 1]
    ensures !WokeWhile(s, es, x)
    decreases |es|
  {
    assert s.queue[0] in s.queue[..k + 1];
    if es != [] {
      match es[0] {
        case Tick =>
          AheadPositive(s, k);
          var k' := TickProgress(s, k);
          TickCases(s);
          assert k' < k ==> TickState(s).queue[..k] == s.queue[1..k + 1];
          NotWoken(TickState(s), k', es[1..], x);
        case Arrive(p) =>
          ArriveProgress(s, p, k);
          assert (s.queue + [p])[..k + 1] == s.queue[..k + 1];
          NotWoken(WakeProcess(s, p), k, es[1..], x);
      }
    }
  }

  /**
   Queued when position `k` has had its wait: who stood from there on, came later, or kept its place at the
   end of its slice.
   */
  ghost predicate Stays(s: Kernel, k: nat, es: seq<Step>, x: nat)
    requires k <= |s.queue| && FitsRun(s, es)
  {
    || x in s.queue[k..]
    || Arrive(x) in es
    || (x in s.queue[..k] && (s.procs[x].status.Running? || WokeWhile(s, es, x)))
  }

  /** Positions before and from the old `k` on, once the head has been rotated or dropped. */
  lemma MembersAfterSlice(s: Kernel, q: seq<int>, k: nat, x: nat)
    requires Distinct(s.queue) && 0 < k < |s.queue| && q == AfterSlice(s)
    ensures k <= |q| && q[..k] == s.queue[1..k + 1]
    ensures x in q[k - 1..] <==> x in s.queue[k..] || (x == s.queue[0] && s.procs[s.current].status.Running?)
    ensures x in q[..k - 1] <==> x in s.queue[..k] && x != s.queue[0]
    ensures s.queue[0] !in s.queue[k..] && s.queue[0] !in q[..k] && s.queue[0] in s.queue[..k]
  {
    var c := s.queue[0];
    DistinctOthers(s.queue, 0);
    assert q[k - 1..] == s.queue[k..] + if s.procs[s.current].status.Running? then [c] else [];
    assert s.queue[..k] == [c] + s.queue[1..k] && q[..k - 1] == s.queue[1..k];
  }

  lemma TickRest(s: Kernel, es: seq<Step>, x: nat)
    requires es != [] && es[0].Tick? && FitsRun(s, es)
    ensures FitsRun(TickState(s), es[1..]) && Ticks(es) == Ticks(es[1..]) + 1
    ensures WokeWhile(s, es, x) <==> WokeWhile(TickState(s), es[1..], x)
    ensures Arrive(x) in es <==> Arrive(x) in es[1..]
  {
  }

  /** A tick at the end of a slice does not change who is going to be queued. */
  lemma SliceEndStays(s: Kernel, k: nat, es: seq<Step>, x: nat)
    requires Busy(s) && 0 < k < |s.queue| && s.procs[s.current].counter == 0
    requires es != [] && es[0].Tick? && FitsRun(s, es) && Ticks(es) == Ahead(s, k)
    requires var t := TickState(s); Busy(t) && k - 1 < |t.queue| && Ahead(t, k - 1) == Ahead(s, k) - 1
    ensures Stays(s, k, es, x) <==> Stays(TickState(s), k - 1, es[1..], x)
  {
    TickCases(s);
    var t := TickState(s);
    MembersAfterSlice(s, t.queue, k, x);
    TickRest(s, es, x);
    if x == s.queue[0] {
      NotWoken(t, k - 1, es[1..], x);
    } else {
      assert x in t.queue[..k - 1] <==> x in s.queue[..k];
    }
  }

  lemma WithinSliceStays(s: Kernel, k: nat, es: seq<Step>, x: nat)
    requires Busy(s) && 0 < k < |s.queue| && s.procs[s.current].counter > 0
    requires es != [] && es[0].Tick? && FitsRun(s, es)
    ensures TickState(s).queue == s.queue
    ensures Stays(s, k, es, x) <==> Stays(TickState(s), k, es[1..], x)
  {
    TickCases(s);
    TickRest(s, es, x);
  }

  lemma TickStays(s: Kernel, k: nat, es: seq<Step>, x: nat) returns (k': nat)
    requires Busy(s) && 0 < k < |s.queue| && es != [] && es[0].Tick? && FitsRun(s, es) && Ticks(es) == Ahead(s, k)
    ensures Busy(TickState(s)) && k' < |TickState(s).queue| && Ahead(TickState(s), k') == Ahead(s, k) - 1
    ensures Stays(s, k, es, x) <==> Stays(TickState(s), k', es[1..], x)
  {
    k' := TickProgress(s, k);
    assert Eligible(s, s.queue[0]);
    if k' == k {
      WithinSliceStays(s, k, es, x);
    } else {
      SliceEndStays(s, k, es, x);
    }
  }

  lemma ArriveStays(s: Kernel, k: nat, p: nat, es: seq<Step>, x: nat)
    requires Busy(s) && k < |s.queue| && es != [] && es[0] == Arrive(p) && FitsRun(s, es)
    ensures Stays(s, k, es, x) <==> Stays(WakeProcess(s, p), k, es[1..], x)
  {
    ArriveProgress(s, p, k);
    var t := WakeProcess(s, p);
    assert t.queue[k..] == s.queue[k..] + [p] && t.queue[..k] == s.queue[..k];
    assert Arrive(x) in es <==> x == p || Arrive(x) in es[1..];
    if k > 0 {
      assert s.queue[0] in s.queue[..k];
    } else {
      assert s.queue[0] in s.queue[k..];
    }
  }

  /** When the process at position `k` gets the processor, exactly these are queued. */
  lemma {:induction false} StillQueuedIff(s: Kernel, k: nat, es: seq<Step>, x: nat)
    requires Busy(s) && k < |s.queue| && FitsRun(s, es) && Ticks(es) == Ahead(s, k)
    ensures x in Run(s, es).queue <==> Stays(s, k, es, x)
    decreases |es|
  {
    AheadPositive(s, k);
    if es == [] {
      assert s.queue[k..] == s.queue;
    } else {
      match es[0] {
        case Tick =>
          var k' := TickStays(s, k, es, x);
          StillQueuedIff(TickState(s), k', es[1..], x);
        case Arrive(p) =>
          ArriveProgress(s, p, k);
          ArriveStays(s, k, p, es, x);
          StillQueuedIff(WakeProcess(s, p), k, es[1..], x);
      }
    }
  }

  // ---------- a process alone ----------

  function Ticked(s: Kernel, n: nat): Kernel
    decreases n
  {
    if n == 0 then s else Ticked(TickState(s), n - 1)
  }

  /** The only ready process, marked running, with `c` ticks of its slice left. */
  ghost predicate Alone(s: Kernel, p: nat, c: int) {
    && Busy(s) && s.queue == [p] && s.current == p && p < |s.procs|
    && s.procs[p].status.Running? && s.procs[p].counter == c
  }

  lemma AloneTick(s: Kernel, p: nat, c: int)
    requires Alone(s, p, c)
    ensures Alone(TickState(s), p, if c > 0 then c - 1 else 10)
  {
    assert Eligible(s, s.queue[0]);
    TickCases(s);
    TickBusy(s);
    assert AfterSlice(s) == [p];
  }

  /** What is left of a slice of which `c` ticks are left now, `n` ticks later. */
  function Left(c: nat, n: nat): int
    requires c <= 10
  {
    10 - (10 - c + n) % 11
  }

  lemma LeftNext(c: nat, n: nat)
    requires c <= 10
    ensures Left(c, n + 1) == Left(if c > 0 then c - 1 else 10, n) && Left(c, 0) == c
  {
    if c == 0 {
      EveryEleven(n);
    } else {
      assert 10 - c + (n + 1) == 10 - (c - 1) + n;
    }
  }

  lemma EveryEleven(n: nat)
    ensures (10 - 0 + (n + 1)) % 11 == (10 - 10 + n) % 11
  {
  }

  /** It goes on for ever, and its slice goes through 10, 9, .., 0 and back to 10 with period eleven. */
  lemma {:induction false} AloneForever(s: Kernel, p: nat, c: nat, n: nat)
    requires Alone(s, p, c) && c <= 10
    ensures Alone(Ticked(s, n), p, Left(c, n))
    decreases n
  {
    if n > 0 {
      AloneTick(s, p, c);
      LeftNext(c, n - 1);
      AloneForever(TickState(s), p, if c > 0 then c - 1 else 10, n - 1);
    } else {
      LeftNext(c, 0);
    }
  }

  /** With slices of at most ten ticks, eleven ticks per process in front is the worst case. */
  lemma {:induction false} WaitBound(s: Kernel, k: nat)
    requires k <= |s.queue| && forall i :: 0 <= i < |s.queue| ==> s.procs[s.queue[i]].counter <= 10
    ensures Ahead(s, k) <= 11 * k
  {
    if k > 0 {
      WaitBound(s, k - 1);
    }
  }

  /** From the idle task it takes one tick more: that tick starts the head of the queue. */
  lemma IdleTick(s: Kernel, k: nat)
    requires Inv(s) && AllEligible(s) && s.current == IDLE && k < |s.queue|
    ensures var t := TickState(s);
            && Busy(t) && t.queue == s.queue && t.current == s.queue[0] && Ahead(t, k) == Ahead(s, k)
  {
    var t := TickState(s);
    ScheduleKeeps(Bill(s));
    assert s.queue[0] in s.queue;
    forall i | 0 <= i < |t.queue|
      ensures Eligible(t, t.queue[i])
    {
      assert Eligible(s, s.queue[i]);
    }
    AheadSame(s, t, k);
  }
}
