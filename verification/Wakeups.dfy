/** What waking a process does to the ready queue and to statuses, and when it goes wrong. */
module Wakeups {
  import opened Sequences
  import opened Sched

  /** Nobody drops out of the queue, and `p` is in it. */
  ghost predicate KeepsEverybody(s: Kernel, p: nat)
    requires p < |s.procs|
  {
    forall x :: x in s.queue ==> x in Ready(s, p).queue
  }

  /** Readying an already queued process cuts the queue behind it: harmless only for the last one. */
  lemma ReadyKeepsEverybodyIff(s: Kernel, p: nat)
    requires Distinct(s.queue) && p < |s.procs| && p != IDLE
    ensures p in Ready(s, p).queue
    ensures KeepsEverybody(s, p) <==> p !in s.queue || p == s.queue[|s.queue| - 1]
  {
    if p in s.queue {
      var i := Index(s.queue, p);
      var last := |s.queue| - 1;
      var q := s.queue[..i + 1];
      assert q[i] == p;
      assert At(s.queue, last) && At(s.queue, i);
      if i < last {
        DistinctOthers(s.queue, last);
        assert s.queue[last] !in q;
      } else {
        assert q == s.queue;
      }
    }
  }

  // ---------- waking a whole wait list ----------

  /** `wake_up`: the processes of a wait list in list order. */
  function WakeAll(s: Kernel, ws: seq<nat>): (r: Kernel)
    requires forall i :: 0 <= i < |ws| ==> ws[i] < |s.procs|
    ensures |r.procs| == |s.procs|
    decreases |ws|
  {
    if ws == [] then s else WakeAll(WakeProcess(s, ws[0]), ws[1..])
  }

  ghost predicate NoneQueued(s: Kernel, ws: seq<nat>) {
    Distinct(ws) && IDLE !in ws && forall x :: x in ws ==> x !in s.queue
  }

  lemma NoneQueuedTail(s: Kernel, ws: seq<nat>)
    requires ws != [] && ws[0] < |s.procs|
    ensures NoneQueued(s, ws) <==>
              ws[0] != IDLE && ws[0] !in s.queue && NoneQueued(WakeProcess(s, ws[0]), ws[1..])
  {
    InsertedDistinct(ws[1..], 0, ws[0], ws);
    if ws[0] != IDLE && ws[0] !in s.queue {
      assert WakeProcess(s, ws[0]).queue == s.queue + [ws[0]];
    }
  }

  lemma {:induction false} WakeAllLength(s: Kernel, ws: seq<nat>)
    requires forall i :: 0 <= i < |ws| ==> ws[i] < |s.procs|
    ensures |WakeAll(s, ws).queue| <= |s.queue| + |ws|
    decreases |ws|
  {
    if ws != [] {
      WakeAllLength(WakeProcess(s, ws[0]), ws[1..]);
    }
  }

  /** Every waiter is appended exactly once, in list order, just when none of them was queued already. */
  lemma {:induction false} WakeAllAppendsIff(s: Kernel, ws: seq<nat>)
    requires forall i :: 0 <= i < |ws| ==> ws[i] < |s.procs|
    ensures WakeAll(s, ws).queue == s.queue + ws <==> NoneQueued(s, ws)
    decreases |ws|
  {
    if ws == [] {
      assert s.queue + ws == s.queue;
    } else {
      var t := WakeProcess(s, ws[0]);
      NoneQueuedTail(s, ws);
      if ws[0] != IDLE && ws[0] !in s.queue {
        assert t.queue + ws[1..] == s.queue + ws;
        WakeAllAppendsIff(t, ws[1..]);
      } else {
        assert |t.queue| <= |s.queue|;
        WakeAllLength(t, ws[1..]);
      }
    }
  }

  /** The end of `sleep_on`: `p` takes itself off the wait list, wherever it stands. */
  function Off(ws: seq<nat>, p: nat): (r: seq<nat>)
    ensures forall x :: x in r ==> x in ws
  {
    var i := Index(ws, p);
    if i < |ws| then ws[..i] + ws[i + 1..] else ws
  }

  lemma OffKeeps(ws: seq<nat>, p: nat)
    requires Distinct(ws)
    ensures Distinct(Off(ws, p)) && forall x :: x in Off(ws, p) <==> x in ws && x != p
  {
    if p in ws {
      RemoveDistinct(ws, Index(ws, p));
    }
  }

  /** Waking a list keeps the scheduler's invariant. */
  lemma {:induction false} WakeAllKeeps(s: Kernel, ws: seq<nat>)
    requires Inv(s) && forall i :: 0 <= i < |ws| ==> ws[i] < |s.procs|
    ensures Inv(WakeAll(s, ws)) && WakeAll(s, ws).current == s.current
    decreases |ws|
  {
    if ws != [] {
      ApplyKeeps(s, EvWake(ws[0]));
      WakeAllKeeps(WakeProcess(s, ws[0]), ws[1..]);
    }
  }

  // ---------- who drops out when waiters are queued already ----------

  /**
   None of the waiters is queued, or the first one is, no other waiter stands in front of it, and everybody
   behind it waits.
   */
  ghost predicate LosesNobody(q: seq<int>, ws: seq<nat>) {
    || (forall x :: x in ws ==> x !in q)
    || (&& ws != [] && ws[0] in q
        && (forall x :: x in ws ==> x !in q[..Index(q, ws[0])])
        && (forall x :: x in q[Index(q, ws[0]) + 1..] ==> x in ws))
  }

  ghost predicate Wakeable(s: Kernel, ws: seq<nat>) {
    && Distinct(s.queue) && IDLE !in s.queue && Distinct(ws) && IDLE !in ws
    && forall i :: 0 <= i < |ws| ==> ws[i] < |s.procs|
  }

  lemma WakeableTail(s: Kernel, ws: seq<nat>)
    requires Wakeable(s, ws) && ws != []
    ensures Wakeable(WakeProcess(s, ws[0]), ws[1..]) && ws[0] !in ws[1..]
  {
    InsertedDistinct(ws[1..], 0, ws[0], ws);
    ReadyKeeps(Mark(s, Running), ws[0]);
  }

  /** Nobody becomes ready who does not wait. */
  lemma {:induction false} StaysOut(s: Kernel, ws: seq<nat>, z: int)
    requires Wakeable(s, ws) && z !in s.queue && z !in ws
    ensures z !in WakeAll(s, ws).queue
    decreases |ws|
  {
    if ws != [] {
      WakeableTail(s, ws);
      StaysOut(WakeProcess(s, ws[0]), ws[1..], z);
    }
  }

  /** Who stands behind a waiter and is not to be readied any more drops out. */
  lemma {:induction false} CutAway(s: Kernel, ws: seq<nat>, a: nat, b: nat)
    requires Wakeable(s, ws) && a < b < |s.queue| && s.queue[a] in ws && s.queue[b] !in ws
    ensures s.queue[b] !in WakeAll(s, ws).queue
    decreases |ws|
  {
    var x, t := ws[0], WakeProcess(s, ws[0]);
    WakeableTail(s, ws);
    DistinctOthers(s.queue, b);
    if x in s.queue && Index(s.queue, x) < b {
      StaysOut(t, ws[1..], s.queue[b]);
    } else {
      assert s.queue[a] != x;
      CutAway(t, ws[1..], a, b);
    }
  }

  /** Nobody drops out of the queue, and all waiters are in it. */
  ghost predicate AllReady(s: Kernel, ws: seq<nat>)
    requires forall i :: 0 <= i < |ws| ==> ws[i] < |s.procs|
  {
    && (forall x :: x in s.queue ==> x in WakeAll(s, ws).queue)
    && (forall x :: x in ws ==> x in WakeAll(s, ws).queue)
  }

  /** The exact condition under which a wake-up readies all waiters and throws nobody out. */
  lemma WakeAllLosesNobodyIff(s: Kernel, ws: seq<nat>)
    requires Wakeable(s, ws)
    ensures AllReady(s, ws) <==> LosesNobody(s.queue, ws)
  {
    WakeAllAppendsIff(s, ws);
    if ws != [] {
      var x, t := ws[0], WakeProcess(s, ws[0]);
      WakeableTail(s, ws);
      assert t.queue[|t.queue| - 1] == x;
      if y :| y in ws[1..] && y in t.queue {
        WaiterInFront(s, ws, y);
      } else {
        WakeAllAppendsIff(t, ws[1..]);
        RestAppended(s, ws);
      }
    }
  }

  /** The first waiter is readied, then one in front of it: the first one is lost. */
  lemma WaiterInFront(s: Kernel, ws: seq<nat>, y: nat)
    requires Wakeable(s, ws) && ws != [] && y in ws[1..] && y in WakeProcess(s, ws[0]).queue
    ensures !AllReady(s, ws) && !LosesNobody(s.queue, ws)
  {
    FirstWaiterLost(s, ws, y);
    assert ws[0] in ws && y in s.queue;
  }

  /** No other waiter is queued once the first one is readied: the rest is appended. */
  lemma RestAppended(s: Kernel, ws: seq<nat>)
    requires Wakeable(s, ws) && ws != [] && NoneQueued(WakeProcess(s, ws[0]), ws[1..])
    requires WakeAll(s, ws).queue == WakeProcess(s, ws[0]).queue + ws[1..]
    ensures AllReady(s, ws) <==> LosesNobody(s.queue, ws)
  {
    var x, q, t := ws[0], s.queue, WakeProcess(s, ws[0]).queue;
    assert forall y :: y in ws <==> y == x || y in ws[1..];
    assert AllReady(s, ws) <==> forall y :: y in q ==> y in t || y in ws[1..];
    if x in q {
      CutIsHarmlessIff(q, Index(q, x), ws);
    } else {
      assert t == q + [x];
    }
  }

  lemma CutIsHarmlessIff(q: seq<int>, i: nat, ws: seq<nat>)
    requires Distinct(q) && ws != [] && ws[0] in q && i == Index(q, ws[0])
    requires forall y :: y in ws[1..] ==> y !in q[..i + 1]
    ensures LosesNobody(q, ws) <==> forall y :: y in q ==> y in q[..i + 1] || y in ws[1..]
  {
    var front, back := q[..i + 1], q[i + 1..];
    BehindIsNotBefore(q, i + 1);
    assert front == q[..i] + [ws[0]] && q == front + back;
    assert forall y :: y in ws <==> y == ws[0] || y in ws[1..];
    assert LosesNobody(q, ws) <==> forall y :: y in back ==> y in ws by {
      assert forall y :: y in ws ==> y !in q[..i];
      assert ws[0] in ws;
    }
    assert forall y :: y in back ==> y !in front && y != ws[0];
  }

  /** No other waiter stands before the first one, or in the whole queue if that one is not queued. */
  ghost predicate FirstIsFirst(q: seq<int>, ws: seq<nat>) {
    ws != [] ==> forall x :: x in ws ==> x !in q[..Index(q, ws[0])]
  }

  /** The exact condition under which a wake-up leaves all waiters ready. */
  lemma WaitersReadyIff(s: Kernel, ws: seq<nat>)
    requires Wakeable(s, ws)
    ensures (forall x :: x in ws ==> x in WakeAll(s, ws).queue) <==> FirstIsFirst(s.queue, ws)
  {
    if ws != [] {
      var x, t := ws[0], WakeProcess(s, ws[0]);
      WakeableTail(s, ws);
      assert forall y :: y in ws <==> y == x || y in ws[1..];
      if y :| y in ws[1..] && y in t.queue {
        FirstWaiterLost(s, ws, y);
      } else {
        WakeAllAppendsIff(t, ws[1..]);
        ReadiedLast(Mark(s, Running), x);
      }
    }
  }

  /** Who is queued once `p` is readied stands before it. */
  lemma ReadiedLast(s: Kernel, p: nat)
    requires p < |s.procs| && p != IDLE
    ensures var q := Ready(s, p).queue;
            q == s.queue[..Index(s.queue, p)] + [p]
  {
    assert Index(s.queue, p) == |s.queue| ==> s.queue[..|s.queue|] == s.queue;
  }

  lemma FirstWaiterLost(s: Kernel, ws: seq<nat>, y: nat)
    requires Wakeable(s, ws) && ws != [] && y in ws[1..] && y in WakeProcess(s, ws[0]).queue
    ensures ws[0] !in WakeAll(s, ws).queue && y in ws && y in s.queue[..Index(s.queue, ws[0])]
  {
    var t := WakeProcess(s, ws[0]);
    WakeableTail(s, ws);
    ReadiedLast(Mark(s, Running), ws[0]);
    CutAway(t, ws[1..], Index(t.queue, y), |t.queue| - 1);
  }

  /** Nobody of `ws` stands behind `p`, if `p` is queued. */
  ghost predicate NobodyBehind(q: seq<int>, p: nat, ws: seq<nat>) {
    p == IDLE || p !in q || forall x :: x in ws ==> x !in q[Index(q, p) + 1..]
  }

  /** The exact condition under which readying one process leaves ready waiters ready. */
  lemma WaitersStayReadyIff(s: Kernel, p: nat, ws: seq<nat>)
    requires Distinct(s.queue) && p < |s.procs| && forall x :: x in ws ==> x in s.queue
    ensures (forall x :: x in ws ==> x in Ready(s, p).queue) <==> NobodyBehind(s.queue, p, ws)
  {
    if p in s.queue {
      var i := Index(s.queue, p);
      assert s.queue == s.queue[..i + 1] + s.queue[i + 1..];
      BehindIsNotBefore(s.queue, i + 1);
    }
  }

  lemma BehindIsNotBefore(q: seq<int>, i: nat)
    requires Distinct(q) && i <= |q|
    ensures forall y :: y in q[i..] ==> y !in q[..i]
  {
    forall y | y in q[i..]
      ensures y !in q[..i]
    {
      var k :| 0 <= k < |q| - i && q[i..][k] == y;
      DistinctOthers(q, i + k);
    }
  }

  /**
   Two wake-ups of one wait list before its sleeper has run: process 3, which became ready in between,
   falls out of the queue although it was never asleep.
   */
  lemma SecondWakeUpLosesAnother()
    ensures var i := Info(Running, SLICE, false);
            var s: Kernel := State([1], 1, [i, i, i, i]);
            var t := WakeAll(WakeProcess(WakeAll(s, [2]), 3), [2]);
            WakeProcess(WakeAll(s, [2]), 3).queue == [1, 2, 3] && t.queue == [1, 2]
  {
    var i := Info(Running, SLICE, false);
    var s: Kernel := State([1], 1, [i, i, i, i]);
    WakeOne(s, 2);
    var u := WakeProcess(WakeAll(s, [2]), 3);
    assert u.queue == [1, 2, 3];
    WakeOne(u, 2);
    assert Index([1, 2, 3], 2) == 1;
    assert [1, 2, 3][..2] == [1, 2];
  }

  lemma WakeOne(s: Kernel, p: nat)
    requires p < |s.procs|
    ensures WakeAll(s, [p]) == WakeProcess(s, p)
  {
    assert [p][1..] == [];
  }

  // ---------- the status of a woken process ----------

  /** `schedule` keeps the running process in the queue exactly when its status says running. */
  lemma SliceEnd(s: Kernel)
    requires Inv(s) && s.current != IDLE
    ensures s.current in Schedule(s).queue <==> s.procs[s.current].status.Running?
  {
    ScheduleKeeps(s);
  }

  /** Somewhere in the run a wake-up happens while `p` itself is running. */
  predicate WokeSomeoneWhileRunning(s: Kernel, es: seq<Event>, p: nat)
    requires EnabledRun(s, es)
    decreases |es|
  {
    es != [] && ((es[0].EvWake? && s.current == p) || WokeSomeoneWhileRunning(Apply(s, es[0]), es[1..], p))
  }

  lemma ScheduleStatus(s: Kernel, p: nat)
    requires p < |s.procs|
    ensures Schedule(s).procs[p].status == s.procs[p].status
  {
  }

  lemma StepStatus(s: Kernel, e: Event, p: nat)
    requires Enabled(s, e) && p < |s.procs| && !s.procs[p].status.Running? && !(e.EvWake? && s.current == p)
    ensures p < |Apply(s, e).procs| && !Apply(s, e).procs[p].status.Running?
  {
    match e {
      case EvBill =>
      case EvReturn => ScheduleStatus(s, p);
      case EvWake(q) =>
      case EvSleep => ScheduleStatus(Mark(s, Interrupt), p);
      case EvStop =>
      case EvSchedule => ScheduleStatus(s, p);
    }
  }

  /** The only thing that makes a sleeper's status running again is a wake-up issued while it runs. */
  lemma {:induction false} StatusSticks(s: Kernel, es: seq<Event>, p: nat)
    requires EnabledRun(s, es) && p < |s.procs| && !s.procs[p].status.Running?
    requires !WokeSomeoneWhileRunning(s, es, p)
    ensures p < |Run(s, es).procs| && !Run(s, es).procs[p].status.Running?
    decreases |es|
  {
    if es != [] {
      StepStatus(s, es[0], p);
      StatusSticks(Apply(s, es[0]), es[1..], p);
    }
  }

  /**
   A sleeper that is woken and gets the processor, with no wake-up while it runs, is thrown out of the
   queue by the `schedule` that ends its slice.
   */
  lemma WokenSleeperIsDropped(s: Kernel, es: seq<Event>, p: nat)
    requires Inv(s) && EnabledRun(s, es) && p != IDLE && p < |s.procs| && !s.procs[p].status.Running?
    requires !WokeSomeoneWhileRunning(s, es, p)
    requires Run(s, es).current == p
    ensures p !in Schedule(Run(s, es)).queue
  {
    RunKeeps(s, es);
    StatusSticks(s, es, p);
    SliceEnd(Run(s, es));
  }

  predicate InSlice(e: Event) {
    e.EvBill? || e.EvWake?
  }

  /** Over one slice: the running process stays queued iff it was marked running or woke somebody. */
  lemma {:induction false} SliceSurvivalIff(s: Kernel, es: seq<Event>)
    requires Inv(s) && s.current != IDLE && EnabledRun(s, es)
    requires forall i :: 0 <= i < |es| ==> InSlice(es[i])
    ensures Run(s, es).current == s.current
    ensures s.current in Schedule(Run(s, es)).queue <==>
              s.procs[s.current].status.Running? || exists i :: 0 <= i < |es| && es[i].EvWake?
    decreases |es|
  {
    if es == [] {
      SliceEnd(s);
    } else {
      var t := Apply(s, es[0]);
      assert InSlice(es[0]);
      ApplyKeeps(s, es[0]);
      assert forall i :: 0 <= i < |es[1..]| ==> InSlice(es[1..][i]) by {
        assert forall i :: 0 <= i < |es[1..]| ==> es[1..][i] == es[i + 1];
      }
      SliceSurvivalIff(t, es[1..]);
      if exists i :: 0 <= i < |es| && es[i].EvWake? {
        var i :| 0 <= i < |es| && es[i].EvWake?;
        assert i == 0 || es[1..][i - 1].EvWake?;
      }
      if exists i :: 0 <= i < |es[1..]| && es[1..][i].EvWake? {
        var i :| 0 <= i < |es[1..]| && es[1..][i].EvWake?;
        assert es[i + 1].EvWake?;
      }
    }
  }

  // ---------- exit with interrupts on ----------

  predicate Interrupts(es: seq<Event>) {
    forall i :: 0 <= i < |es| ==> InSlice(es[i])
  }

  /** An exiting process leaves the queue iff no wake-up comes between its mark and `schedule`. */
  lemma ExitingLeavesIff(s: Kernel, es: seq<Event>)
    requires Inv(s) && Enabled(s, EvStop) && Interrupts(es) && EnabledRun(Apply(s, EvStop), es)
    ensures Apply(s, EvStop).procs[s.current].status.Stopped? && Enabled(Run(Apply(s, EvStop), es), EvSchedule)
    ensures s.current !in Apply(Run(Apply(s, EvStop), es), EvSchedule).queue <==>
              forall i :: 0 <= i < |es| ==> !es[i].EvWake?
  {
    SliceSurvivalIff(Mark(s, Stopped), es);
  }

  /** One step of a run. */
  lemma RunStep(s: Kernel, es: seq<Event>)
    requires es != [] && Enabled(s, es[0])
    ensures EnabledRun(s, es) <==> EnabledRun(Apply(s, es[0]), es[1..])
    ensures EnabledRun(s, es) ==> Run(s, es) == Run(Apply(s, es[0]), es[1..])
  {
  }

  /** Init runs and has forked children into slots 2 and 3. */
  lemma TwoChildren(s: Kernel) returns (t: Kernel)
    requires Initial(s) && |s.procs| > 3
    ensures t == Fork(Fork(UserReturn(s), 2), 3) && |t.procs| == |s.procs|
    ensures t.queue == [1, 2, 3] && t.current == 1
    ensures forall i :: 1 <= i <= 3 ==> t.procs[i].status.Running? && t.procs[i].counter == SLICE
  {
    t := UserReturn(s);
    assert t.queue == [1] && t.current == 1;
    t := Fork(t, 2);
    assert t.queue == [1, 2];
    t := Fork(t, 3);
  }

  /**
   The failing case, from `proc_init` on: init forks, then sleeps for the disk; the child in slot 2 exits,
   and the disk readies init before `schedule` is called. The exiting process stays queued and goes on.
   */
  lemma ExitIsUndone(s: Kernel) returns (t: Kernel)
    requires Initial(s) && |s.procs| > 3
    ensures EnabledRun(Fork(Fork(UserReturn(s), 2), 3), [EvSleep, EvStop, EvWake(1), EvSchedule])
    ensures t == Run(Fork(Fork(UserReturn(s), 2), 3), [EvSleep, EvStop, EvWake(1), EvSchedule])
    ensures t.current == 2 && t.queue == [2, 3, 1] && t.procs[2].status.Running?
  {
    var es := [EvSleep, EvStop, EvWake(1), EvSchedule];
    var a := TwoChildren(s);
    var b := Sleep(a);
    assert b.queue == [2, 3] && b.current == 2;
    var c := Mark(b, Stopped);
    var d := WakeProcess(c, 1);
    assert d.queue == [2, 3, 1] && d.procs[2].counter == SLICE;
    t := Schedule(d);
    assert es[1..][1..] == es[2..] && es[2..][1..] == es[3..] && es[3..][1..] == [];
    RunStep(d, es[3..]);
    RunStep(c, es[2..]);
    RunStep(b, es[1..]);
    RunStep(a, es);
  }

  // ---------- the first slice of a child ----------

  /** `p` is not running before any of the events. */
  predicate NotCurrent(s: Kernel, es: seq<Event>, p: nat)
    requires EnabledRun(s, es)
    decreases |es|
  {
    es == [] || (s.current != p && NotCurrent(Apply(s, es[0]), es[1..], p))
  }

  lemma StatusKeptByStep(s: Kernel, e: Event, p: nat)
    requires Enabled(s, e) && p < |s.procs| && s.current != p
    ensures p < |Apply(s, e).procs| && Apply(s, e).procs[p].status == s.procs[p].status
  {
    match e {
      case EvReturn => ScheduleStatus(s, p);
      case EvSleep => ScheduleStatus(Mark(s, Interrupt), p);
      case EvSchedule => ScheduleStatus(s, p);
      case _ =>
    }
  }

  /** While a process does not run, its status stays what it is. */
  lemma {:induction false} StatusKept(s: Kernel, es: seq<Event>, p: nat)
    requires EnabledRun(s, es) && p < |s.procs| && NotCurrent(s, es, p)
    ensures p < |Run(s, es).procs| && Run(s, es).procs[p].status == s.procs[p].status
    decreases |es|
  {
    if es != [] {
      StatusKeptByStep(s, es[0], p);
      StatusKept(Apply(s, es[0]), es[1..], p);
    }
  }

  /** The child is queued last, with ten ticks and its parent's status. */
  lemma ForkIs(s: Kernel, c: nat)
    requires Inv(s) && s.current != IDLE && INIT < c < |s.procs| && c !in s.queue
    ensures var t := Fork(s, c);
            && Inv(t) && t.queue == s.queue + [c] && t.current == s.current
            && t.procs[c].counter == 10 && t.procs[c].status == s.procs[s.current].status
            && t.procs[s.current].status.Running?
  {
    var child := s.(procs := s.procs[c := s.procs[s.current].(counter := SLICE)]);
    ReadyKeeps(Mark(child, Running), c);
  }

  /**
   A child stays queued over its first slice iff its parent was marked running when it forked, or somebody
   is woken during the slice.
   */
  lemma FirstSliceIff(s: Kernel, c: nat, es: seq<Event>, slice: seq<Event>)
    requires Inv(s) && s.current != IDLE && INIT < c < |s.procs| && c !in s.queue
    requires EnabledRun(Fork(s, c), es) && NotCurrent(Fork(s, c), es, c) && Run(Fork(s, c), es).current == c
    requires Interrupts(slice) && EnabledRun(Run(Fork(s, c), es), slice)
    ensures var t := Run(Run(Fork(s, c), es), slice);
            c in Schedule(t).queue <==>
              s.procs[s.current].status.Running? || exists i :: 0 <= i < |slice| && slice[i].EvWake?
  {
    ForkIs(s, c);
    RunKeeps(Fork(s, c), es);
    StatusKept(Fork(s, c), es, c);
    SliceSurvivalIff(Run(Fork(s, c), es), slice);
  }

  // ---------- a woken sleeper is dropped, from `proc_init` on ----------

  function Bills(n: nat): seq<Event> {
    seq(n, _ => EvBill)
  }

  /** Ticks in one slice, and the tick that finds it used up. */
  lemma {:induction false} SliceTicks(s: Kernel, n: nat)
    requires s.current != IDLE && 0 < s.procs[s.current].counter + 1 == n
    ensures EnabledRun(s, Bills(n))
    ensures Run(s, Bills(n)) == s.(procs := s.procs[s.current := s.procs[s.current].(counter := 0, needResched := true)])
    decreases n
  {
    var t := Bill(s);
    assert Bills(n)[1..] == Bills(n - 1);
    RunStep(s, Bills(n));
    if n > 1 {
      SliceTicks(t, n - 1);
      assert t.procs[s.current := t.procs[s.current].(counter := 0, needResched := true)]
          == s.procs[s.current := s.procs[s.current].(counter := 0, needResched := true)];
    }
  }

  const FIRST_SLEEP := [EvReturn, EvSleep, EvWake(1), EvBill, EvReturn]

  lemma InitSleeps(s: Kernel) returns (b: Kernel)
    requires Initial(s)
    ensures b == Sleep(UserReturn(s)) && UserReturn(s).current == 1
    ensures b.queue == [] && b.current == IDLE && |b.procs| == |s.procs|
    ensures b.procs[1] == Info(Interrupt, SLICE, false) && b.procs[IDLE] == Info(Running, SLICE, false)
  {
    var a := UserReturn(s);
    assert a.current == 1 && a.procs[1] == s.procs[1];
    b := Sleep(a);
  }

  lemma InitIsWoken(b: Kernel) returns (d: Kernel)
    requires b.queue == [] && b.current == IDLE && |b.procs| >= 2
    requires b.procs[1] == Info(Interrupt, SLICE, false) && b.procs[IDLE] == Info(Running, SLICE, false)
    ensures EnabledRun(b, [EvWake(1), EvBill, EvReturn]) && d == Run(b, [EvWake(1), EvBill, EvReturn])
    ensures d.queue == [1] && d.current == 1 && |d.procs| == |b.procs| && d.procs[1] == Info(Interrupt, SLICE, false)
  {
    var es := [EvWake(1), EvBill, EvReturn];
    var c := WakeProcess(b, 1);
    assert c.queue == [1];
    d := UserReturn(Bill(c));
    RunStep(b, es);
    RunStep(c, es[1..]);
    RunStep(Bill(c), es[2..]);
    assert es[1..][1..] == es[2..] && es[2..][1..] == [];
  }

  /**
   Init gets the processor, sleeps once, is woken by an interrupt while idle runs, and runs for one slice:
   then the queue is empty, although init never slept again.
   */
  lemma WokenInitIsDropped(s: Kernel) returns (d: Kernel, e: Kernel)
    requires Initial(s)
    ensures EnabledRun(s, FIRST_SLEEP) && d == Run(s, FIRST_SLEEP)
    ensures EnabledRun(d, Bills(11)) && e == Run(d, Bills(11)) && e.current == 1
    ensures UserReturn(e).queue == []
  {
    var b := InitSleeps(s);
    d := InitIsWoken(b);
    assert FIRST_SLEEP[1..][1..] == [EvWake(1), EvBill, EvReturn];
    RunStep(UserReturn(s), FIRST_SLEEP[1..]);
    RunStep(s, FIRST_SLEEP);
    SliceTicks(d, 11);
    e := Run(d, Bills(11));
    SliceIsOver(e);
  }

  lemma SliceIsOver(e: Kernel)
    requires e.queue == [1] && e.current == 1 && 1 < |e.procs| && e.procs[1] == Info(Interrupt, 0, true)
    ensures UserReturn(e).queue == []
  {
    assert RoundRobin(e).queue == [1];
  }
}
