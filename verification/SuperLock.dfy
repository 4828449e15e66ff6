/**
 The lock of a super block (`fs/super.c`) on top of the scheduler: the ready queue, the wait list and the
 lock byte. A process that finds the lock taken sleeps; the one that gives it up wakes the whole list, and
 each sleeper takes itself off the list when it runs again. The lock functions are modelled for any callers,
 also such as sleep while they hold the lock. The critical sections of `fs/super.c` do not sleep, and for
 these the lock is never contended.
 */
module SuperLock {
  import opened Sequences
  import S = Sched
  import W = Wakeups

  /** Outside, asleep in `sleep_on` (going to take the lock, or only waiting for it to be free), or holding the lock. */
  datatype Place = Outside | Waiting(wantsLock: bool) | Holding

  /** `waiters` is the wait list, most recent sleeper first. */
  datatype State = State(k: S.Kernel, lock: bool, waiters: seq<nat>, place: seq<Place>)

  /** What the running process does, or any other event of the scheduler. */
  datatype Event = LockSuper | WaitOnSuper | UnlockSuper | Resume | Other(e: S.Event)

  predicate Shape(s: State) {
    |s.place| == |s.k.procs| && forall i :: 0 <= i < |s.waiters| ==> s.waiters[i] < |s.k.procs|
  }

  /** A process that comes back in `sleep_on` resumes there; only interrupts can come before that. */
  predicate Enabled(s: State, e: Event) {
    Shape(s) &&
    var here := s.place[s.k.current];
    match e
    case LockSuper => here.Outside? && s.k.current != S.IDLE
    case WaitOnSuper => here.Outside? && s.k.current != S.IDLE
    case UnlockSuper => here.Holding?
    case Resume => here.Waiting?
    case Other(e') => S.Enabled(s.k, e') && (here.Waiting? ==> e'.EvBill? || e'.EvWake?)
  }

  /** The test of the while loops: sleep while the lock is taken, else go on. */
  function Test(s: State, wantsLock: bool): State
    requires Shape(s)
  {
    var p := s.k.current;
    if s.lock then State(S.Sleep(s.k), true, [p] + s.waiters, s.place[p := Waiting(wantsLock)])
    else if wantsLock then s.(lock := true, place := s.place[p := Holding])
    else s.(place := s.place[p := Outside])
  }

  function Apply(s: State, e: Event): State
    requires Enabled(s, e)
  {
    match e
    case LockSuper => Test(s, true)
    case WaitOnSuper => Test(s, false)
    case UnlockSuper => State(W.WakeAll(s.k, s.waiters), false, s.waiters, s.place[s.k.current := Outside])
    case Resume =>
      var t := s.(waiters := W.Off(s.waiters, s.k.current));
      assert forall i :: 0 <= i < |t.waiters| ==> t.waiters[i] in s.waiters;
      Test(t, s.place[s.k.current].wantsLock)
    case Other(e') => s.(k := S.Apply(s.k, e'))
  }

  ghost predicate Holds(s: State, p: int) {
    0 <= p < |s.place| && s.place[p].Holding?
  }

  /** The lock byte is set iff exactly one process holds the lock, and the wait list is who sleeps for it. */
  ghost predicate Inv(s: State) {
    && Shape(s) && S.Inv(s.k) && s.place[S.IDLE].Outside?
    && Distinct(s.waiters)
    && (forall p :: 0 <= p < |s.place| ==> (s.place[p].Waiting? <==> p in s.waiters))
    && (s.lock <==> exists p :: Holds(s, p))
    && (forall p, q :: Holds(s, p) && Holds(s, q) ==> p == q)
  }

  /** Nobody sleeps unreadied while the lock is free. */
  ghost predicate NobodyForgotten(s: State) {
    !s.lock ==> forall p :: p in s.waiters ==> p in s.k.queue
  }

  // ---------- mutual exclusion, over every run ----------

  lemma TestKeeps(s: State, wantsLock: bool)
    requires Shape(s) && Inv(s.(place := s.place[s.k.current := Outside])) && s.k.current != S.IDLE
    ensures Inv(Test(s, wantsLock))
  {
    var p, t, o := s.k.current, Test(s, wantsLock), s.(place := s.place[s.k.current := Outside]);
    assert forall q :: q != p ==> (Holds(t, q) <==> Holds(o, q));
    if s.lock {
      S.ScheduleKeeps(S.Mark(s.k, S.Interrupt));
      InsertedDistinct(s.waiters, 0, p, [p] + s.waiters);
    } else if wantsLock {
      assert Holds(t, p);
    }
  }

  /** Off the list, a resumed process is outside. */
  lemma LeaveKeeps(s: State, p: nat)
    requires Inv(s) && p < |s.place| && s.place[p].Waiting?
    ensures var t := s.(waiters := W.Off(s.waiters, p));
            && Inv(t.(place := s.place[p := Outside])) && p !in t.waiters
            && forall x :: x in t.waiters <==> x in s.waiters && x != p
  {
    var t := s.(waiters := W.Off(s.waiters, p));
    var o := t.(place := s.place[p := Outside]);
    W.OffKeeps(s.waiters, p);
    assert forall j :: 0 <= j < |t.waiters| ==> t.waiters[j] in s.waiters;
    assert forall q :: Holds(o, q) <==> Holds(s, q);
  }

  lemma ApplyKeeps(s: State, e: Event)
    requires Inv(s) && Enabled(s, e)
    ensures Inv(Apply(s, e)) && |Apply(s, e).place| == |s.place|
  {
    var p := s.k.current;
    match e {
      case LockSuper =>
        assert s.place[p := Outside] == s.place;
        TestKeeps(s, true);
      case WaitOnSuper =>
        assert s.place[p := Outside] == s.place;
        TestKeeps(s, false);
      case UnlockSuper =>
        var t := Apply(s, e);
        W.WakeAllKeeps(s.k, s.waiters);
        assert Holds(s, p);
        assert forall q :: Holds(t, q) ==> Holds(s, q) && q != p;
      case Resume =>
        LeaveKeeps(s, p);
        TestKeeps(s.(waiters := W.Off(s.waiters, p)), s.place[p].wantsLock);
      case Other(e') =>
        S.ApplyKeeps(s.k, e');
        assert forall q :: Holds(Apply(s, e), q) <==> Holds(s, q);
    }
  }

  ghost predicate EnabledRun(s: State, es: seq<Event>)
    decreases |es|
  {
    es == [] || (Enabled(s, es[0]) && EnabledRun(Apply(s, es[0]), es[1..]))
  }

  ghost function Run(s: State, es: seq<Event>): State
    requires EnabledRun(s, es)
    decreases |es|
  {
    if es == [] then s else Run(Apply(s, es[0]), es[1..])
  }

  /** Mutual exclusion over every run, whatever the wake-ups do to the ready queue. */
  lemma {:induction false} LockIsExclusive(s: State, es: seq<Event>)
    requires Inv(s) && EnabledRun(s, es)
    ensures Inv(Run(s, es)) && |Run(s, es).place| == |s.place|
    decreases |es|
  {
    if es != [] {
      ApplyKeeps(s, es[0]);
      LockIsExclusive(Apply(s, es[0]), es[1..]);
    }
  }

  // ---------- what the lock functions are for ----------

  /** A lock by itself: who has it, and the processes that sleep for it, with whether they came to take it. */
  datatype Lock = Lock(owners: set<nat>, asleep: map<nat, bool>)

  /** Process `p` finds the lock free, or goes to sleep. */
  function Attempt(l: Lock, p: nat, take: bool): Lock {
    if l.owners != {} then l.(asleep := l.asleep[p := take])
    else if take then l.(owners := {p})
    else l
  }

  /** What each operation is for, with process `p` running. */
  function Intended(l: Lock, p: nat, e: Event): Lock {
    match e
    case LockSuper => Attempt(l, p, true)
    case WaitOnSuper => Attempt(l, p, false)
    case UnlockSuper => l.(owners := l.owners - {p})
    case Resume => if p in l.asleep then Attempt(l.(asleep := l.asleep - {p}), p, l.asleep[p]) else l
    case Other(e') => l
  }

  function Owners(place: seq<Place>): (r: set<nat>)
    ensures forall p: nat :: p in r <==> p < |place| && place[p].Holding?
  {
    set p: nat | p < |place| && place[p].Holding?
  }

  function AsleepIn(place: seq<Place>): (r: map<nat, bool>)
    ensures forall p: nat :: p in r <==> p < |place| && place[p].Waiting?
    ensures forall p: nat :: p in r ==> r[p] == place[p].wantsLock
  {
    map p: nat | p < |place| && place[p].Waiting? :: place[p].wantsLock
  }

  function LockOf(s: State): Lock {
    Lock(Owners(s.place), AsleepIn(s.place))
  }

  lemma PlaceChanges(place: seq<Place>, p: nat, x: Place)
    requires p < |place|
    ensures Owners(place[p := x]) == if x.Holding? then Owners(place) + {p} else Owners(place) - {p}
    ensures var rest := AsleepIn(place) - {p};
            AsleepIn(place[p := x]) == if x.Waiting? then rest[p := x.wantsLock] else rest
  {
  }

  /** At most one process is the owner, and the lock byte says whether there is one. */
  lemma OwnersAre(s: State)
    requires Inv(s)
    ensures s.lock <==> Owners(s.place) != {}
    ensures s.place[s.k.current].Holding? ==> Owners(s.place) == {s.k.current}
  {
    assert forall p: nat :: p in Owners(s.place) <==> Holds(s, p);
    if s.lock {
      var p :| Holds(s, p);
      assert p in Owners(s.place);
    }
    if s.place[s.k.current].Holding? {
      assert Holds(s, s.k.current);
    }
  }

  lemma TestIsAttempt(s: State, wantsLock: bool)
    requires Shape(s) && !s.place[s.k.current].Holding? && (s.lock <==> Owners(s.place) != {})
    ensures LockOf(Test(s, wantsLock))
            == Attempt(Lock(Owners(s.place), AsleepIn(s.place) - {s.k.current}), s.k.current, wantsLock)
  {
    var p := s.k.current;
    PlaceChanges(s.place, p, Waiting(wantsLock));
    PlaceChanges(s.place, p, Holding);
    PlaceChanges(s.place, p, Outside);
    assert Owners(s.place) - {p} == Owners(s.place);
    if Owners(s.place) == {} {
      assert {} + {p} == {p};
    }
  }

  /** Each operation does to the lock what it is for: `lock_super` takes it, `wait_on_super` leaves it alone. */
  lemma StepIsIntended(s: State, e: Event)
    requires Inv(s) && Enabled(s, e)
    ensures LockOf(Apply(s, e)) == Intended(LockOf(s), s.k.current, e)
  {
    var p, l := s.k.current, LockOf(s);
    OwnersAre(s);
    match e {
      case LockSuper =>
        assert l.asleep - {p} == l.asleep;
        TestIsAttempt(s, true);
      case WaitOnSuper =>
        assert l.asleep - {p} == l.asleep;
        TestIsAttempt(s, false);
      case UnlockSuper =>
        PlaceChanges(s.place, p, Outside);
        assert l.asleep - {p} == l.asleep;
      case Resume =>
        LeaveKeeps(s, p);
        TestIsAttempt(s.(waiters := W.Off(s.waiters, p)), s.place[p].wantsLock);
      case Other(e') =>
    }
  }

  ghost function IntendedRun(l: Lock, s: State, es: seq<Event>): Lock
    requires EnabledRun(s, es)
    decreases |es|
  {
    if es == [] then l else IntendedRun(Intended(l, s.k.current, es[0]), Apply(s, es[0]), es[1..])
  }

  /**
   Over every run the owner is who took the lock last, by `lock_super` on a free lock or by coming back to it
   from sleep, and has not unlocked; and those asleep are who found it taken, with what they came for.
   */
  lemma {:induction false} RunIsIntended(s: State, es: seq<Event>)
    requires Inv(s) && EnabledRun(s, es)
    ensures Inv(Run(s, es)) && LockOf(Run(s, es)) == IntendedRun(LockOf(s), s, es)
    ensures Run(s, es).lock <==> LockOf(Run(s, es)).owners != {}
    decreases |es|
  {
    if es == [] {
      OwnersAre(s);
    } else {
      ApplyKeeps(s, es[0]);
      StepIsIntended(s, es[0]);
      RunIsIntended(Apply(s, es[0]), es[1..]);
    }
  }

  /** `lock_super` takes a free lock at once, and goes first on the list, off the processor, for a taken one. */
  lemma LockSuperIs(s: State)
    requires Inv(s) && Enabled(s, LockSuper)
    ensures var t, p := Apply(s, LockSuper), s.k.current;
            if s.lock then && t.waiters == [p] + s.waiters && t.place[p] == Waiting(true) && t.lock
                           && p !in t.k.queue && t.k.current != p
            else Holds(t, p) && t.lock && t.waiters == s.waiters && t.k == s.k
  {
    if s.lock {
      S.ScheduleKeeps(S.Mark(s.k, S.Interrupt));
    }
  }

  /** `wait_on_super` changes nothing about a free lock, and sleeps for a taken one. */
  lemma WaitOnSuperIs(s: State)
    requires Inv(s) && Enabled(s, WaitOnSuper)
    ensures var t, p := Apply(s, WaitOnSuper), s.k.current;
            if s.lock then && t.waiters == [p] + s.waiters && t.place[p] == Waiting(false) && t.lock
                           && p !in t.k.queue && t.k.current != p
            else t == s
  {
    if s.lock {
      S.ScheduleKeeps(S.Mark(s.k, S.Interrupt));
    } else {
      assert s.place[s.k.current := Outside] == s.place;
    }
  }

  // ---------- the critical sections of fs/super.c ----------

  /** What holders do in `fs/super.c`: assignments, and the unlock. Only interrupts come in between. */
  predicate Brief(s: State, e: Event)
    requires Enabled(s, e)
  {
    s.place[s.k.current].Holding? ==> e.UnlockSuper? || (e.Other? && (e.e.EvBill? || e.e.EvWake?))
  }

  ghost predicate BriefRun(s: State, es: seq<Event>)
    requires EnabledRun(s, es)
    decreases |es|
  {
    es == [] || (Brief(s, es[0]) && BriefRun(Apply(s, es[0]), es[1..]))
  }

  /** Nobody sleeps for the lock, and a holder is the running process. */
  ghost predicate Uncontended(s: State) {
    s.waiters == [] && forall p :: Holds(s, p) ==> p == s.k.current
  }

  lemma BriefKeeps(s: State, e: Event)
    requires Inv(s) && Uncontended(s) && Enabled(s, e) && Brief(s, e)
    ensures Uncontended(Apply(s, e))
    ensures e.LockSuper? || e.WaitOnSuper? ==> !s.lock
  {
    var t := Apply(s, e);
    match e {
      case UnlockSuper =>
        assert Holds(s, s.k.current);
        assert forall p :: Holds(t, p) ==> Holds(s, p) && p != s.k.current;
      case Other(e') =>
        assert forall p :: Holds(t, p) <==> Holds(s, p);
        if !s.place[s.k.current].Holding? {
          assert forall p :: !Holds(s, p);
        }
      case Resume =>
      case _ =>
        assert s.lock ==> exists p :: Holds(s, p);
        assert forall p :: Holds(t, p) ==> Holds(s, p) || p == s.k.current;
    }
  }

  /**
   With the critical sections of the source, over every run of the scheduler: nobody ever sleeps for the
   lock, and the lock byte is set only while its holder is the running process. So nobody is forgotten.
   */
  lemma {:induction false} NeverContended(s: State, es: seq<Event>)
    requires Inv(s) && Uncontended(s) && EnabledRun(s, es) && BriefRun(s, es)
    ensures var t := Run(s, es); Inv(t) && Uncontended(t) && NobodyForgotten(t) && (t.lock <==> Holds(t, t.k.current))
    decreases |es|
  {
    if es != [] {
      ApplyKeeps(s, es[0]);
      BriefKeeps(s, es[0]);
      NeverContended(Apply(s, es[0]), es[1..]);
    }
  }

  // ---------- callers that sleep while they hold the lock ----------

  /** An unlock throws a ready process out, or leaves a waiter unreadied, iff the condition fails. */
  lemma UnlockCutsIff(s: State)
    requires Inv(s) && Enabled(s, UnlockSuper)
    ensures (exists p :: (p in s.k.queue || p in s.waiters) && p !in Apply(s, UnlockSuper).k.queue)
            <==> !W.LosesNobody(s.k.queue, s.waiters)
  {
    W.WakeAllLosesNobodyIff(s.k, s.waiters);
    assert forall x :: x in s.waiters ==> 0 <= x;
  }

  /** The step leaves ready waiters ready, or the lock is taken. */
  ghost predicate SparesWaiters(s: State, e: Event)
    requires Enabled(s, e)
  {
    match e
    case UnlockSuper => W.FirstIsFirst(s.k.queue, s.waiters)
    case Other(EvWake(p)) => s.lock || W.NobodyBehind(s.k.queue, p, s.waiters)
    case _ => true
  }

  /** A step leaves a waiter asleep and unreadied, with the lock free, exactly when a wake-up cuts it off. */
  lemma StepForgetsIff(s: State, e: Event)
    requires Inv(s) && Enabled(s, e) && NobodyForgotten(s)
    ensures NobodyForgotten(Apply(s, e)) <==> SparesWaiters(s, e)
  {
    match e {
      case UnlockSuper => W.WaitersReadyIff(s.k, s.waiters);
      case Resume => LeaveKeeps(s, s.k.current);
      case Other(e') => OtherForgetsIff(s, e');
      case _ =>
    }
  }

  lemma WakeForgetsIff(s: State, p: nat)
    requires Inv(s) && Enabled(s, Other(S.EvWake(p))) && NobodyForgotten(s)
    ensures NobodyForgotten(Apply(s, Other(S.EvWake(p)))) <==> SparesWaiters(s, Other(S.EvWake(p)))
  {
    if !s.lock {
      W.WaitersStayReadyIff(S.Mark(s.k, S.Running), p, s.waiters);
    }
  }

  lemma OtherForgetsIff(s: State, e: S.Event)
    requires Inv(s) && Enabled(s, Other(e)) && NobodyForgotten(s)
    ensures NobodyForgotten(Apply(s, Other(e))) <==> SparesWaiters(s, Other(e))
  {
    match e {
      case EvWake(p) => WakeForgetsIff(s, p);
      case EvReturn => S.ScheduleKeeps(s.k);
      case EvSleep => S.ScheduleKeeps(S.Mark(s.k, S.Interrupt));
      case EvSchedule => S.ScheduleKeeps(s.k);
      case _ =>
    }
  }

  ghost predicate Throughout(s: State, es: seq<Event>)
    requires EnabledRun(s, es)
    decreases |es|
  {
    NobodyForgotten(s) && (es == [] || Throughout(Apply(s, es[0]), es[1..]))
  }

  ghost predicate SparesWaitersRun(s: State, es: seq<Event>)
    requires EnabledRun(s, es)
    decreases |es|
  {
    es == [] || (SparesWaiters(s, es[0]) && SparesWaitersRun(Apply(s, es[0]), es[1..]))
  }

  /** Over any run, nobody is forgotten at any time iff no wake-up cuts a waiter off while the lock is free. */
  lemma {:induction false} NobodyIsForgottenIff(s: State, es: seq<Event>)
    requires Inv(s) && NobodyForgotten(s) && EnabledRun(s, es)
    ensures Throughout(s, es) <==> SparesWaitersRun(s, es)
    decreases |es|
  {
    if es != [] {
      var t := Apply(s, es[0]);
      ApplyKeeps(s, es[0]);
      StepForgetsIff(s, es[0]);
      if NobodyForgotten(t) {
        NobodyIsForgottenIff(t, es[1..]);
      }
    }
  }

  /** The losing input: with the lock free, process 2 is woken while it is queued before waiter 3. */
  lemma ForgottenExample()
    ensures var i := S.Info(S.Running, S.SLICE, false);
            var s := State(S.State([1, 2, 3], 1, [i, i, i, i]), false, [3], [Outside, Outside, Outside, Waiting(true)]);
            var e := Other(S.EvWake(2));
            && Inv(s) && NobodyForgotten(s) && Enabled(s, e) && !NobodyForgotten(Apply(s, e))
  {
    var i := S.Info(S.Running, S.SLICE, false);
    var k: S.Kernel := S.State([1, 2, 3], 1, [i, i, i, i]);
    var s := State(k, false, [3], [Outside, Outside, Outside, Waiting(true)]);
    assert forall p :: !Holds(s, p);
    assert S.Index([1, 2, 3], 2) == 1 && [1, 2, 3][..2] == [1, 2];
    assert 3 in s.waiters && Apply(s, Other(S.EvWake(2))).k.queue == [1, 2];
  }

  /** A sleeper that gets the processor while the lock is free leaves the list and gets through. */
  lemma SleepersGetThrough(s: State)
    requires Inv(s) && !s.lock && s.place[s.k.current].Waiting?
    ensures Enabled(s, Resume)
    ensures var t := Apply(s, Resume); var p := s.k.current;
            && p !in t.waiters && t.k == s.k
            && (s.place[p].wantsLock ==> Holds(t, p) && t.lock) && (!s.place[p].wantsLock ==> !t.lock)
  {
    LeaveKeeps(s, s.k.current);
  }
}
