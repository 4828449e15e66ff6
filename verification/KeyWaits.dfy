/**
 The keyboard on top of the scheduler: `kb_read` sleeps while the ring is empty, and every key interrupt
 that brings a wanted code wakes the whole list of readers, also those that are ready already.
 */
module KeyWaits {
  import opened Sequences
  import K = Keyboard
  import S = Sched
  import W = Wakeups

  /** `waiters` is `kb_wait_list`, most recent sleeper first. */
  datatype State = State(keymap: seq<K.Key>, b: K.State, k: S.Kernel, waiters: seq<nat>)

  /** A key interrupt, a call of `kb_read`, its return from `sleep_on`, or any other event of the scheduler. */
  datatype Event = Keys(codes: seq<nat>) | KbRead | Resume | Other(e: S.Event)

  predicate Shape(s: State) {
    K.Inv(s.keymap, s.b) && forall i :: 0 <= i < |s.waiters| ==> s.waiters[i] < |s.k.procs|
  }

  /** A reader that comes back in `sleep_on` resumes there; only interrupts can come before that. */
  predicate Enabled(s: State, e: Event) {
    Shape(s) &&
    match e
    case Keys(cs) => cs != [] && K.Codes(cs)
    case KbRead => s.k.current !in s.waiters && s.k.current != S.IDLE
    case Resume => s.k.current in s.waiters
    case Other(e') => S.Enabled(s.k, e') && (s.k.current in s.waiters ==> e'.EvBill? || e'.EvWake?)
  }

  /** The loop of `kb_read`: sleep while there is no code, else take one. */
  function Test(s: State): State
    requires Shape(s)
  {
    if s.b.count == 0 then s.(k := S.Sleep(s.k), waiters := [s.k.current] + s.waiters)
    else s.(b := K.Read(s.keymap, s.b))
  }

  function Apply(s: State, e: Event): State
    requires Enabled(s, e)
  {
    match e
    case Keys(cs) =>
      var code := cs[|cs| - 1];
      s.(b := K.Interrupt(s.b, code), k := if K.Skipped(code) then s.k else W.WakeAll(s.k, s.waiters))
    case KbRead => Test(s)
    case Resume =>
      var t := s.(waiters := W.Off(s.waiters, s.k.current));
      assert forall i :: 0 <= i < |t.waiters| ==> t.waiters[i] in s.waiters;
      Test(t)
    case Other(e') => s.(k := S.Apply(s.k, e'))
  }

  ghost predicate Inv(s: State) {
    Shape(s) && S.Inv(s.k) && Distinct(s.waiters) && S.IDLE !in s.waiters
  }

  /** Nobody sleeps unreadied while there is a code to read. */
  ghost predicate NobodyForgotten(s: State) {
    s.b.count > 0 ==> forall p :: p in s.waiters ==> p in s.k.queue
  }

  lemma TestKeeps(s: State)
    requires Inv(s) && s.k.current !in s.waiters && s.k.current != S.IDLE
    ensures Inv(Test(s)) && (NobodyForgotten(s) ==> NobodyForgotten(Test(s)))
  {
    if s.b.count == 0 {
      S.ScheduleKeeps(S.Mark(s.k, S.Interrupt));
      InsertedDistinct(s.waiters, 0, s.k.current, [s.k.current] + s.waiters);
    } else {
      K.ReadKeeps(s.keymap, s.b);
    }
  }

  lemma LeaveKeeps(s: State)
    requires Inv(s) && s.k.current in s.waiters
    ensures var t := s.(waiters := W.Off(s.waiters, s.k.current));
            Inv(t) && t.k.current !in t.waiters && (NobodyForgotten(s) ==> NobodyForgotten(t))
  {
    W.OffKeeps(s.waiters, s.k.current);
    var t := s.(waiters := W.Off(s.waiters, s.k.current));
    assert forall i :: 0 <= i < |t.waiters| ==> t.waiters[i] in s.waiters;
  }

  lemma ApplyKeeps(s: State, e: Event)
    requires Inv(s) && Enabled(s, e)
    ensures Inv(Apply(s, e))
  {
    match e {
      case Keys(cs) =>
        K.InterruptKeeps(s.keymap, s.b, cs[|cs| - 1]);
        W.WakeAllKeeps(s.k, s.waiters);
      case KbRead => TestKeeps(s);
      case Resume =>
        LeaveKeeps(s);
        TestKeeps(s.(waiters := W.Off(s.waiters, s.k.current)));
      case Other(e') => S.ApplyKeeps(s.k, e');
    }
  }

  // ---------- what a reader gets ----------

  /** One more character, which is what the codes accepted so far mean, and nobody else is affected. */
  ghost predicate GotOne(s: State, t: State) {
    && t.k == s.k && t.keymap == s.keymap && t.b.accepted == s.b.accepted && t.b.count == s.b.count - 1
    && |t.b.returned| == |s.b.returned| + 1 <= |s.b.accepted| && t.b.returned[..|s.b.returned|] == s.b.returned
    && |s.keymap| == K.ROWS && K.Codes(s.b.accepted)
    && t.b.returned[|s.b.returned|] == K.Meant(s.keymap, s.b.accepted[..|t.b.returned|])
  }

  /** The running process, in `kb_read` for the first time or again, takes a code, or sleeps first on the list. */
  lemma ReaderGets(s: State, e: Event)
    requires Inv(s) && Enabled(s, e) && (e.KbRead? || e.Resume?)
    ensures var t, p := Apply(s, e), s.k.current;
            if s.b.count > 0 then GotOne(s, t) && p !in t.waiters && forall x :: x in s.waiters && x != p ==> x in t.waiters
            else && t.b == s.b && t.waiters != [] && t.waiters[0] == p && p !in t.k.queue
                 && forall x :: x in s.waiters ==> x in t.waiters
  {
    var p, t := s.k.current, Apply(s, e);
    W.OffKeeps(s.waiters, p);
    ApplyKeeps(s, e);
    S.ScheduleKeeps(S.Mark(s.k, S.Interrupt));
    if s.b.count > 0 {
      K.ReadKeeps(s.keymap, s.b);
      K.ReturnedIsMeant(s.keymap, t.b);
    }
  }

  // ---------- what a key interrupt does to the ready queue ----------

  /** A key interrupt throws a ready process out, or leaves a reader unreadied, iff the condition fails. */
  lemma KeyCutsIff(s: State, codes: seq<nat>)
    requires Inv(s) && Enabled(s, Keys(codes)) && !K.Skipped(codes[|codes| - 1])
    ensures (exists p :: (p in s.k.queue || p in s.waiters) && p !in Apply(s, Keys(codes)).k.queue)
            <==> !W.LosesNobody(s.k.queue, s.waiters)
  {
    W.WakeAllLosesNobodyIff(s.k, s.waiters);
    assert forall x :: x in s.waiters ==> 0 <= x;
  }

  /** The step leaves ready readers ready, or there is nothing to read. */
  ghost predicate SparesWaiters(s: State, e: Event)
    requires Enabled(s, e)
  {
    match e
    case Keys(cs) => K.Skipped(cs[|cs| - 1]) || W.FirstIsFirst(s.k.queue, s.waiters)
    case Other(EvWake(p)) => s.b.count == 0 || W.NobodyBehind(s.k.queue, p, s.waiters)
    case _ => true
  }

  /** A step leaves a reader asleep and unreadied, with a code in the ring, exactly when a wake-up cuts it off. */
  lemma StepForgetsIff(s: State, e: Event)
    requires Inv(s) && Enabled(s, e) && NobodyForgotten(s)
    ensures NobodyForgotten(Apply(s, e)) <==> SparesWaiters(s, e)
  {
    match e {
      case Keys(cs) => W.WaitersReadyIff(s.k, s.waiters);
      case KbRead => TestKeeps(s);
      case Resume =>
        LeaveKeeps(s);
        TestKeeps(s.(waiters := W.Off(s.waiters, s.k.current)));
      case Other(e') => OtherForgetsIff(s, e');
    }
  }

  lemma WakeForgetsIff(s: State, p: nat)
    requires Inv(s) && Enabled(s, Other(S.EvWake(p))) && NobodyForgotten(s)
    ensures NobodyForgotten(Apply(s, Other(S.EvWake(p)))) <==> SparesWaiters(s, Other(S.EvWake(p)))
  {
    ReadyForgetsIff(s.b.count, s.k, p, s.waiters);
  }

  lemma ReadyForgetsIff(count: nat, k: S.Kernel, p: nat, ws: seq<nat>)
    requires S.Inv(k) && p < |k.procs| && (count > 0 ==> forall x :: x in ws ==> x in k.queue)
    ensures (count > 0 ==> forall x :: x in ws ==> x in S.WakeProcess(k, p).queue)
            <==> count == 0 || W.NobodyBehind(k.queue, p, ws)
  {
    if count > 0 {
      W.WaitersStayReadyIff(S.Mark(k, S.Running), p, ws);
    }
  }

  lemma OtherForgetsIff(s: State, e: S.Event)
    requires Inv(s) && Enabled(s, Other(e)) && NobodyForgotten(s)
    ensures NobodyForgotten(Apply(s, Other(e))) <==> SparesWaiters(s, Other(e))
  {
    match e {
      case EvWake(p) => WakeForgetsIff(s, p);
      case EvReturn => S.ScheduleKeeps(s.k);
      case EvSleep => S.ScheduleKeeps(S.Mark(s.k, S.Interrupt));
      case EvSchedule => S.ScheduleKeeps(s.k);
      case _ =>
    }
  }

  ghost predicate EnabledRun(s: State, es: seq<Event>)
    decreases |es|
  {
    es == [] || (Enabled(s, es[0]) && EnabledRun(Apply(s, es[0]), es[1..]))
  }

  ghost function Run(s: State, es: seq<Event>): State
    requires EnabledRun(s, es)
    decreases |es|
  {
    if es == [] then s else Run(Apply(s, es[0]), es[1..])
  }

  ghost predicate Throughout(s: State, es: seq<Event>)
    requires EnabledRun(s, es)
    decreases |es|
  {
    NobodyForgotten(s) && (es == [] || Throughout(Apply(s, es[0]), es[1..]))
  }

  ghost predicate SparesWaitersRun(s: State, es: seq<Event>)
    requires EnabledRun(s, es)
    decreases |es|
  {
    es == [] || (SparesWaiters(s, es[0]) && SparesWaitersRun(Apply(s, es[0]), es[1..]))
  }

  /** Over any run, no reader sleeps unreadied on a filled ring at any time iff no wake-up cuts one off. */
  lemma {:induction false} ReadersAreReadyIff(s: State, es: seq<Event>)
    requires Inv(s) && NobodyForgotten(s) && EnabledRun(s, es)
    ensures Inv(Run(s, es))
    ensures Throughout(s, es) <==> SparesWaitersRun(s, es)
    decreases |es|
  {
    if es != [] {
      var t := Apply(s, es[0]);
      ApplyKeeps(s, es[0]);
      StepForgetsIff(s, es[0]);
      if NobodyForgotten(t) {
        ReadersAreReadyIff(t, es[1..]);
      } else {
        RunKeeps(t, es[1..]);
      }
    }
  }

  lemma {:induction false} RunKeeps(s: State, es: seq<Event>)
    requires Inv(s) && EnabledRun(s, es)
    ensures Inv(Run(s, es)) && Run(s, es).keymap == s.keymap
    decreases |es|
  {
    if es != [] {
      ApplyKeeps(s, es[0]);
      RunKeeps(Apply(s, es[0]), es[1..]);
    }
  }

  // ---------- two codes of one key ----------

  /** Init sleeps for the disk, process 2 for a key; the key is pressed, and the disk is done. */
  const PRESS: seq<Event> := [Other(S.EvSleep), KbRead, Keys([0x1E]), Other(S.EvWake(1))]

  /** The events `es` lead from `s` to `t`. */
  ghost predicate Leads(s: State, es: seq<Event>, t: State) {
    EnabledRun(s, es) && Run(s, es) == t
  }

  lemma LeadsOn(s: State, es: seq<Event>, t: State)
    requires es != [] && Enabled(s, es[0]) && Leads(Apply(s, es[0]), es[1..], t)
    ensures Leads(s, es, t)
  {
  }

  ghost predicate Goes(s: State, e: Event, t: State) {
    Enabled(s, e) && Apply(s, e) == t
  }

  lemma TwoSteps(s: State, es: seq<Event>, a: State, t: State)
    requires |es| == 2 && Goes(s, es[0], a) && Goes(a, es[1], t)
    ensures Leads(s, es, t)
  {
    assert es[1..][0] == es[1] && es[1..][1..] == [];
    LeadsOn(a, es[1..], t);
  }

  lemma FourSteps(s: State, es: seq<Event>, a: State, b: State, c: State, t: State)
    requires |es| == 4 && Goes(s, es[0], a) && Goes(a, es[1], b) && Goes(b, es[2], c) && Goes(c, es[3], t)
    ensures Leads(s, es, t)
  {
    assert es[1..][0] == es[1] && es[1..][1..] == es[2..];
    TwoSteps(b, es[2..], c, t);
    LeadsOn(a, es[1..], t);
    LeadsOn(s, es, t);
  }

  /** Process 2 finds no key and sleeps. */
  lemma ReaderSleeps(s: State) returns (t: State)
    requires Inv(s) && s.b.count == 0 && s.waiters == [] && s.k.queue == [1, 2, 3] && s.k.current == 1
    requires |s.k.procs| > 3 && s.k.procs[1].counter == s.k.procs[2].counter == S.SLICE
    ensures Enabled(s, Other(S.EvSleep)) && Enabled(Apply(s, Other(S.EvSleep)), KbRead)
    ensures t == Apply(Apply(s, Other(S.EvSleep)), KbRead) && Inv(t) && t.b == s.b
    ensures t.k.queue == [3] && t.k.current == 3 && t.waiters == [2] && |t.k.procs| == |s.k.procs|
  {
    var a := Apply(s, Other(S.EvSleep));
    assert a.k.queue == [2, 3] && a.k.current == 2 && a.k.procs[2].counter == S.SLICE;
    ApplyKeeps(s, Other(S.EvSleep));
    t := Apply(a, KbRead);
    ApplyKeeps(a, KbRead);
    assert [2] + a.waiters == [2];
  }

  lemma PressReadies(k: S.Kernel)
    requires k.queue == [3] && |k.procs| > 3
    ensures var t := W.WakeAll(k, [2]); t.queue == [3, 2] && t.current == k.current && |t.procs| == |k.procs|
  {
    W.WakeOne(k, 2);
  }

  lemma ReleaseCuts(k: S.Kernel)
    requires k.queue == [3, 2, 1] && |k.procs| > 3
    ensures W.WakeAll(k, [2]).queue == [3, 2]
  {
    W.WakeOne(k, 2);
    assert S.Index([3, 2, 1], 2) == 1 && [3, 2, 1][..2] == [3, 2];
  }

  /** The press readies the reader. */
  lemma Press(s: State) returns (a: State)
    requires Inv(s) && s.k.queue == [3] && s.waiters == [2] && |s.k.procs| > 3
    ensures Goes(s, Keys([0x1E]), a) && Inv(a)
    ensures a.k.queue == [3, 2] && a.k.current == s.k.current && a.waiters == [2] && |a.k.procs| == |s.k.procs|
  {
    a := Apply(s, Keys([0x1E]));
    ApplyKeeps(s, Keys([0x1E]));
    PressReadies(s.k);
  }

  /** The disk readies init behind the reader, and the release throws init out. */
  lemma Release(a: State) returns (b: State, t: State)
    requires Inv(a) && a.k.queue == [3, 2] && a.k.current !in a.waiters && a.waiters == [2] && |a.k.procs| > 3
    ensures Goes(a, Other(S.EvWake(1)), b) && b.k.queue == [3, 2, 1]
    ensures Goes(b, Keys([0x9E]), t) && t.k.queue == [3, 2]
  {
    b := Apply(a, Other(S.EvWake(1)));
    ApplyKeeps(a, Other(S.EvWake(1)));
    t := Apply(b, Keys([0x9E]));
    ReleaseCuts(b.k);
  }

  lemma ForksKeep(k: S.Kernel)
    requires S.Initial(k) && |k.procs| > 3
    ensures S.Inv(S.Fork(S.Fork(S.UserReturn(k), 2), 3))
  {
    var t := W.TwoChildren(k);
    assert forall i, j :: 0 <= i < 3 && 0 <= j < 3 && i != j ==> [1, 2, 3][i] != [1, 2, 3][j];
    assert t.procs[S.IDLE].counter == k.procs[S.IDLE].counter;
  }

  lemma Start(k: S.Kernel, keymap: seq<K.Key>, ring: seq<nat>) returns (s: State)
    requires S.Initial(k) && |k.procs| > 3 && |keymap| == K.ROWS && ring != [] && K.Codes(ring)
    ensures s == State(keymap, K.State(ring, 0, 0, 0, K.OFF, [], []), S.Fork(S.Fork(S.UserReturn(k), 2), 3), [])
    ensures Inv(s) && s.k.queue == [1, 2, 3] && s.k.current == 1 && |s.k.procs| > 3
    ensures s.k.procs[1].counter == s.k.procs[2].counter == S.SLICE
  {
    var k' := W.TwoChildren(k);
    s := State(keymap, K.State(ring, 0, 0, 0, K.OFF, [], []), k', []);
    ForksKeep(k);
    K.KeysAreDecoded(keymap, ring, []);
  }

  /**
   From `proc_init` and `kb_init` on, with two forks of init: the release of a key throws init out of the
   ready queue, although it was readied by the disk and does not read the keyboard.
   */
  lemma SecondCodeCutsThirdProcess(k: S.Kernel, keymap: seq<K.Key>, ring: seq<nat>)
    returns (s: State, b: State, t: State)
    requires S.Initial(k) && |k.procs| > 3 && |keymap| == K.ROWS && ring != [] && K.Codes(ring)
    ensures s == State(keymap, K.State(ring, 0, 0, 0, K.OFF, [], []), S.Fork(S.Fork(S.UserReturn(k), 2), 3), [])
    ensures Inv(s) && Leads(s, PRESS, b) && b.k.queue == [3, 2, 1]
    ensures Goes(b, Keys([0x9E]), t) && t.k.queue == [3, 2]
  {
    s := Start(k, keymap, ring);
    var u := ReaderSleeps(s);
    var a := Press(u);
    b, t := Release(a);
    FourSteps(s, PRESS, Apply(s, Other(S.EvSleep)), u, a, b);
  }
}
