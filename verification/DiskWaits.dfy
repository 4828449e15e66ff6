/**
 The disk protocol on top of the scheduler: `do_read` runs in the running process, which goes to sleep once
 its request is counted, and each completion interrupt readies the process of its request.
 */
module DiskWaits {
  import opened Sequences
  import opened Rings
  import D = DiskProtocol
  import S = Sched

  datatype State = State(d: D.Disk, k: S.Kernel)

  /** A step of the protocol, or any other event of the scheduler. */
  datatype Event = Disk(e: D.Event) | Other(e': S.Event)

  /** The processes of the queued requests. */
  predicate Asks(d: D.Disk, p: int)
    requires D.Shape(d) && d.count <= |d.ring|
  {
    exists i :: 0 <= i < d.count && D.Queued(d)[i].waiter == p
  }

  /**
   A call names the running process as its waiter. Inside `do_read` only interrupts come in between, and
   nobody but the completion interrupt wakes a process that waits for the disk.
   */
  ghost predicate Enabled(s: State, e: Event) {
    D.Shape(s.d) && s.d.count <= |s.d.ring| &&
    match e
    case Disk(Call(r)) => D.Enabled(s.d, e.e) && r.waiter == s.k.current != S.IDLE
    case Disk(Complete) => D.Enabled(s.d, e.e) && s.d.ring[s.d.head].waiter < |s.k.procs|
    case Disk(_) => D.Enabled(s.d, e.e)
    case Other(e') => S.Enabled(s.k, e') && (e'.EvWake? ==> !Asks(s.d, e'.p))
                      && (!s.d.phase.Idle? ==> e'.EvBill? || e'.EvWake?)
  }

  ghost function Apply(s: State, e: Event): State
    requires Enabled(s, e)
  {
    match e
    case Disk(Enter) => State(D.Apply(s.d, D.Enter), S.Sleep(s.k))
    case Disk(Complete) => State(D.Apply(s.d, D.Complete), S.WakeProcess(s.k, s.d.ring[s.d.head].waiter))
    case Disk(e') => State(D.Apply(s.d, e'), s.k)
    case Other(e') => State(s.d, S.Apply(s.k, e'))
  }

  /** The process in `do_read` is running; those of the queued requests are different, and all off the ready queue. */
  ghost predicate Inv(s: State) {
    && D.Inv(s.d) && S.Inv(s.k)
    && (!s.d.phase.Idle? ==> s.d.phase.req.waiter == s.k.current != S.IDLE)
    && var q := D.Queued(s.d);
       && (forall i :: 0 <= i < |q| ==> q[i].waiter < |s.k.procs| && q[i].waiter != S.IDLE && q[i].waiter !in s.k.queue)
       && (forall i, j :: 0 <= i < j < |q| ==> q[i].waiter != q[j].waiter)
  }

  lemma QueuedAfterEnter(d: D.Disk)
    requires D.Inv(d) && D.Enabled(d, D.Enter)
    ensures D.Inv(D.Apply(d, D.Enter)) && D.Queued(D.Apply(d, D.Enter)) == D.Queued(d) + [d.phase.req]
  {
    D.EnterKeeps(d);
    WindowPut(d.ring, d.head, d.count, d.phase.req);
    assert d.ring[Wrap(d.head + d.count, |d.ring|) := d.phase.req] == d.ring;
  }

  lemma QueuedAfterComplete(d: D.Disk)
    requires D.Inv(d) && D.Enabled(d, D.Complete)
    ensures D.Inv(D.Apply(d, D.Complete)) && d.count > 0
    ensures D.Queued(d) == [d.ring[d.head]] + D.Queued(D.Apply(d, D.Complete))
  {
    D.CompleteKeeps(d);
    D.OldestFirst(d);
    WindowGet(d.ring, d.head, d.count);
  }

  lemma QueuedAfterStore(d: D.Disk, e: D.Event)
    requires D.Inv(d) && D.Enabled(d, e) && (e.Call? || e.Store? || e.Advance?)
    ensures D.Inv(D.Apply(d, e)) && D.Queued(D.Apply(d, e)) == D.Queued(d)
  {
    D.ApplyKeeps(d, e);
    if e.Store? {
      WindowPut(d.ring, d.head, d.count, D.Apply(d, e).ring[d.tail]);
    }
  }

  /** The completion interrupt readies a process that is not queued: it is appended, and nobody drops out. */
  lemma CompletionAppends(s: State)
    requires Inv(s) && D.Enabled(s.d, D.Complete)
    ensures Enabled(s, Disk(D.Complete))
    ensures var p := D.Queued(s.d)[0].waiter;
            p !in s.k.queue && Apply(s, Disk(D.Complete)).k.queue == s.k.queue + [p]
  {
    QueuedAfterComplete(s.d);
    assert D.Queued(s.d)[0] == s.d.ring[s.d.head];
  }

  lemma EnterKeeps(s: State)
    requires Inv(s) && Enabled(s, Disk(D.Enter))
    ensures Inv(Apply(s, Disk(D.Enter)))
  {
    QueuedAfterEnter(s.d);
    S.ScheduleKeeps(S.Mark(s.k, S.Interrupt));
    assert s.k.current in s.k.queue;
  }

  lemma CompleteKeeps(s: State)
    requires Inv(s) && Enabled(s, Disk(D.Complete))
    ensures Inv(Apply(s, Disk(D.Complete)))
  {
    CompletionAppends(s);
    QueuedAfterComplete(s.d);
    var q, t := D.Queued(s.d), Apply(s, Disk(D.Complete));
    S.ApplyKeeps(s.k, S.EvWake(q[0].waiter));
    assert forall i :: 0 <= i < |q| - 1 ==> D.Queued(t.d)[i] == q[i + 1];
  }

  lemma OtherKeeps(s: State, e: S.Event)
    requires Inv(s) && Enabled(s, Other(e))
    ensures Inv(Apply(s, Other(e)))
  {
    S.ApplyKeeps(s.k, e);
    match e {
      case EvWake(p) =>
        assert forall x :: x in S.Ready(s.k, p).queue ==> x == p || x in s.k.queue;
      case EvReturn => S.ScheduleKeeps(s.k);
      case EvSleep => S.ScheduleKeeps(S.Mark(s.k, S.Interrupt));
      case EvSchedule => S.ScheduleKeeps(s.k);
      case _ =>
    }
  }

  lemma ApplyKeeps(s: State, e: Event)
    requires Inv(s) && Enabled(s, e)
    ensures Inv(Apply(s, e))
  {
    match e {
      case Disk(Enter) => EnterKeeps(s);
      case Disk(Complete) => CompleteKeeps(s);
      case Disk(e') => QueuedAfterStore(s.d, e');
      case Other(e') => OtherKeeps(s, e');
    }
  }

  ghost predicate EnabledRun(s: State, es: seq<Event>)
    decreases |es|
  {
    es == [] || (Enabled(s, es[0]) && EnabledRun(Apply(s, es[0]), es[1..]))
  }

  ghost function Run(s: State, es: seq<Event>): State
    requires EnabledRun(s, es)
    decreases |es|
  {
    if es == [] then s else Run(Apply(s, es[0]), es[1..])
  }

  lemma {:induction false} RunKeeps(s: State, es: seq<Event>)
    requires Inv(s) && EnabledRun(s, es)
    ensures Inv(Run(s, es))
    decreases |es|
  {
    if es != [] {
      ApplyKeeps(s, es[0]);
      RunKeeps(Apply(s, es[0]), es[1..]);
    }
  }

  /**
   From `hd_init` and `proc_init` on: a process waiting for the disk is off the ready queue until its own
   completion, which then appends it, so completion interrupts never cut the queue.
   */
  lemma DiskNeverCuts(ring: seq<D.Request>, k: S.Kernel, es: seq<Event>)
    requires ring != [] && S.Inv(k) && EnabledRun(State(D.Initial(ring), k), es)
    ensures var s := Run(State(D.Initial(ring), k), es);
            && Inv(s) && (forall p :: Asks(s.d, p) ==> p !in s.k.queue)
            && (s.d.device.Some? ==>
                  && Enabled(s, Disk(D.Complete)) && s.d.count > 0
                  && Apply(s, Disk(D.Complete)).k.queue == s.k.queue + [D.Queued(s.d)[0].waiter])
  {
    var s0 := State(D.Initial(ring), k);
    assert s0.d.completed + D.Queued(s0.d) == [];
    RunKeeps(s0, es);
    var s := Run(s0, es);
    if s.d.device.Some? {
      CompletionAppends(s);
    }
  }
}
