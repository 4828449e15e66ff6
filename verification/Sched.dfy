/**
 The scheduler of `ker/proc.c` and `ker/schedule.c` on values: the ready queue as a sequence of process
 numbers, the running process, and each process's status, time slice and reschedule flag.
 */
module Sched {
  import opened Sequences

  /** `IDLE_TASK`, entry 0 of the process table. */
  const IDLE: nat := 0

  /** The first process; it may not exit. */
  const INIT: nat := 1

  /** The slice a process gets when it is rotated. */
  const SLICE: int := 10

  datatype Status = Running | Stopped | Interrupt

  datatype Info = Info(status: Status, counter: int, needResched: bool)

  datatype State = State(queue: seq<int>, current: nat, procs: seq<Info>)

  /** All process numbers are entries of the table. */
  predicate InTable(s: State) {
    && IDLE < |s.procs| && s.current < |s.procs|
    && forall i :: 0 <= i < |s.queue| ==> 0 <= s.queue[i] < |s.procs|
  }

  type Kernel = s: State | InTable(s) witness State([], 0, [Info(Running, 10, false)])

  function Index<T(==)>(q: seq<T>, p: T): (i: nat)
    ensures i <= |q| && (i < |q| <==> p in q) && (i < |q| ==> q[i] == p) && p !in q[..i]
  {
    if q == [] || q[0] == p then 0 else
      var i := 1 + Index(q[1..], p);
      assert q[..i] == [q[0]] + q[1..][..i - 1];
      i
  }

  // ---------- ker/proc.c ----------

  /**
   `proc_ready`: append. A process that is already queued becomes the last one where it stands, because
   its link is cleared: everything behind it leaves the queue.
   */
  function Ready(s: Kernel, p: nat): Kernel
    requires p < |s.procs|
  {
    if p == IDLE then s
    else if p in s.queue then s.(queue := s.queue[..Index(s.queue, p) + 1])
    else s.(queue := s.queue + [p])
  }

  function Pick(s: Kernel): nat {
    if s.queue == [] then IDLE else s.queue[0]
  }

  /** `proc_block`; it may only be called for the idle task when the queue is empty. */
  function Block(s: Kernel, p: nat): (r: Kernel)
    requires p < |s.procs|
    ensures r.procs == s.procs
  {
    if p == IDLE || s.queue == [] then s
    else if s.queue[0] == p then
      var s' := s.(queue := s.queue[1..]);
      s'.(current := Pick(s'))
    else if p in s.queue then
      var i := Index(s.queue, p);
      s.(queue := s.queue[..i] + s.queue[i + 1..])
    else s
  }

  function RoundRobin(s: Kernel): (r: Kernel)
    ensures |r.procs| == |s.procs| && r.current == s.current
  {
    if s.queue == [] || s.procs[s.current].counter > 0 then s
    else s.(queue := s.queue[1..] + [s.queue[0]],
            procs := s.procs[s.current := s.procs[s.current].(counter := SLICE)])
  }

  function Bill(s: Kernel): Kernel {
    var i := s.procs[s.current];
    var i' := if s.current != IDLE && i.counter > 0 then i.(counter := i.counter - 1) else i.(needResched := true);
    s.(procs := s.procs[s.current := i'])
  }

  // ---------- ker/schedule.c ----------

  function ClearResched(s: Kernel, p: nat): Kernel
    requires p < |s.procs|
  {
    s.(procs := s.procs[p := s.procs[p].(needResched := false)])
  }

  function Schedule(s: Kernel): (r: Kernel)
    ensures |r.procs| == |s.procs|
  {
    var curr := s.current;
    var s1 := RoundRobin(s);
    var s2 := if s1.procs[curr].status.Running? then s1 else Block(s1, curr);
    var s3 := ClearResched(s2, curr);
    var next := Pick(s3);
    if curr == next then s3 else ClearResched(s3.(current := next), next)
  }

  /** Line 100 writes the status of the running process, not of `p`. */
  function WakeProcess(s: Kernel, p: nat): Kernel
    requires p < |s.procs|
  {
    Ready(Mark(s, Running), p)
  }

  /** The running process changes its own status. */
  function Mark(s: Kernel, status: Status): Kernel {
    s.(procs := s.procs[s.current := s.procs[s.current].(status := status)])
  }

  /** `sleep_on` up to the switch (the wait list is modelled separately); interrupts are off throughout. */
  function Sleep(s: Kernel): Kernel {
    Schedule(Mark(s, Interrupt))
  }

  /**
   What a successful `do_fork` does here: the child in slot `c` starts as a copy of its parent, status
   included, with a full slice, and is readied.
   */
  function Fork(s: Kernel, c: nat): Kernel
    requires c < |s.procs|
  {
    WakeProcess(s.(procs := s.procs[c := s.procs[s.current].(counter := SLICE)]), c)
  }

  /** `ret_with_schedule`: the way back to user mode. */
  function UserReturn(s: Kernel): Kernel {
    if s.procs[s.current].needResched then Schedule(s) else s
  }

  // ---------- events ----------

  /**
   A timer interrupt in user mode is `EvBill` then `EvReturn`; in kernel mode it is `EvBill` alone. The end
   of `do_exit` is `EvStop`, which only marks the process, and later `EvSchedule`: it runs with interrupts
   on, so that other events come in between.
   */
  datatype Event = EvBill | EvReturn | EvWake(p: nat) | EvSleep | EvStop | EvSchedule

  /** The idle task makes no system calls, so it neither sleeps nor stops; `do_exit` panics for init, too. */
  predicate Enabled(s: Kernel, e: Event) {
    match e
    case EvWake(p) => p < |s.procs|
    case EvSleep => s.current != IDLE
    case EvStop => s.current > INIT
    case _ => true
  }

  function Apply(s: Kernel, e: Event): Kernel
    requires Enabled(s, e)
  {
    match e
    case EvBill => Bill(s)
    case EvReturn => UserReturn(s)
    case EvWake(p) => WakeProcess(s, p)
    case EvSleep => Sleep(s)
    case EvStop => Mark(s, Stopped)
    case EvSchedule => Schedule(s)
  }

  /** The running process is the head of a duplicate-free queue, or the idle task, which is never queued. */
  ghost predicate Inv(s: Kernel) {
    && Distinct(s.queue) && IDLE !in s.queue
    && (s.current == IDLE || (s.queue != [] && s.current == s.queue[0]))
    && s.procs[IDLE].counter > 0
  }

  /** The scheduler after `proc_init`. */
  predicate Initial(s: Kernel) {
    && |s.procs| >= 2 && s.queue == [INIT] && s.current == IDLE
    && s.procs[IDLE] == Info(Running, SLICE, true) && s.procs[1] == Info(Running, SLICE, false)
  }

  predicate EnabledRun(s: Kernel, es: seq<Event>)
    decreases |es|
  {
    es == [] || (Enabled(s, es[0]) && EnabledRun(Apply(s, es[0]), es[1..]))
  }

  function Run(s: Kernel, es: seq<Event>): Kernel
    requires EnabledRun(s, es)
    decreases |es|
  {
    if es == [] then s else Run(Apply(s, es[0]), es[1..])
  }

  // ---------- queue edits keep a queue a queue ----------

  lemma RotateDistinct<T>(q: seq<T>)
    requires Distinct(q) && q != []
    ensures Distinct(q[1..] + [q[0]]) && forall x :: x in q[1..] + [q[0]] <==> x in q
  {
    InsertedDistinct(q[1..], 0, q[0], q);
    InsertedDistinct(q[1..], |q| - 1, q[0], q[1..] + [q[0]]);
  }

  lemma RemoveDistinct<T>(q: seq<T>, i: nat)
    requires Distinct(q) && i < |q|
    ensures Distinct(q[..i] + q[i + 1..])
    ensures forall x :: x in q[..i] + q[i + 1..] <==> x in q && x != q[i]
  {
    InsertedDistinct(q[..i] + q[i + 1..], i, q[i], q);
  }

  lemma ReadyKeeps(s: Kernel, p: nat)
    requires Distinct(s.queue) && IDLE !in s.queue && p < |s.procs|
    ensures var q := Ready(s, p).queue;
            Distinct(q) && IDLE !in q && (s.queue != [] ==> q != [] && q[0] == s.queue[0])
  {
    if p in s.queue {
      DistinctSlice(s.queue, 0, Index(s.queue, p) + 1);
      assert s.queue[..Index(s.queue, p) + 1] == s.queue[0..Index(s.queue, p) + 1];
    } else {
      InsertedDistinct(s.queue, |s.queue|, p, s.queue + [p]);
    }
  }

  lemma RoundRobinKeeps(s: Kernel)
    requires Inv(s)
    ensures var r := RoundRobin(s);
            && Distinct(r.queue) && IDLE !in r.queue && r.procs[IDLE].counter > 0
            && (forall x :: x in r.queue <==> x in s.queue)
            && (r.queue != s.queue ==> s.current == s.queue[0] && r.queue == s.queue[1..] + [s.current])
  {
    if s.queue != [] {
      RotateDistinct(s.queue);
    }
  }

  lemma BlockKeeps(s: Kernel, p: nat)
    requires Distinct(s.queue) && p < |s.procs|
    ensures Distinct(Block(s, p).queue)
    ensures p != IDLE ==> forall x :: x in Block(s, p).queue <==> x in s.queue && x != p
  {
    if p in s.queue {
      RemoveDistinct(s.queue, Index(s.queue, p));
      assert s.queue[..0] + s.queue[1..] == s.queue[1..];
    }
  }

  /**
   Putting `p` back where it stood gives the old queue: the others keep their order. If `p` was the head, the
   next one runs.
   */
  lemma BlockTakesOut(s: Kernel, p: nat)
    requires p < |s.procs| && p != IDLE
    ensures if p in s.queue then Inserted(Block(s, p).queue, Index(s.queue, p), p, s.queue)
            else Block(s, p).queue == s.queue
    ensures Block(s, p).current == if s.queue == [] || s.queue[0] != p then s.current
                                   else if |s.queue| > 1 then s.queue[1] else 0
  {
    if p in s.queue && s.queue[0] == p {
      assert Index(s.queue, p) == 0;
    }
  }

  /** After `schedule`: the invariant, and idle runs exactly when nobody else is queued. */
  lemma ScheduleKeeps(s: Kernel)
    requires Inv(s)
    ensures Inv(Schedule(s)) && Schedule(s).current == Pick(Schedule(s))
    ensures Schedule(s).current == IDLE <==> Schedule(s).queue == []
    ensures forall x :: x in Schedule(s).queue <==>
                          x in s.queue && (x == s.current ==> s.procs[x].status.Running?)
  {
    RoundRobinKeeps(s);
    BlockKeeps(RoundRobin(s), s.current);
  }

  /** The queue after `schedule`: a used-up slice sends the head to the end, a status other than running out. */
  function NextQueue(s: Kernel): seq<int> {
    if s.current == IDLE || s.queue == [] then s.queue
    else if s.procs[s.current].counter > 0 then if s.procs[s.current].status.Running? then s.queue else s.queue[1..]
    else s.queue[1..] + if s.procs[s.current].status.Running? then [s.queue[0]] else []
  }

  lemma LastOut(s: Kernel)
    requires Inv(s) && s.current != IDLE
    ensures var r := s.queue[1..] + [s.current];
            && s.queue != [] && s.queue == [s.current] + s.queue[1..]
            && Index(r, s.current) == |s.queue| - 1 && r[..|s.queue| - 1] + r[|s.queue|..] == s.queue[1..]
  {
    var r := s.queue[1..] + [s.current];
    RotateDistinct(s.queue);
    DistinctOthers(r, |s.queue| - 1);
  }

  lemma ScheduleQueue(s: Kernel)
    requires Inv(s)
    ensures var t := Schedule(s); t.queue == NextQueue(s) && t.current == if t.queue == [] then 0 else t.queue[0]
  {
    if s.current != IDLE {
      LastOut(s);
      var r, c := RoundRobin(s), s.current;
      if s.procs[c].counter > 0 {
        assert r == s;
      } else if !s.procs[c].status.Running? {
        DroppedAtEnd(s);
      }
    }
  }

  /** The process that has used its slice up and is not running is rotated, and then taken out at the end. */
  lemma DroppedAtEnd(s: Kernel)
    requires Inv(s) && s.current != IDLE && s.procs[s.current].counter <= 0
    ensures Block(RoundRobin(s), s.current).queue == s.queue[1..]
  {
    LastOut(s);
    var r := RoundRobin(s);
    assert r.queue == s.queue[1..] + [s.current];
    if |s.queue| > 1 {
      DistinctOthers(s.queue, 0);
      assert r.queue[0] == s.queue[1];
    }
  }

  lemma ScheduleProcs(s: Kernel)
    requires Inv(s)
    ensures var t := Schedule(s);
            && |t.procs| == |s.procs|
            && forall x :: 0 <= x < |s.procs| ==>
                 && t.procs[x].status == s.procs[x].status
                 && t.procs[x].counter == (if x == s.current && s.procs[x].counter <= 0 then 10 else s.procs[x].counter)
                 && (t.procs[x].needResched <==> s.procs[x].needResched && x != s.current && x != t.current)
  {
  }

  /**
   All of what `schedule` does: the queue, who runs, a slice of ten ticks for a process that has used its own
   up, also if it is alone, and no pending reschedule for the old and the new process.
   */
  lemma ScheduleIs(s: Kernel)
    requires Inv(s)
    ensures var t := Schedule(s);
            && t.queue == NextQueue(s) && t.current == (if t.queue == [] then 0 else t.queue[0])
            && |t.procs| == |s.procs|
            && forall x :: 0 <= x < |s.procs| ==>
                 && t.procs[x].status == s.procs[x].status
                 && t.procs[x].counter == (if x == s.current && s.procs[x].counter <= 0 then 10 else s.procs[x].counter)
                 && (t.procs[x].needResched <==> s.procs[x].needResched && x != s.current && x != t.current)
  {
    ScheduleQueue(s);
    ScheduleProcs(s);
  }

  /** A sleeper is marked interruptible and leaves the queue; the next one runs. */
  lemma SleepIs(s: Kernel)
    requires Inv(s) && s.current != IDLE
    ensures var t := Sleep(s);
            && s.current !in t.queue && t.current != s.current && t.procs[s.current].status.Interrupt?
            && forall x :: x in s.queue && x != s.current ==> x in t.queue
  {
    ScheduleKeeps(Mark(s, Interrupt));
    ScheduleIs(Mark(s, Interrupt));
  }

  lemma ApplyKeeps(s: Kernel, e: Event)
    requires Inv(s) && Enabled(s, e)
    ensures Inv(Apply(s, e)) && |Apply(s, e).procs| == |s.procs|
  {
    match e {
      case EvBill =>
      case EvReturn => ScheduleKeeps(s);
      case EvWake(p) => ReadyKeeps(s, p);
      case EvSleep => ScheduleKeeps(Mark(s, Interrupt));
      case EvStop =>
      case EvSchedule => ScheduleKeeps(s);
    }
  }

  /** In every reachable state the running process heads the queue or is idle. */
  lemma {:induction false} RunKeeps(s: Kernel, es: seq<Event>)
    requires Inv(s) && EnabledRun(s, es)
    ensures Inv(Run(s, es)) && |Run(s, es).procs| == |s.procs|
    decreases |es|
  {
    if es != [] {
      ApplyKeeps(s, es[0]);
      RunKeeps(Apply(s, es[0]), es[1..]);
    }
  }
}
