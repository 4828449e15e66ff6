/**
 The scheduler on the process table: the ready queue is linked through the entries, `readyTail` is
 stale while the queue is empty. Each method is proved against the value-level scheduler.
 */
module ReadyQueue {
  import opened Links
  import opened Sequences
  import S = Sched

  datatype Proc = Proc(next: int, info: S.Info)

  type Table = seq<Proc>

  ghost function NextOf(t: Table): (r: seq<int>)
    ensures |r| == |t| && forall i :: 0 <= i < |t| ==> r[i] == t[i].next
  {
    seq(|t|, i requires 0 <= i < |t| => t[i].next)
  }

  ghost function InfoOf(t: Table): (r: seq<S.Info>)
    ensures |r| == |t| && forall i :: 0 <= i < |t| ==> r[i] == t[i].info
  {
    seq(|t|, i requires 0 <= i < |t| => t[i].info)
  }

  ghost predicate Queue(t: Table, head: int, tail: int, queue: seq<int>) {
    && Chain(NextOf(t), head, queue) && Distinct(queue)
    && (queue != [] ==> tail == queue[|queue| - 1])
  }

  /** `Queue` depends on the links only. */
  lemma QueueFrame(t: Table, t': Table, head: int, tail: int, queue: seq<int>)
    requires Queue(t, head, tail, queue) && NextOf(t') == NextOf(t)
    ensures Queue(t', head, tail, queue)
  {
  }

  // ---------- the edits of the links ----------

  lemma AppendKeeps(t: Table, head: int, tail: int, queue: seq<int>, p: nat, t': Table)
    requires Queue(t, head, tail, queue) && p !in queue && p < |t|
    requires NextOf(t') == (if queue == [] then NextOf(t) else NextOf(t)[tail := p])[p := NIL]
    ensures Queue(t', if queue == [] then p else head, p, queue + [p])
  {
    if queue != [] {
      DistinctOthers(queue, |queue| - 1);
    }
    ChainAppend(NextOf(t), NextOf(t'), head, queue, p);
    InsertedDistinct(queue, |queue|, p, queue + [p]);
  }

  lemma RequeueKeeps(t: Table, head: int, tail: int, queue: seq<int>, p: nat, t': Table)
    requires Queue(t, head, tail, queue) && p in queue && p < |t|
    requires NextOf(t') == NextOf(t)[tail := p][p := NIL]
    ensures Queue(t', head, p, queue[..S.Index(queue, p) + 1])
  {
    var k := S.Index(queue, p);
    DistinctOthers(queue, |queue| - 1);
    DistinctOthers(queue, k);
    ChainCut(NextOf(t), NextOf(t'), head, queue, k);
    DistinctSlice(queue, 0, k + 1);
    assert queue[0..k + 1] == queue[..k + 1];
  }

  /** The table after lines 111-119. */
  ghost function ReadyTable(t: Table, head: int, tail: int, p: nat): Table
    requires p < |t| && (head != NIL ==> 0 <= tail < |t|)
  {
    var t' := if head == NIL then t else t[tail := t[tail].(next := p)];
    t'[p := t'[p].(next := NIL)]
  }

  lemma ReadyLinks(t: Table, head: int, tail: int, queue: seq<int>, p: nat, queue': seq<int>)
    requires Queue(t, head, tail, queue) && p < |t|
    requires queue' == if p in queue then queue[..S.Index(queue, p) + 1] else queue + [p]
    ensures (head == NIL <==> queue == []) && (head != NIL ==> 0 <= tail < |t|)
    ensures var t' := ReadyTable(t, head, tail, p);
            Queue(t', if head == NIL then p else head, p, queue') && InfoOf(t') == InfoOf(t)
  {
    var t' := ReadyTable(t, head, tail, p);
    assert NextOf(t') == (if queue == [] then NextOf(t) else NextOf(t)[tail := p])[p := NIL];
    if p in queue {
      RequeueKeeps(t, head, tail, queue, p, t');
    } else {
      AppendKeeps(t, head, tail, queue, p, t');
    }
  }

  lemma RotateKeeps(t: Table, head: int, tail: int, queue: seq<int>, t': Table)
    requires Queue(t, head, tail, queue) && queue != []
    requires NextOf(t') == NextOf(t)[tail := head][head := NIL]
    ensures Queue(t', NextOf(t)[tail := head][head], head, queue[1..] + [queue[0]])
  {
    DistinctOthers(queue, |queue| - 1);
    DistinctOthers(queue, 0);
    ChainPop(NextOf(t), head, queue);
    assert NextOf(t)[queue[0]] == if |queue| > 1 then queue[1] else NIL;
    ChainAppend(NextOf(t), NextOf(t'), NextOf(t)[head], queue[1..], queue[0]);
    S.RotateDistinct(queue);
  }

  lemma DropHeadKeeps(t: Table, head: int, tail: int, queue: seq<int>)
    requires Queue(t, head, tail, queue) && queue != []
    ensures Queue(t, NextOf(t)[head], tail, queue[1..])
  {
    ChainPop(NextOf(t), head, queue);
    DistinctSlice(queue, 1, |queue|);
    assert queue[1..|queue|] == queue[1..];
  }

  lemma UnlinkKeeps(t: Table, head: int, tail: int, queue: seq<int>, k: nat, t': Table)
    requires Queue(t, head, tail, queue) && k + 1 < |queue|
    requires NextOf(t') == NextOf(t)[queue[k] := NextOf(t)[queue[k + 1]]]
    ensures Queue(t', head, if tail == queue[k + 1] then queue[k] else tail, queue[..k + 1] + queue[k + 2..])
  {
    var queue' := queue[..k + 1] + queue[k + 2..];
    ChainRemove(NextOf(t), head, queue, k, queue');
    S.RemoveDistinct(queue, k + 1);
    DistinctOthers(queue, k + 1);
  }

  class Scheduler {
    const tab: array<Proc>
    var readyHead: int
    var readyTail: int
    var current: nat
    ghost var queue: seq<int>

    ghost predicate Valid()
      reads this, tab
    {
      && 0 < tab.Length && current < tab.Length
      && Queue(tab[..], readyHead, readyTail, queue)
    }

    ghost function Abs(): S.Kernel
      requires Valid()
      reads this, tab
    {
      S.State(queue, current, InfoOf(tab[..]))
    }

    /** `proc_init`: the idle task runs, the init task is queued. */
    constructor (tasks: nat)
      requires tasks >= 2
      ensures Valid() && fresh(tab) && tab.Length == tasks
      ensures S.Initial(Abs()) && S.Inv(Abs())
    {
      tab := new Proc[tasks](_ => Proc(NIL, S.Info(S.Running, S.SLICE, false)));
      readyHead, readyTail, current, queue := NIL, NIL, S.IDLE, [];
      new;
      var t := 0;
      while t < 2
        invariant 0 <= t <= 2 && Valid() && current == S.IDLE && fresh(tab)
        invariant queue == (if t == 2 then [1] else [])
        invariant forall i :: 0 <= i < tasks ==> tab[i].info == S.Info(S.Running, S.SLICE, false)
      {
        ghost var infos := InfoOf(tab[..]);
        ProcReady(t);
        assert InfoOf(tab[..]) == infos;
        assert forall i :: 0 <= i < tasks ==> tab[i].info == InfoOf(tab[..])[i];
        t := t + 1;
      }
      SetInfo(S.IDLE, tab[S.IDLE].info.(needResched := true));
    }

    /** `proc_ready`. */
    method ProcReady(rp: nat)
      requires Valid() && rp < tab.Length
      modifies this`readyHead, this`readyTail, this`queue, tab
      ensures Valid() && Abs() == S.Ready(old(Abs()), rp)
    {
      if rp == S.IDLE { return; }
      ghost var q := if rp in queue then queue[..S.Index(queue, rp) + 1] else queue + [rp];
      LinkLast(rp, q);
    }

    /** Lines 111-120. */
    method LinkLast(rp: nat, ghost q: seq<int>)
      requires Valid() && rp < tab.Length
      requires q == if rp in queue then queue[..S.Index(queue, rp) + 1] else queue + [rp]
      modifies this`readyHead, this`readyTail, this`queue, tab
      ensures Valid() && queue == q && InfoOf(tab[..]) == InfoOf(old(tab[..]))
    {
      ghost var t := tab[..];
      ReadyLinks(t, readyHead, readyTail, queue, rp, q);
      if readyHead != NIL {
        tab[readyTail] := tab[readyTail].(next := rp);
      } else {
        readyHead := rp;
      }
      tab[rp] := tab[rp].(next := NIL);
      assert tab[..] == ReadyTable(t, old(readyHead), readyTail, rp);
      readyTail := rp;
      queue := q;
    }

    /** `pick_proc`. */
    method PickProc() returns (p: nat)
      requires Valid()
      ensures p == S.Pick(Abs())
    {
      if readyHead != NIL {
        return readyHead;
      }
      return S.IDLE;
    }

    /** `proc_block`; the source follows `ready_head` without a test, so the queue must not be empty. */
    method ProcBlock(bp: nat)
      requires Valid() && bp < tab.Length && (queue != [] || bp == S.IDLE)
      modifies this`readyHead, this`readyTail, this`current, this`queue, tab
      ensures Valid() && Abs() == S.Block(old(Abs()), bp)
    {
      if bp == S.IDLE { return; }
      var hp := readyHead;
      ghost var t := tab[..];
      if hp == bp {
        DropHeadKeeps(t, readyHead, readyTail, queue);
        readyHead := tab[hp].next;
        queue := queue[1..];
        current := PickProc();
        return;
      }
      ghost var k := 0;
      while tab[hp].next != bp
        invariant 0 <= k < |queue| && hp == queue[k] && tab[..] == t
        invariant forall i :: 0 <= i <= k ==> queue[i] != bp
        decreases |queue| - k
      {
        assert NextOf(t)[queue[k]] == tab[hp].next;
        hp := tab[hp].next;
        if hp == NIL {
          return;
        }
        k := k + 1;
      }
      assert NextOf(t)[queue[k]] == bp;
      tab[hp] := tab[hp].(next := tab[tab[hp].next].next);
      assert NextOf(tab[..]) == NextOf(t)[queue[k] := NextOf(t)[queue[k + 1]]];
      assert InfoOf(tab[..]) == InfoOf(t);
      UnlinkKeeps(t, readyHead, readyTail, queue, k, tab[..]);
      if readyTail == bp {
        readyTail := hp;
      }
      queue := queue[..k + 1] + queue[k + 2..];
    }

    /** `RoundRobin`; it moves the head of the queue but refills the slice of `current`. */
    method RoundRobin()
      requires Valid()
      modifies this`readyHead, this`readyTail, this`queue, tab
      ensures Valid() && Abs() == S.RoundRobin(old(Abs()))
    {
      if readyHead == NIL { return; }
      if tab[current].info.counter <= 0 {
        Rotate();
        SetInfo(current, tab[current].info.(counter := S.SLICE));
      }
    }

    /** Lines 188-191. */
    method Rotate()
      requires Valid() && queue != []
      modifies this`readyHead, this`readyTail, this`queue, tab
      ensures Valid() && queue == old(queue)[1..] + [old(queue)[0]]
      ensures InfoOf(tab[..]) == InfoOf(old(tab[..]))
    {
      ghost var t := tab[..];
      ghost var t' := t[readyTail := t[readyTail].(next := readyHead)];
      ghost var t'' := t'[readyHead := t'[readyHead].(next := NIL)];
      assert NextOf(t') == NextOf(t)[readyTail := readyHead];
      assert NextOf(t'') == NextOf(t)[readyTail := readyHead][readyHead := NIL];
      assert InfoOf(t'') == InfoOf(t);
      RotateKeeps(t, readyHead, readyTail, queue, t'');
      tab[readyTail] := tab[readyTail].(next := readyHead);
      readyTail := readyHead;
      readyHead := tab[readyHead].next;
      tab[readyTail] := tab[readyTail].(next := NIL);
      assert tab[..] == t'';
      queue := queue[1..] + [queue[0]];
    }

    method SetInfo(p: nat, info: S.Info)
      requires Valid() && p < tab.Length
      modifies tab
      ensures Valid() && Abs() == old(Abs()).(procs := old(Abs()).procs[p := info])
    {
      ghost var t := tab[..];
      tab[p] := tab[p].(info := info);
      assert tab[..] == t[p := t[p].(info := info)];
      QueueFrame(t, tab[..], readyHead, readyTail, queue);
    }

    /** `bill_process_time`. */
    method BillProcessTime()
      requires Valid()
      modifies tab
      ensures Valid() && Abs() == S.Bill(old(Abs()))
    {
      var info := tab[current].info;
      if current == S.IDLE {
        SetInfo(current, info.(needResched := true));
        return;
      }
      if info.counter > 0 {
        SetInfo(current, info.(counter := info.counter - 1));
      } else {
        SetInfo(current, info.(needResched := true));
      }
    }

    /** `schedule`, up to the stack switch: `current` is then the process that goes on. */
    method Schedule()
      requires Valid() && (queue != [] || current == S.IDLE)
      modifies this`readyHead, this`readyTail, this`current, this`queue, tab
      ensures Valid() && Abs() == S.Schedule(old(Abs()))
    {
      var curr := current;
      RoundRobin();
      match tab[curr].info.status {
        case Interrupt => ProcBlock(curr);
        case Stopped => ProcBlock(curr);
        case Running =>
      }
      SetInfo(curr, tab[curr].info.(needResched := false));
      var next := PickProc();
      if curr != next {
        current := next;
        SetInfo(current, tab[current].info.(needResched := false));
      }
    }

    /** The scheduling side of `sleep_on`. */
    method Sleep()
      requires Valid() && queue != []
      modifies this`readyHead, this`readyTail, this`current, this`queue, tab
      ensures Valid() && Abs() == S.Sleep(old(Abs()))
    {
      SetInfo(current, tab[current].info.(status := S.Interrupt));
      Schedule();
    }

    /** Line 23 of `do_exit`: the exiting process is marked, and goes on with interrupts on. */
    method Stop()
      requires Valid()
      modifies tab
      ensures Valid() && Abs() == S.Mark(old(Abs()), S.Stopped)
    {
      SetInfo(current, tab[current].info.(status := S.Stopped));
    }

    /** `wake_up_process`, with the status written to the running process as the source has it. */
    method WakeUpProcess(p: nat)
      requires Valid() && p < tab.Length
      modifies this`readyHead, this`readyTail, this`queue, tab
      ensures Valid() && Abs() == S.WakeProcess(old(Abs()), p)
    {
      SetInfo(current, tab[current].info.(status := S.Running));
      ProcReady(p);
    }

    /** The check of `ret_with_schedule` on the way back to user mode. */
    method ReturnToUser()
      requires Valid() && (queue != [] || current == S.IDLE)
      modifies this`readyHead, this`readyTail, this`current, this`queue, tab
      ensures Valid() && Abs() == S.UserReturn(old(Abs()))
    {
      if tab[current].info.needResched {
        Schedule();
      }
    }
  }
}
