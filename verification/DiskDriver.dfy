/**
 The driver state of `ker/hd.c` updated in place. `do_read` is cut at the points where the completion
 interrupt can arrive; each piece is proved to be the step of the protocol it stands for.
 */
module DiskDriver {
  import opened DiskProtocol
  import opened Options

  class Driver {
    const reqBuf: array<Request>
    var reqHead: nat
    var reqTail: nat
    var reqCount: nat
    /** The command the controller is working on. */
    var device: Option<Command>
    /** Where the process inside `do_read` stands. */
    ghost var phase: Phase
    ghost var accepted: seq<Request>
    ghost var completed: seq<Request>
    ghost var issued: seq<Command>
    ghost var deliveries: seq<Delivery>

    ghost function Abs(): Disk
      reads this, reqBuf
    {
      Disk(reqBuf[..], reqHead, reqTail, reqCount, phase, device, accepted, completed, issued, deliveries)
    }

    ghost predicate Valid()
      reads this, reqBuf
    {
      Inv(Abs())
    }

    /** `hd_init`. */
    constructor (size: nat, blank: Request)
      requires size > 0
      ensures Valid() && fresh(reqBuf) && reqBuf.Length == size && Abs() == Initial(reqBuf[..])
    {
      reqBuf := new Request[size](_ => blank);
      reqHead, reqTail, reqCount, device := 0, 0, 0, None;
      phase, accepted, completed, issued, deliveries := Idle, [], [], [], [];
      new;
      assert Abs().completed + Queued(Abs()) == [];
    }

    /** `do_request` with `do_readwrite`. */
    method DoRequest()
      requires Shape(Abs()) && reqCount <= reqBuf.Length
      modifies this`device, this`issued
      ensures Abs() == DiskProtocol.DoRequest(old(Abs()))
      ensures reqCount > 0 ==> device == Some(CommandOf(Queued(Abs())[0])) && issued == old(issued) + [device.value]
    {
      if reqCount > 0 {
        var c := CommandOf(reqBuf[reqHead]);
        device := Some(c);
        issued := issued + [c];
      }
    }

    /** Line 268; false is the -1 of a full ring. */
    method Call(r: Request) returns (ok: bool)
      requires Valid() && Enabled(Abs(), Event.Call(r))
      modifies this`phase
      ensures Valid() && Abs() == Apply(old(Abs()), Event.Call(r))
      ensures ok <==> reqCount < reqBuf.Length
    {
      ApplyKeeps(Abs(), Event.Call(r));
      ok := reqCount < reqBuf.Length;
      if ok {
        phase := Filling(r, 0);
      }
    }

    /** One of the assignments of lines 269-274. */
    method Store(r: Request, field: nat)
      requires Valid() && Enabled(Abs(), Event.Store) && phase == Filling(r, field)
      modifies reqBuf, this`phase
      ensures Valid() && Abs() == Apply(old(Abs()), Event.Store)
    {
      ApplyKeeps(Abs(), Event.Store);
      var slot := reqBuf[reqTail];
      match field {
        case 0 => slot := slot.(block := r.block);
        case 1 => slot := slot.(count := r.count);
        case 2 => slot := slot.(buf := r.buf);
        case 3 => slot := slot.(dev := r.dev);
        case 4 => slot := slot.(kind := READ);
        case _ => slot := slot.(waiter := r.waiter);
      }
      ghost var ring := reqBuf[..];
      reqBuf[reqTail] := slot;
      assert reqBuf[..] == ring[reqTail := slot];
      phase := Filling(r, field + 1);
    }

    /** Line 275. */
    method Advance()
      requires Valid() && Enabled(Abs(), Event.Advance)
      modifies this`reqTail, this`phase
      ensures Valid() && Abs() == Apply(old(Abs()), Event.Advance)
    {
      ApplyKeeps(Abs(), Event.Advance);
      reqTail := reqTail + 1;
      phase := Advanced(phase.req);
    }

    /** Lines 276-281, with interrupts off; the caller then sleeps. */
    method Enter()
      requires Valid() && Enabled(Abs(), Event.Enter)
      modifies this`reqCount, this`reqTail, this`device, this`phase, this`accepted, this`issued
      ensures Valid() && Abs() == Apply(old(Abs()), Event.Enter)
    {
      ApplyKeeps(Abs(), Event.Enter);
      reqCount := reqCount + 1;
      if reqTail == reqBuf.Length {
        reqTail := 0;
      }
      accepted := accepted + [phase.req];
      phase := Idle;
      if reqCount == 1 {
        DoRequest();
      }
    }

    /** `hd_handlerp` when the controller offers data; the process to wake is returned. */
    method HdHandler() returns (woken: nat)
      requires Valid() && Enabled(Abs(), Event.Complete)
      modifies this`reqCount, this`reqHead, this`device, this`completed, this`issued, this`deliveries
      ensures Valid() && Abs() == Apply(old(Abs()), Event.Complete)
      ensures old(reqCount) > 0 && woken == old(accepted)[|old(completed)|].waiter
      ensures device.Some? <==> reqCount > 0
    {
      ApplyKeeps(Abs(), Event.Complete);
      OldestFirst(Abs());
      ghost var t := Apply(Abs(), Event.Complete);
      var r := reqBuf[reqHead];
      deliveries := deliveries + [Delivery(device.value, r.count * 256, r.buf, r.waiter)];
      device := None;
      woken := r.waiter;
      completed := completed + [r];
      reqCount := reqCount - 1;
      reqHead := reqHead + 1;
      if reqHead == reqBuf.Length {
        reqHead := 0;
      }
      DoRequest();
      assert Abs() == t;
    }
  }
}
