/**
 The disk request protocol of `ker/hd.c` as a state machine: `do_read` fills a slot of a ring and moves
 the tail with interrupts on, then counts the request inside a critical section; the completion
 interrupt may come between any two of these steps.
 */
module DiskProtocol {
  import opened Options
  import opened Rings
  import opened Sequences

  datatype Kind = READ | WRITE

  datatype Request = Request(block: nat, count: nat, buf: nat, dev: nat, waiter: nat, kind: Kind)

  /** What `do_readwrite` writes to the controller: 28 address bits and an 8-bit sector count. */
  datatype Command = Command(block: nat, count: nat, dev: nat)

  function CommandOf(r: Request): Command {
    Command(r.block % 0x1000_0000, r.count % 0x100, r.dev)
  }

  /** A finished transfer: the controller's data went to `buf`, and `waiter` was woken. */
  datatype Delivery = Delivery(data: Command, words: nat, buf: nat, waiter: nat)

  /** Where `do_read` stands: nowhere, after storing `fields` fields of the slot, or with the tail moved. */
  datatype Phase = Idle | Filling(req: Request, fields: nat) | Advanced(req: Request)

  datatype Disk = Disk(
    ring: seq<Request>, head: nat, tail: nat, count: nat, phase: Phase, device: Option<Command>,
    accepted: seq<Request>, completed: seq<Request>, issued: seq<Command>, deliveries: seq<Delivery>)

  // ---------- the steps ----------

  /** The six assignments of lines 269-274. */
  function StoreField(slot: Request, r: Request, field: nat): Request {
    match field
    case 0 => slot.(block := r.block)
    case 1 => slot.(count := r.count)
    case 2 => slot.(buf := r.buf)
    case 3 => slot.(dev := r.dev)
    case 4 => slot.(kind := r.kind)
    case _ => slot.(waiter := r.waiter)
  }

  const FIELDS: nat := 6

  datatype Event = Call(req: Request) | Store | Advance | Enter | Complete

  predicate Shape(s: Disk) {
    0 < |s.ring| && s.head < |s.ring| && s.tail <= |s.ring|
  }

  predicate Enabled(s: Disk, e: Event) {
    Shape(s) &&
    match e
    case Call(r) => s.phase.Idle? && r.kind.READ?
    case Store => s.phase.Filling? && s.phase.fields < FIELDS && s.tail < |s.ring|
    case Advance => s.phase.Filling? && s.phase.fields == FIELDS && s.tail < |s.ring|
    case Enter => s.phase.Advanced?
    case Complete => s.device.Some?
  }

  /** `do_request`: start the transfer of the head request, if there is one. */
  function DoRequest(s: Disk): Disk
    requires Shape(s)
  {
    if s.count > 0 then
      var c := CommandOf(s.ring[s.head]);
      s.(device := Some(c), issued := s.issued + [c])
    else s
  }

  /** The critical section of `do_read`. */
  function EnterStep(s: Disk): Disk
    requires Shape(s) && s.phase.Advanced?
  {
    var s1 := s.(count := s.count + 1, tail := if s.tail == |s.ring| then 0 else s.tail, phase := Idle,
                 accepted := s.accepted + [s.phase.req]);
    if s1.count == 1 then DoRequest(s1) else s1
  }

  /** `hd_handlerp` once the controller offers its data. */
  function CompleteStep(s: Disk): Disk
    requires Shape(s) && s.device.Some?
  {
    var r := s.ring[s.head];
    if r.kind.WRITE? then s
    else
      var s1 := s.(device := None, deliveries := s.deliveries + [Delivery(s.device.value, r.count * 256, r.buf, r.waiter)],
                   completed := s.completed + [r],
                   count := if s.count > 0 then s.count - 1 else 0,
                   head := Next(s.head, |s.ring|));
      DoRequest(s1)
  }

  function Apply(s: Disk, e: Event): Disk
    requires Enabled(s, e)
  {
    match e
    case Call(r) => if s.count >= |s.ring| then s else s.(phase := Filling(r, 0))
    case Store => s.(ring := s.ring[s.tail := StoreField(s.ring[s.tail], s.phase.req, s.phase.fields)],
                     phase := s.phase.(fields := s.phase.fields + 1))
    case Advance => s.(tail := s.tail + 1, phase := Advanced(s.phase.req))
    case Enter => EnterStep(s)
    case Complete => CompleteStep(s)
  }

  // ---------- what every step keeps ----------

  /** The queued requests, oldest first. */
  function Queued(s: Disk): seq<Request>
    requires Shape(s) && s.count <= |s.ring|
  {
    Window(s.ring, s.head, s.count)
  }

  /** The first `fields` fields of the slot are those of `r`. */
  predicate Stored(slot: Request, r: Request, fields: nat) {
    && (fields > 0 ==> slot.block == r.block)
    && (fields > 1 ==> slot.count == r.count)
    && (fields > 2 ==> slot.buf == r.buf)
    && (fields > 3 ==> slot.dev == r.dev)
    && (fields > 4 ==> slot.kind == r.kind)
    && (fields > 5 ==> slot.waiter == r.waiter)
  }

  /** The tail is where the next request goes; `do_read` works on a free slot. */
  predicate TailRight(s: Disk)
    requires Shape(s) && s.count <= |s.ring|
  {
    var next := Wrap(s.head + s.count, |s.ring|);
    match s.phase
    case Idle => s.tail == next
    case Filling(r, fields) => s.tail == next && s.count < |s.ring| && r.kind.READ? && fields <= FIELDS
                               && Stored(s.ring[next], r, fields)
    case Advanced(r) => s.tail == next + 1 && s.count < |s.ring| && r.kind.READ? && s.ring[next] == r
  }

  function DeliveryOf(r: Request): Delivery {
    Delivery(CommandOf(r), r.count * 256, r.buf, r.waiter)
  }

  predicate Inv(s: Disk) {
    && Shape(s) && s.count <= |s.ring| && TailRight(s)
    && s.completed + Queued(s) == s.accepted
    && (forall i :: 0 <= i < |s.accepted| ==> s.accepted[i].kind.READ?)
    && s.device == (if s.count == 0 then None else Some(CommandOf(s.ring[s.head])))
    && |s.issued| == |s.completed| + (if s.count == 0 then 0 else 1)
    && (forall i :: 0 <= i < |s.issued| ==> s.issued[i] == CommandOf(s.accepted[i]))
    && |s.deliveries| == |s.completed|
    && (forall i :: 0 <= i < |s.deliveries| ==> s.deliveries[i] == DeliveryOf(s.accepted[i]))
  }

  lemma StoreKeeps(s: Disk)
    requires Inv(s) && Enabled(s, Store)
    ensures Inv(Apply(s, Store))
  {
    var t := Apply(s, Store);
    WindowPut(s.ring, s.head, s.count, t.ring[s.tail]);
    if s.count > 0 {
      assert Queued(t)[0] == Queued(s)[0];
    }
  }

  lemma EnterKeeps(s: Disk)
    requires Inv(s) && s.phase.Advanced?
    ensures Inv(EnterStep(s))
  {
    var t := EnterStep(s);
    WindowPut(s.ring, s.head, s.count, s.phase.req);
    assert s.ring[Wrap(s.head + s.count, |s.ring|) := s.phase.req] == s.ring;
    assert Queued(t) == Queued(s) + [s.phase.req];
    Assoc(s.completed, Queued(s), [s.phase.req]);
    assert t.completed + Queued(t) == t.accepted;
    assert t.accepted[|t.accepted| - 1] == s.phase.req;
    if s.count == 0 {
      assert Queued(t)[0] == t.ring[t.head];
    }
  }

  lemma CompleteKeeps(s: Disk)
    requires Inv(s) && s.device.Some?
    ensures Inv(CompleteStep(s))
  {
    var t := CompleteStep(s);
    OldestFirst(s);
    Dequeue(s, t);
    if t.count > 0 {
      OldestNext(t);
    }
  }

  /** The head request is the first one not completed. */
  lemma OldestFirst(s: Disk)
    requires Inv(s) && s.count > 0
    ensures s.accepted[|s.completed|] == s.ring[s.head]
  {
    OldestNext(s);
  }

  lemma OldestNext(s: Disk)
    requires Shape(s) && 0 < s.count <= |s.ring| && s.completed + Queued(s) == s.accepted
    ensures |s.accepted| > |s.completed| && s.accepted[|s.completed|] == s.ring[s.head]
  {
    assert Queued(s)[0] == s.ring[s.head];
    assert (s.completed + Queued(s))[|s.completed|] == Queued(s)[0];
  }

  lemma Dequeue(s: Disk, t: Disk)
    requires Shape(s) && 0 < s.count <= |s.ring| && Shape(t) && t.ring == s.ring && t.count == s.count - 1
    requires t.head == Next(s.head, |s.ring|)
    requires t.completed == s.completed + [s.ring[s.head]]
    ensures t.completed + Queued(t) == s.completed + Queued(s)
  {
    WindowGet(s.ring, s.head, s.count);
    MoveFirst(s.completed, s.ring[s.head], Queued(t));
  }

  lemma ApplyKeeps(s: Disk, e: Event)
    requires Inv(s) && Enabled(s, e)
    ensures Inv(Apply(s, e))
  {
    match e {
      case Call(r) =>
      case Store => StoreKeeps(s);
      case Advance =>
        assert s.ring[s.tail] == s.phase.req;
        assert Queued(Apply(s, e)) == Queued(s);
      case Enter => EnterKeeps(s);
      case Complete => CompleteKeeps(s);
    }
  }

  predicate EnabledRun(s: Disk, es: seq<Event>)
    decreases |es|
  {
    es == [] || (Enabled(s, es[0]) && EnabledRun(Apply(s, es[0]), es[1..]))
  }

  function Run(s: Disk, es: seq<Event>): Disk
    requires EnabledRun(s, es)
    decreases |es|
  {
    if es == [] then s else Run(Apply(s, es[0]), es[1..])
  }

  /** `hd_init` for a ring of any size. */
  function Initial(ring: seq<Request>): Disk {
    Disk(ring, 0, 0, 0, Idle, None, [], [], [], [])
  }

  /** Every interleaving of `do_read` steps and completion interrupts keeps the protocol invariant. */
  lemma {:induction false} RunKeeps(s: Disk, es: seq<Event>)
    requires Inv(s) && EnabledRun(s, es)
    ensures Inv(Run(s, es)) && |Run(s, es).ring| == |s.ring|
    decreases |es|
  {
    if es != [] {
      ApplyKeeps(s, es[0]);
      RunKeeps(Apply(s, es[0]), es[1..]);
    }
  }

  // ---------- what a caller can rely on ----------

  /** The calls of a run that passed the check and entered their critical section, in order. */
  function Entered(s: Disk, es: seq<Event>): seq<Request>
    requires EnabledRun(s, es)
    decreases |es|
  {
    if es == [] then []
    else EnteredNow(s, es[0]) + Entered(Apply(s, es[0]), es[1..])
  }

  /** How many completion interrupts a run contains. */
  function Completions(es: seq<Event>): nat {
    if es == [] then 0 else (if es[0].Complete? then 1 else 0) + Completions(es[1..])
  }

  lemma {:induction false} RunLogs(s: Disk, es: seq<Event>)
    requires Inv(s) && EnabledRun(s, es)
    ensures Run(s, es).accepted == s.accepted + Entered(s, es)
    ensures |Run(s, es).completed| == |s.completed| + Completions(es)
    decreases |es|
  {
    if es == [] {
      assert s.accepted + [] == s.accepted;
    } else {
      ApplyKeeps(s, es[0]);
      StepLogs(s, es[0]);
      RunLogs(Apply(s, es[0]), es[1..]);
      Assoc(s.accepted, EnteredNow(s, es[0]), Entered(Apply(s, es[0]), es[1..]));
    }
  }

  function EnteredNow(s: Disk, e: Event): seq<Request> {
    if e.Enter? && s.phase.Advanced? then [s.phase.req] else []
  }

  lemma StepLogs(s: Disk, e: Event)
    requires Inv(s) && Enabled(s, e)
    ensures Apply(s, e).accepted == s.accepted + EnteredNow(s, e)
    ensures |Apply(s, e).completed| == |s.completed| + if e.Complete? then 1 else 0
  {
    if e.Complete? {
      OldestFirst(s);
    }
  }

  /** Sectors the controller transfers: its count register takes 0 for 256 (ATA, the Sector Count register). */
  function Sectors(c: Command): nat {
    if c.count == 0 then 256 else c.count
  }

  /** The controller is asked for the drive of the request, and for its block and sectors as far as they fit. */
  predicate Asks(c: Command, r: Request) {
    && c.dev == r.dev
    && (r.block < 0x1000_0000 ==> c.block == r.block)
    && (1 <= r.count <= 256 ==> Sectors(c) == r.count)
  }

  /** The data asked for goes to the buffer of the request, all of its words, and its process is woken. */
  predicate Serves(d: Delivery, r: Request) {
    Asks(d.data, r) && d.words == r.count * 256 && d.buf == r.buf && d.waiter == r.waiter
  }

  lemma CommandAsks(r: Request)
    ensures Asks(CommandOf(r), r) && Serves(DeliveryOf(r), r)
  {
  }

  /**
   From `hd_init` on, under every interleaving: requests finish in the order they entered, the i-th
   completion interrupt delivers the data of the i-th request to its own buffer and wakes its own
   process, the i-th command is the one for the i-th request and is issued once, and the controller is busy
   exactly while a request is queued, with the oldest one.
   */
  lemma RequestsAreServed(ring: seq<Request>, es: seq<Event>)
    requires ring != [] && EnabledRun(Initial(ring), es)
    ensures var s := Run(Initial(ring), es); var entered := Entered(Initial(ring), es);
            && Completions(es) <= |entered| <= Completions(es) + |ring|
            && s.completed == entered[..Completions(es)]
            && |s.deliveries| == Completions(es)
            && (forall i :: 0 <= i < Completions(es) ==> Serves(s.deliveries[i], entered[i]))
            && (s.device.Some? <==> Completions(es) < |entered|)
            && (s.device.Some? ==> Asks(s.device.value, entered[Completions(es)]))
            && |s.issued| == Completions(es) + (if s.device.Some? then 1 else 0)
            && (forall i :: 0 <= i < |s.issued| ==> Asks(s.issued[i], entered[i]))
  {
    var s0 := Initial(ring);
    assert s0.completed + Queued(s0) == [];
    RunKeeps(s0, es);
    RunLogs(s0, es);
    var s := Run(s0, es);
    assert s.accepted == Entered(s0, es);
    if s.count > 0 {
      OldestFirst(s);
      CommandAsks(s.ring[s.head]);
    }
    forall i | 0 <= i < |s.accepted|
      ensures Asks(CommandOf(s.accepted[i]), s.accepted[i]) && Serves(DeliveryOf(s.accepted[i]), s.accepted[i])
    {
      CommandAsks(s.accepted[i]);
    }
  }

  /** A call is turned away exactly when the ring is full, and then changes nothing. */
  lemma RejectedIff(s: Disk, r: Request)
    requires Inv(s) && Enabled(s, Call(r))
    ensures Apply(s, Call(r)).phase.Idle? <==> |s.accepted| - |s.completed| == |s.ring|
    ensures Apply(s, Call(r)).phase.Idle? ==> Apply(s, Call(r)) == s
  {
    assert |s.accepted| == |s.completed| + |Queued(s)|;
  }

  /**
   The request's own drive, in LBA mode, is asked for the request's own sectors, and offers just the words
   that the handler takes, iff the block fits the address registers and the count is 1 to 256.
   */
  lemma CommandIsFaithfulIff(r: Request)
    ensures var c := CommandOf(r);
            c.dev == r.dev && c.block == r.block && Sectors(c) == r.count && DeliveryOf(r).words == Sectors(c) * 256
            <==> r.block < 0x1000_0000 && 1 <= r.count <= 256
  {
    assert r.block < 0x1000_0000 <==> r.block % 0x1000_0000 == r.block;
    assert r.count < 0x100 ==> r.count % 0x100 == r.count;
  }

  /** A request of less than a sector: the controller transfers 256 sectors, and the handler takes no word. */
  lemma SmallRequestExample()
    ensures var r := Request(0, 511 / 512, 0, 0, 1, READ);
            Sectors(CommandOf(r)) == 256 && DeliveryOf(r).words == 0
  {
  }
}
