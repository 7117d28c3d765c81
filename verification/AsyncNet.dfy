/** Eight connection slots, one worker that visits them in turn, and clients that
    start, use and stop connections between any two of the worker's steps. */
module AsyncNet {
  import opened Wrappers
  import opened ConnectionSlots

  const MAX_CONNECTIONS: nat := 8

  datatype Handle = Handle(slot: nat, generation: nat)

  datatype Call = SendCall(handle: Handle, bytes: seq<Byte>) | ReceiveCall(handle: Handle, len: nat)

  datatype Worker = Idle | Visiting(index: nat, phase: Phase)

  /** Sockets are numbered in the order they are opened; `closed` logs every close. */
  datatype System = System(slots: seq<Slot>, worker: Worker, nextGeneration: nat, live: set<Handle>,
                           calls: map<nat, Call>, begun: nat, sockets: nat, closed: seq<Socket>)

  const INITIAL := System([VACANT, VACANT, VACANT, VACANT, VACANT, VACANT, VACANT, VACANT], Idle, 1, {}, map[], 0, 0, [])

  datatype Event =
    | BeginPass
    | WorkerStep(answer: Answer)
    | Start(index: nat)
    | Stop(handle: Handle)
    | Enter(id: nat, call: Call)   // the handle check of a send or receive
    | Complete(callId: nat)        // its push or pop

  function ViewOf(w: Worker, i: nat): View {
    if w == Idle || i < w.index then Behind else if i == w.index then Here(w.phase) else Ahead
  }

  predicate Shape(sys: System) {
    && |sys.slots| == MAX_CONNECTIONS
    && (sys.worker.Visiting? ==> sys.worker.index < MAX_CONNECTIONS)
    && (forall i | 0 <= i < MAX_CONNECTIONS :: |sys.slots[i].rx| <= QUEUE_SIZE && |sys.slots[i].tx| <= QUEUE_SIZE)
    && (forall id | id in sys.calls :: sys.calls[id].handle.slot < MAX_CONNECTIONS)
    && (forall h | h in sys.live :: h.slot < MAX_CONNECTIONS)
  }

  /** What may happen next.  A handle is not used once stopped, nor stopped while in use. */
  predicate Legal(sys: System, e: Event)
    requires Shape(sys)
  {
    match e
    case BeginPass => sys.worker.Idle?
    case WorkerStep(a) => sys.worker.Visiting? && Plausible(sys.worker.phase, a)
    case Start(i) => i < MAX_CONNECTIONS && !sys.slots[i].inUse
    case Stop(h) => h in sys.live && forall id | id in sys.calls :: sys.calls[id].handle != h
    case Enter(id, c) => id !in sys.calls && c.handle in sys.live
    case Complete(id) => id in sys.calls
  }

  predicate HandleValid(sys: System, h: Handle)
    requires Shape(sys) && h.slot < MAX_CONNECTIONS
  {
    sys.slots[h.slot].inUse && sys.slots[h.slot].generation == h.generation
  }

  function Advance(i: nat, next: Option<Phase>): Worker {
    if next.Some? then Visiting(i, next.value)
    else if i + 1 < MAX_CONNECTIONS then Visiting(i + 1, Look)
    else Idle
  }

  function Visited(sys: System, o: Outcome): System
    requires Shape(sys) && sys.worker.Visiting?
  {
    sys.(slots := sys.slots[sys.worker.index := o.slot],
         worker := Advance(sys.worker.index, o.next),
         sockets := sys.sockets + if o.opens.Some? then 1 else 0,
         closed := sys.closed + if o.closes.Some? then [o.closes.value] else [])
  }

  function Performed(s: Slot, c: Call): Slot
    requires |s.tx| <= QUEUE_SIZE
  {
    match c
    case SendCall(_, bytes) => Accepting(s, bytes)
    case ReceiveCall(_, len) => Receiving(s, len)
  }

  function Next(sys: System, e: Event): System
    requires Shape(sys) && Legal(sys, e)
  {
    match e
    case BeginPass => sys.(worker := Visiting(0, Look), begun := sys.begun + 1)
    case WorkerStep(a) =>
      Visited(sys, Work(sys.slots[sys.worker.index], sys.worker.phase, a, sys.sockets))
    case Start(i) =>
      sys.(slots := sys.slots[i := Started(sys.slots[i], sys.nextGeneration)],
           live := sys.live + {Handle(i, sys.nextGeneration)},
           nextGeneration := sys.nextGeneration + 1)
    case Stop(h) =>
      sys.(slots := sys.slots[h.slot := Stopped(sys.slots[h.slot], h.generation, sys.begun)],
           live := sys.live - {h})
    case Enter(id, c) => if HandleValid(sys, c.handle) then sys.(calls := sys.calls[id := c]) else sys
    case Complete(id) =>
      var c := sys.calls[id];
      sys.(slots := sys.slots[c.handle.slot := Performed(sys.slots[c.handle.slot], c)],
           calls := map other | other in sys.calls && other != id :: sys.calls[other])
  }

  // -------------------------------------------------------------- invariant

  predicate SlotsInv(sys: System)
    requires Shape(sys)
  {
    forall i | 0 <= i < MAX_CONNECTIONS :: SlotInv(sys.slots[i], ViewOf(sys.worker, i), sys.begun)
  }

  /** A live handle's slot is in use, under its generation, and not on its way out;
      and a slot in use that nobody stopped has a live handle. */
  predicate HandlesInv(sys: System)
    requires Shape(sys)
  {
    && (forall h | h in sys.live :: HandleValid(sys, h) && !sys.slots[h.slot].stopRequested)
    && (forall i | 0 <= i < MAX_CONNECTIONS ::
          sys.slots[i].inUse && !sys.slots[i].stopRequested ==> Handle(i, sys.slots[i].generation) in sys.live)
    && (forall id | id in sys.calls :: sys.calls[id].handle in sys.live)
    && (forall i | 0 <= i < MAX_CONNECTIONS :: sys.slots[i].generation < sys.nextGeneration)
  }

  /** How many slots hold the socket. */
  function SlotsHolding(slots: seq<Slot>, k: Socket): nat {
    if slots == [] then 0 else Holds(slots[0].socket, k) + SlotsHolding(slots[1..], k)
  }

  function WorkerSocket(w: Worker): Option<Socket> {
    if w == Idle then None else Local(Here(w.phase))
  }

  /** How often a socket is in a slot, in the worker's hands, or in the log of closes. */
  function Occurrences(sys: System, k: Socket): nat {
    SlotsHolding(sys.slots, k) + Holds(WorkerSocket(sys.worker), k) + multiset(sys.closed)[k]
  }

  /** Every socket ever opened occurs exactly once, and no other does. */
  ghost predicate SocketsInv(sys: System) {
    forall k: Socket :: Occurrences(sys, k) == if k < sys.sockets then 1 else 0
  }

  ghost predicate Inv(sys: System) {
    Shape(sys) && SlotsInv(sys) && HandlesInv(sys) && SocketsInv(sys)
  }

  // ------------------------------------------------------------- conserving

  lemma {:induction false} HoldingAfterEdit(slots: seq<Slot>, i: nat, s: Slot, k: Socket)
    requires i < |slots|
    ensures SlotsHolding(slots[i := s], k) + Holds(slots[i].socket, k) == SlotsHolding(slots, k) + Holds(s.socket, k)
  {
    if i > 0 {
      assert slots[i := s][1..] == slots[1..][i - 1 := s];
      HoldingAfterEdit(slots[1..], i - 1, s, k);
    } else {
      assert slots[i := s][1..] == slots[1..];
    }
  }

  lemma {:induction false} NoneHolding(slots: seq<Slot>, k: Socket)
    requires forall i | 0 <= i < |slots| :: slots[i].socket != Some(k)
    ensures SlotsHolding(slots, k) == 0
  {
    if slots != [] {
      NoneHolding(slots[1..], k);
    }
  }

  lemma SocketsSurviveEdit(sys: System, i: nat, s: Slot, after: System)
    requires SocketsInv(sys) && i < |sys.slots| && s.socket == sys.slots[i].socket
    requires after.slots == sys.slots[i := s] && after.worker == sys.worker
    requires after.sockets == sys.sockets && after.closed == sys.closed
    ensures SocketsInv(after)
  {
    forall k: Socket
      ensures Occurrences(after, k) == if k < after.sockets then 1 else 0
    {
      HoldingAfterEdit(sys.slots, i, s, k);
      assert Occurrences(after, k) == Occurrences(sys, k);
    }
  }

  lemma SocketsSurviveVisit(sys: System, a: Answer)
    requires Inv(sys) && sys.worker.Visiting? && Plausible(sys.worker.phase, a)
    ensures SocketsInv(Next(sys, WorkerStep(a)))
  {
    hide Work, SlotInv, Local, StreamsIntact, OnItsWayOut;
    var i, p := sys.worker.index, sys.worker.phase;
    assert ConsistentWith(sys.slots[i], Here(p)) by {
      assert SlotInv(sys.slots[i], ViewOf(sys.worker, i), sys.begun);
      ConsistentPart(sys.slots[i], Here(p), sys.begun);
    }
    hide ConsistentWith;
    var o := Work(sys.slots[i], p, a, sys.sockets);
    var after := Visited(sys, o);
    WorkMovesOneSocket(sys.slots[i], p, a, sys.sockets);
    assert WorkerSocket(after.worker) == Local(ViewAfter(o.next)) by { IdleHoldsNothing(); }
    forall k: Socket
      ensures Occurrences(after, k) == if k < after.sockets then 1 else 0
    {
      WorkConservesSockets(sys.slots[i], p, a, sys.sockets, k);
      HoldingAfterEdit(sys.slots, i, o.slot, k);
      assert multiset(after.closed)[k] == multiset(sys.closed)[k] + Holds(o.closes, k);
      assert Occurrences(after, k) == Occurrences(sys, k) + Holds(o.opens, k);
    }
  }

  lemma ConsistentPart(s: Slot, v: View, begun: nat)
    requires SlotInv(s, v, begun)
    ensures ConsistentWith(s, v)
  {
  }

  lemma IdleHoldsNothing()
    ensures Local(Behind) == None && Local(Here(Look)) == None
  {
  }

  // ------------------------------------------------------- steps keep it all

  lemma VacantInv()
    ensures SlotInv(VACANT, Behind, 0)
  {
  }

  lemma InitialInv()
    ensures Inv(INITIAL)
  {
    hide SlotInv, SlotsHolding;
    assert forall i | 0 <= i < MAX_CONNECTIONS :: INITIAL.slots[i] == VACANT;
    VacantInv();
    forall k: Socket {
      NoneHolding(INITIAL.slots, k);
    }
  }

  lemma BeginKeepsInv(sys: System)
    requires Inv(sys) && Legal(sys, BeginPass)
    ensures Inv(Next(sys, BeginPass))
  {
    var after := Next(sys, BeginPass);
    forall i | 0 <= i < MAX_CONNECTIONS
      ensures SlotInv(after.slots[i], ViewOf(after.worker, i), after.begun)
    {
      assert SlotInv(sys.slots[i], ViewOf(sys.worker, i), sys.begun);
      NewPassKeepsInv(sys.slots[i], sys.begun);
    }
    assert forall k: Socket :: Occurrences(after, k) == Occurrences(sys, k);
  }

  lemma VisitKeepsInv(sys: System, a: Answer)
    requires Inv(sys) && Legal(sys, WorkerStep(a))
    ensures Inv(Next(sys, WorkerStep(a)))
  {
    hide SlotInv, Work, SlotsHolding;
    var i, p := sys.worker.index, sys.worker.phase;
    var s := sys.slots[i];
    assert SlotInv(s, ViewOf(sys.worker, i), sys.begun);
    var o := Work(s, p, a, sys.sockets);
    var after := Visited(sys, o);
    WorkKeepsInv(s, p, a, sys.sockets, sys.begun);
    forall j | 0 <= j < MAX_CONNECTIONS
      ensures SlotInv(after.slots[j], ViewOf(after.worker, j), after.begun)
    {
      assert SlotInv(sys.slots[j], ViewOf(sys.worker, j), sys.begun);
      if j == i + 1 && o.next == None {
        ArrivalKeepsInv(sys.slots[j], sys.begun);
      }
    }
    QueuesBounded(o.slot, ViewAfter(o.next), sys.begun);
    WorkKeepsTenancy(s, p, a, sys.sockets, sys.begun);
    SocketsSurviveVisit(sys, a);
  }

  lemma ArrivalKeepsInv(s: Slot, begun: nat)
    requires SlotInv(s, Ahead, begun)
    ensures SlotInv(s, Here(Look), begun)
  {
  }

  lemma QueuesBounded(s: Slot, v: View, begun: nat)
    requires SlotInv(s, v, begun)
    ensures |s.rx| <= QUEUE_SIZE && |s.tx| <= QUEUE_SIZE
  {
  }

  /** The worker frees only stopped slots, and neither stops nor renames any. */
  lemma WorkKeepsTenancy(s: Slot, p: Phase, a: Answer, id: Socket, begun: nat)
    requires SlotInv(s, Here(p), begun) && Plausible(p, a)
    ensures var t := Work(s, p, a, id).slot;
      && t.generation == s.generation && t.stoppedAt == s.stoppedAt
      && (t.inUse ==> s.inUse && t.stopRequested == s.stopRequested)
      && (s.inUse && !s.stopRequested ==> t.inUse && !t.stopRequested)
  {
  }

  /** An edit to one slot that keeps its socket and its invariant. */
  lemma EditKeepsSlots(sys: System, i: nat, s: Slot, after: System)
    requires Inv(sys) && i < MAX_CONNECTIONS && s.socket == sys.slots[i].socket
    requires SlotInv(s, ViewOf(sys.worker, i), sys.begun)
    requires Shape(after) && after.slots == sys.slots[i := s]
    requires after.worker == sys.worker && after.begun == sys.begun
    requires after.sockets == sys.sockets && after.closed == sys.closed
    ensures SlotsInv(after) && SocketsInv(after)
  {
    hide SlotInv, SlotsHolding;
    SocketsSurviveEdit(sys, i, s, after);
  }

  lemma VacantHoldsNothing(s: Slot, v: View, begun: nat)
    requires SlotInv(s, v, begun) && !s.inUse
    ensures s.socket == None
  {
  }

  lemma StartKeepsAll(sys: System, i: nat)
    requires Inv(sys) && Legal(sys, Start(i))
    ensures Inv(Next(sys, Start(i)))
  {
    hide SlotInv, SlotsHolding;
    var s := sys.slots[i];
    assert SlotInv(s, ViewOf(sys.worker, i), sys.begun);
    StartKeepsInv(s, ViewOf(sys.worker, i), sys.nextGeneration, sys.begun);
    VacantHoldsNothing(s, ViewOf(sys.worker, i), sys.begun);
    var after := Next(sys, Start(i));
    EditKeepsSlots(sys, i, after.slots[i], after);
  }

  lemma StopKeepsAll(sys: System, h: Handle)
    requires Inv(sys) && Legal(sys, Stop(h))
    ensures Inv(Next(sys, Stop(h)))
  {
    hide SlotInv, SlotsHolding;
    var s := sys.slots[h.slot];
    assert SlotInv(s, ViewOf(sys.worker, h.slot), sys.begun);
    StopKeepsInv(s, ViewOf(sys.worker, h.slot), sys.begun);
    var after := Next(sys, Stop(h));
    EditKeepsSlots(sys, h.slot, after.slots[h.slot], after);
  }

  lemma CompleteKeepsAll(sys: System, id: nat)
    requires Inv(sys) && Legal(sys, Complete(id))
    ensures Inv(Next(sys, Complete(id)))
  {
    hide SlotInv, SlotsHolding;
    var c := sys.calls[id];
    var i := c.handle.slot;
    var v := ViewOf(sys.worker, i);
    assert SlotInv(sys.slots[i], v, sys.begun);
    match c {
      case SendCall(_, bytes) => AcceptKeepsInv(sys.slots[i], v, bytes, sys.begun);
      case ReceiveCall(_, len) => ReceiveKeepsInv(sys.slots[i], v, len, sys.begun);
    }
    var after := Next(sys, Complete(id));
    QueuesBounded(after.slots[i], v, sys.begun);
    EditKeepsSlots(sys, i, after.slots[i], after);
  }

  lemma EnterKeepsAll(sys: System, id: nat, c: Call)
    requires Inv(sys) && Legal(sys, Enter(id, c))
    ensures Inv(Next(sys, Enter(id, c))) && id in Next(sys, Enter(id, c)).calls
  {
    var after := Next(sys, Enter(id, c));
    assert forall k: Socket :: Occurrences(after, k) == Occurrences(sys, k);
  }

  lemma NextKeepsInv(sys: System, e: Event)
    requires Inv(sys) && Legal(sys, e)
    ensures Inv(Next(sys, e))
  {
    match e
    case BeginPass => BeginKeepsInv(sys);
    case WorkerStep(a) => VisitKeepsInv(sys, a);
    case Start(i) => StartKeepsAll(sys, i);
    case Stop(h) => StopKeepsAll(sys, h);
    case Enter(id, c) => EnterKeepsAll(sys, id, c);
    case Complete(id) => CompleteKeepsAll(sys, id);
  }

  // ------------------------------------------------------------------- runs

  ghost predicate LegalRun(sys: System, events: seq<Event>)
    requires Inv(sys)
    decreases |events|
  {
    events != [] ==>
      && Legal(sys, events[0])
      && (NextKeepsInv(sys, events[0]);
          LegalRun(Next(sys, events[0]), events[1..]))
  }

  ghost function Run(sys: System, events: seq<Event>): (after: System)
    requires Inv(sys) && LegalRun(sys, events)
    ensures Inv(after)
    decreases |events|
  {
    if events == [] then sys
    else
      NextKeepsInv(sys, events[0]);
      Run(Next(sys, events[0]), events[1..])
  }

  ghost predicate Possible(events: seq<Event>) {
    InitialInv();
    LegalRun(INITIAL, events)
  }

  /** Where a possible run from the start has led. */
  ghost function After(events: seq<Event>): (sys: System)
    requires Possible(events)
    ensures Inv(sys)
  {
    InitialInv();
    Run(INITIAL, events)
  }

  /** At every moment of every run, for every slot: what the client has received, what
      is queued and what is being pushed make up what the socket delivered, none of it
      dropped; and what the socket took is a prefix of what the client's sends accepted,
      the rest of which is queued. */
  lemma BytesAreKept(events: seq<Event>, i: nat)
    requires Possible(events) && i < MAX_CONNECTIONS
    ensures var sys := After(events); var s := sys.slots[i]; var v := ViewOf(sys.worker, i);
      && s.rxDropped == 0
      && s.received <= s.delivered && s.sent <= s.accepted
      && (s.inUse ==> s.received + s.rx + InFlight(v) == s.delivered)
      && (s.inUse ==> Unconfirmed(v) <= |s.tx| && s.sent + s.tx[Unconfirmed(v)..] == s.accepted)
  {
    var sys := After(events);
    var s, v := sys.slots[i], ViewOf(sys.worker, i);
    assert SlotInv(s, v, sys.begun);
    assert s.inUse ==> s.delivered == s.received + (s.rx + InFlight(v));
  }

  /** A step that keeps a slot's generation only extends its streams, so the theorem
      above speaks of one connection's whole past. */
  lemma StepExtendsStreams(sys: System, e: Event, i: nat)
    requires Inv(sys) && Legal(sys, e) && i < MAX_CONNECTIONS
    requires Next(sys, e).slots[i].generation == sys.slots[i].generation
    ensures Extends(sys.slots[i], Next(sys, e).slots[i])
  {
    hide SlotInv, Work;
    if e.WorkerStep? {
      WorkExtends(sys.slots[sys.worker.index], sys.worker.phase, e.answer, sys.sockets);
    }
  }

  /** While a handle is live its slot is in use for it alone, whatever happens: no step
      frees the slot, gives it to another connection, or cuts its streams short. */
  lemma LiveHandleProtects(sys: System, e: Event, h: Handle)
    requires Inv(sys) && Legal(sys, e) && h in sys.live && e != Stop(h)
    ensures h in Next(sys, e).live
    ensures HandleValid(sys, h) && Shape(Next(sys, e)) && HandleValid(Next(sys, e), h)
    ensures Extends(sys.slots[h.slot], Next(sys, e).slots[h.slot])
    ensures forall g | g in sys.live && g.slot == h.slot :: g == h
  {
    NextKeepsInv(sys, e);
    assert HandleValid(Next(sys, e), h);
    StepExtendsStreams(sys, e, h.slot);
    forall g | g in sys.live && g.slot == h.slot
      ensures g == h
    {
      assert HandleValid(sys, g);
    }
  }

  // -------------------------------------------- streams read off the events

  /** What one connection's client had accepted and was handed, and what its socket
      delivered and took. */
  datatype Streams = Streams(accepted: seq<Byte>, received: seq<Byte>, delivered: seq<Byte>, sent: seq<Byte>)
  {
    function Then(more: Streams): Streams {
      Streams(accepted + more.accepted, received + more.received, delivered + more.delivered, sent + more.sent)
    }
  }

  const NOTHING := Streams([], [], [], [])

  function StreamsOf(s: Slot): Streams {
    Streams(s.accepted, s.received, s.delivered, s.sent)
  }

  /** What an event adds for a slot: a send, the longest beginning of its bytes that fits;
      a receive, the oldest bytes, as many as it asked for or as there are; the network,
      the bytes it delivered or as many of those given to it as it took. */
  function Gained(sys: System, e: Event, i: nat): Streams
    requires Shape(sys) && Legal(sys, e) && i < MAX_CONNECTIONS
  {
    var s := sys.slots[i];
    if e.Complete? && sys.calls[e.callId].handle.slot == i then
      match sys.calls[e.callId]
      case SendCall(_, bytes) => NOTHING.(accepted := bytes[..Min(|bytes|, QUEUE_SIZE - |s.tx|)])
      case ReceiveCall(_, len) => NOTHING.(received := s.rx[..Min(len, |s.rx|)])
    else if e.WorkerStep? && sys.worker.index == i then
      match e.answer
      case Received(bytes) => NOTHING.(delivered := bytes)
      case Sent(n) => NOTHING.(sent := sys.worker.phase.chunk[..n])
      case _ => NOTHING
    else NOTHING
  }

  /** A call does to its slot's queues what the queues' own methods do, and nothing else:
      it appends the bytes that fit, or removes the oldest. */
  lemma CallMovesBytes(sys: System, id: nat)
    requires Inv(sys) && id in sys.calls
    ensures var c := sys.calls[id]; var i := c.handle.slot; var s := sys.slots[i];
            var after := Next(sys, Complete(id)); var more := Gained(sys, Complete(id), i);
      && after.slots == sys.slots[i := if c.SendCall?
                                       then s.(tx := s.tx + more.accepted, accepted := s.accepted + more.accepted)
                                       else s.(rx := s.rx[|more.received|..], received := s.received + more.received)]
      && after.calls.Keys == sys.calls.Keys - {id}
  {
  }

  /** What a step of a visit adds to the slot's histories. */
  predicate WorkAdds(s: Slot, p: Phase, a: Answer, t: Slot)
    requires Plausible(p, a)
  {
    && t.accepted == s.accepted && t.received == s.received && t.generation == s.generation
    && t.delivered == s.delivered + (if a.Received? then a.bytes else [])
    && (a.Sent? ==> p.TxSend?) && t.sent == s.sent + if a.Sent? then p.chunk[..a.n] else []
  }

  lemma TransferGains(s: Slot, p: Phase, a: Answer, id: Socket)
    requires |s.rx| <= QUEUE_SIZE && Plausible(p, a) && (Sends(p) || Receives(p))
    ensures WorkAdds(s, p, a, Work(s, p, a, id).slot)
  {
    hide LookAt, Commit, EnterPump, Freed;
  }

  lemma WorkGains(s: Slot, p: Phase, a: Answer, id: Socket)
    requires |s.rx| <= QUEUE_SIZE && Plausible(p, a)
    ensures WorkAdds(s, p, a, Work(s, p, a, id).slot)
  {
    if Sends(p) || Receives(p) {
      TransferGains(s, p, a, id);
      hide Work, WorkAdds;
    } else {
      hide Sends, Receives, Transmitted, Arrived, Pushed;
    }
  }

  /** Unless a new connection takes the slot, its streams grow by just that. */
  lemma StepGains(sys: System, e: Event, i: nat)
    requires Inv(sys) && Legal(sys, e) && i < MAX_CONNECTIONS
    ensures var s, t := sys.slots[i], Next(sys, e).slots[i];
      if t.generation == s.generation then StreamsOf(t) == StreamsOf(s).Then(Gained(sys, e, i))
      else e == Start(i) && StreamsOf(t) == NOTHING && s.generation < t.generation
  {
    hide SlotInv, SocketsInv, Work;
    if e.WorkerStep? {
      VisitGains(sys, e.answer, i);
      hide Gained, Next;
    }
  }

  lemma VisitGains(sys: System, a: Answer, i: nat)
    requires Inv(sys) && Legal(sys, WorkerStep(a)) && i < MAX_CONNECTIONS
    ensures var s, t := sys.slots[i], Next(sys, WorkerStep(a)).slots[i];
      t.generation == s.generation && StreamsOf(t) == StreamsOf(s).Then(Gained(sys, WorkerStep(a), i))
  {
    hide SlotsInv, HandlesInv, SocketsInv, Work;
    WorkGains(sys.slots[sys.worker.index], sys.worker.phase, a, sys.sockets);
  }

  /** What the events of a run add for a slot, one after the other. */
  ghost function GainedOver(sys: System, events: seq<Event>, i: nat): Streams
    requires Inv(sys) && LegalRun(sys, events) && i < MAX_CONNECTIONS
    decreases |events|
  {
    if events == [] then NOTHING
    else
      NextKeepsInv(sys, events[0]);
      Gained(sys, events[0], i).Then(GainedOver(Next(sys, events[0]), events[1..], i))
  }

  lemma {:induction false} RunGains(sys: System, events: seq<Event>, i: nat)
    requires Inv(sys) && LegalRun(sys, events) && i < MAX_CONNECTIONS
    ensures var s, t := sys.slots[i], Run(sys, events).slots[i];
      && s.generation <= t.generation
      && (t.generation == s.generation ==> StreamsOf(t) == StreamsOf(s).Then(GainedOver(sys, events, i)))
    decreases |events|
  {
    if events == [] {
      assert StreamsOf(sys.slots[i]).Then(NOTHING) == StreamsOf(sys.slots[i]);
    } else {
      var next := Next(sys, events[0]);
      NextKeepsInv(sys, events[0]);
      StepGains(sys, events[0], i);
      RunGains(next, events[1..], i);
      ThenAssociative(StreamsOf(sys.slots[i]), Gained(sys, events[0], i), GainedOver(next, events[1..], i));
    }
  }

  lemma ThenAssociative(a: Streams, b: Streams, c: Streams)
    ensures a.Then(b).Then(c) == a.Then(b.Then(c))
  {
    assert a.Then(b).Then(c).accepted == a.Then(b.Then(c)).accepted;
    assert a.Then(b).Then(c).received == a.Then(b.Then(c)).received;
    assert a.Then(b).Then(c).delivered == a.Then(b.Then(c)).delivered;
    assert a.Then(b).Then(c).sent == a.Then(b.Then(c)).sent;
  }

  /** End to end, over every run of a connection from its start: what its socket took is a
      beginning of the bytes its client sent, as far as each send was accepted, and what
      its client received is a beginning of the bytes its socket delivered; what is
      missing is queued. */
  lemma ConnectionIsAPipe(sys: System, i: nat, events: seq<Event>)
    requires Inv(sys) && LegalRun(sys, [Start(i)] + events)
    requires HandleValid(Run(sys, [Start(i)] + events), Handle(i, sys.nextGeneration))
    ensures var started := Next(sys, Start(i)); var after := Run(sys, [Start(i)] + events);
            var s := after.slots[i]; var v := ViewOf(after.worker, i);
      && Inv(started) && LegalRun(started, events)
      && var all := GainedOver(started, events, i);
         && all.received + s.rx + InFlight(v) == all.delivered
         && Unconfirmed(v) <= |s.tx| && all.sent + s.tx[Unconfirmed(v)..] == all.accepted
  {
    var run := [Start(i)] + events;
    assert run[0] == Start(i) && run[1..] == events;
    NextKeepsInv(sys, Start(i));
    hide SlotInv, SlotsInv, HandlesInv, SocketsInv;
    RunIsAPipe(Next(sys, Start(i)), i, events);
  }

  lemma RunIsAPipe(started: System, i: nat, events: seq<Event>)
    requires Inv(started) && LegalRun(started, events) && i < MAX_CONNECTIONS && StreamsOf(started.slots[i]) == NOTHING
    requires var s := Run(started, events).slots[i]; s.inUse && s.generation == started.slots[i].generation
    ensures var after := Run(started, events); var s, v := after.slots[i], ViewOf(after.worker, i);
      var all := GainedOver(started, events, i);
      && all.received + s.rx + InFlight(v) == all.delivered
      && Unconfirmed(v) <= |s.tx| && all.sent + s.tx[Unconfirmed(v)..] == all.accepted
  {
    hide SlotInv, SlotsInv, HandlesInv, SocketsInv;
    RunGains(started, events, i);
    NothingThen(GainedOver(started, events, i));
    PipeOf(Run(started, events), i, GainedOver(started, events, i));
  }

  lemma NothingThen(gained: Streams)
    ensures NOTHING.Then(gained) == gained
  {
  }

  lemma PipeOf(sys: System, i: nat, all: Streams)
    requires Inv(sys) && i < MAX_CONNECTIONS && sys.slots[i].inUse && StreamsOf(sys.slots[i]) == all
    ensures var s, v := sys.slots[i], ViewOf(sys.worker, i);
      && all.received + s.rx + InFlight(v) == all.delivered
      && Unconfirmed(v) <= |s.tx| && all.sent + s.tx[Unconfirmed(v)..] == all.accepted
  {
    assert SlotInv(sys.slots[i], ViewOf(sys.worker, i), sys.begun);
  }

  lemma {:induction false} HoldingAtLeast(slots: seq<Slot>, i: nat, k: Socket)
    requires i < |slots| && slots[i].socket == Some(k)
    ensures SlotsHolding(slots, k) >= 1
    ensures forall j | 0 <= j < |slots| && j != i && slots[j].socket == Some(k) :: SlotsHolding(slots, k) >= 2
  {
    if i > 0 {
      HoldingAtLeast(slots[1..], i - 1, k);
      forall j | 0 <= j < |slots| && j != i && slots[j].socket == Some(k)
        ensures SlotsHolding(slots, k) >= 2
      {
        assert j > 0 ==> slots[1..][j - 1].socket == Some(k);
      }
    } else {
      forall j | 1 <= j < |slots| && slots[j].socket == Some(k)
        ensures SlotsHolding(slots, k) >= 2
      {
        HoldingAtLeast(slots[1..], j - 1, k);
      }
    }
  }

  /** The socket a phase of a visit works on without owning it. */
  function Borrowed(w: Worker): Option<Socket> {
    if w == Idle then None else
    match w.phase
    case TxPeek(k) => Some(k)
    case TxSend(k, _) => Some(k)
    case TxDrop(k, _) => Some(k)
    case RxCount(k) => Some(k)
    case RxPoll(k) => Some(k)
    case RxReceive(k) => Some(k)
    case _ => None
  }

  /** At every moment of every run: no two slots hold one socket; a socket in a slot or
      in the worker's hands is open; no socket is closed twice; a vacant slot holds none;
      every socket opened is in a slot, in the worker's hands or closed; a socket being
      sent to, polled or read is its slot's own, hence open; and the free path never
      finds a lingering socket. */
  lemma SocketsHaveOneOwner(events: seq<Event>)
    requires Possible(events)
    ensures var sys := After(events);
      && (forall i, j | 0 <= i < j < MAX_CONNECTIONS && sys.slots[i].socket.Some? ::
            sys.slots[i].socket != sys.slots[j].socket)
      && (forall i | 0 <= i < MAX_CONNECTIONS && sys.slots[i].socket.Some? ::
            && sys.slots[i].socket.value < sys.sockets && sys.slots[i].socket.value !in sys.closed
            && sys.slots[i].socket != WorkerSocket(sys.worker) && sys.slots[i].inUse)
      && (WorkerSocket(sys.worker).Some? ==> WorkerSocket(sys.worker).value !in sys.closed)
      && (forall k | k in sys.closed :: multiset(sys.closed)[k] == 1)
      && (forall k: Socket | k < sys.sockets && k !in sys.closed && WorkerSocket(sys.worker) != Some(k) ::
            exists i | 0 <= i < MAX_CONNECTIONS :: sys.slots[i].socket == Some(k))
      && (Borrowed(sys.worker).Some? ==>
            sys.slots[sys.worker.index].socket == Borrowed(sys.worker))
      && (sys.worker.Visiting? && sys.worker.phase.FreeClose? ==> sys.worker.phase.lingering == None)
  {
    var sys := After(events);
    SlotsOwnTheirs(sys);
    forall k: Socket | k in sys.closed
      ensures multiset(sys.closed)[k] == 1 && WorkerSocket(sys.worker) != Some(k)
    {
      assert Occurrences(sys, k) <= 1;
    }
    forall k: Socket | k < sys.sockets && k !in sys.closed && WorkerSocket(sys.worker) != Some(k)
      ensures exists i | 0 <= i < MAX_CONNECTIONS :: sys.slots[i].socket == Some(k)
    {
      assert Occurrences(sys, k) == 1;
      if forall i | 0 <= i < MAX_CONNECTIONS :: sys.slots[i].socket != Some(k) {
        NoneHolding(sys.slots, k);
      }
    }
    if sys.worker.Visiting? {
      assert SlotInv(sys.slots[sys.worker.index], ViewOf(sys.worker, sys.worker.index), sys.begun);
    }
  }

  lemma SlotsOwnTheirs(sys: System)
    requires Inv(sys)
    ensures forall i, j | 0 <= i < j < MAX_CONNECTIONS && sys.slots[i].socket.Some? ::
              sys.slots[i].socket != sys.slots[j].socket
    ensures forall i | 0 <= i < MAX_CONNECTIONS && sys.slots[i].socket.Some? ::
              && sys.slots[i].socket.value < sys.sockets && sys.slots[i].socket.value !in sys.closed
              && sys.slots[i].socket != WorkerSocket(sys.worker) && sys.slots[i].inUse
  {
    forall i, j | 0 <= i < MAX_CONNECTIONS && 0 <= j < MAX_CONNECTIONS && sys.slots[i].socket.Some?
      ensures i != j ==> sys.slots[i].socket != sys.slots[j].socket
      ensures sys.slots[i].socket.value < sys.sockets && sys.slots[i].socket.value !in sys.closed
      ensures sys.slots[i].socket != WorkerSocket(sys.worker) && sys.slots[i].inUse
    {
      var k := sys.slots[i].socket.value;
      assert Occurrences(sys, k) <= 1;
      HoldingAtLeast(sys.slots, i, k);
      HolderInUse(sys.slots[i], ViewOf(sys.worker, i), sys.begun);
    }
  }

  lemma HolderInUse(s: Slot, v: View, begun: nat)
    requires SlotInv(s, v, begun) && s.socket.Some?
    ensures s.inUse
  {
  }

  // -------------------------------------------------------------- releasing

  /** The connection of generation `g` is gone from the slot, or was stopped when
      `begun` passes had begun. */
  predicate StoppedOrGone(sys: System, h: Handle, begun: nat)
    requires Shape(sys) && h.slot < MAX_CONNECTIONS
  {
    && h.generation < sys.nextGeneration
    && var s := sys.slots[h.slot];
       s.inUse && s.generation == h.generation ==> s.stopRequested && s.stoppedAt == begun
  }

  lemma StepKeepsStopped(sys: System, e: Event, h: Handle, begun: nat)
    requires Inv(sys) && Legal(sys, e) && h.slot < MAX_CONNECTIONS && StoppedOrGone(sys, h, begun)
    ensures Inv(Next(sys, e)) && StoppedOrGone(Next(sys, e), h, begun)
  {
    NextKeepsInv(sys, e);
    if e.WorkerStep? && sys.worker.index == h.slot {
      assert SlotInv(sys.slots[h.slot], Here(sys.worker.phase), sys.begun);
      WorkKeepsTenancy(sys.slots[h.slot], sys.worker.phase, e.answer, sys.sockets, sys.begun);
    }
    hide SlotInv, Work;
  }

  lemma {:induction false} RunKeepsStopped(sys: System, events: seq<Event>, h: Handle, begun: nat)
    requires Inv(sys) && LegalRun(sys, events) && h.slot < MAX_CONNECTIONS && StoppedOrGone(sys, h, begun)
    ensures StoppedOrGone(Run(sys, events), h, begun)
    decreases |events|
  {
    if events != [] {
      StepKeepsStopped(sys, events[0], h, begun);
      RunKeepsStopped(Next(sys, events[0]), events[1..], h, begun);
    }
  }

  /** After a stop, whatever else happens, the connection is gone from its slot no later
      than the end of the second pass that begins after the stop; and until it is gone no
      third such pass begins. */
  lemma StoppedSlotIsFreed(sys: System, h: Handle, events: seq<Event>)
    requires Inv(sys) && LegalRun(sys, [Stop(h)] + events)
    ensures var after := Run(sys, [Stop(h)] + events);
      HandleValid(after, h) ==>
        && after.begun <= sys.begun + 2
        && (after.worker == Idle ==> after.begun < sys.begun + 2)
  {
    var stopped := Next(sys, Stop(h));
    NextKeepsInv(sys, Stop(h));
    assert ([Stop(h)] + events)[0] == Stop(h) && ([Stop(h)] + events)[1..] == events;
    assert StoppedOrGone(stopped, h, sys.begun) by {
      assert HandleValid(sys, h);
    }
    RunKeepsStopped(stopped, events, h, sys.begun);
    var after := Run(stopped, events);
    assert SlotInv(after.slots[h.slot], ViewOf(after.worker, h.slot), after.begun);
  }

  /** Steps left in the current pass, at most. */
  function LeftInPass(w: Worker): nat
    requires w.Visiting? ==> w.index < MAX_CONNECTIONS
  {
    if w == Idle then 0 else (MAX_CONNECTIONS - 1 - w.index) * 14 + Remaining(w.phase)
  }

  /** Every pass ends: each of the worker's steps uses up part of a bounded number. */
  lemma PassEnds(sys: System, a: Answer)
    requires Inv(sys) && Legal(sys, WorkerStep(a))
    ensures Shape(Next(sys, WorkerStep(a)))
    ensures LeftInPass(Next(sys, WorkerStep(a)).worker) < LeftInPass(sys.worker)
  {
    NextKeepsInv(sys, WorkerStep(a));
    hide SlotInv;
    var i := sys.worker.index;
    VisitEnds(sys.slots[i], sys.worker.phase, a, sys.sockets);
    assert Remaining(sys.worker.phase) > 0;
  }

  predicate WorkerTurn(e: Event) { e.BeginPass? || e.WorkerStep? }

  ghost function WorkerTurns(events: seq<Event>): nat {
    if events == [] then 0 else (if WorkerTurn(events[0]) then 1 else 0) + WorkerTurns(events[1..])
  }

  /** The worker can always take a turn. */
  lemma WorkerIsNotStuck(sys: System)
    requires Inv(sys)
    ensures Legal(sys, BeginPass) || exists a :: Legal(sys, WorkerStep(a))
  {
    if sys.worker.Visiting? {
      var a := match sys.worker.phase
               case ConnectOut => Refused
               case TxSend(_, _) => SendWouldBlock
               case RxPoll(_) => PollNotReady
               case RxReceive(_) => ReceiveWouldBlock
               case _ => NoCall;
      assert Legal(sys, WorkerStep(a));
    }
  }

  /** A whole pass takes at most 112 turns, its beginning included. */
  const TURNS_PER_PASS: nat := 112

  /** Turns of the worker until a connection stopped when `begun` passes had begun is
      gone, at most. */
  function TurnsToFree(sys: System, begun: nat): int
    requires sys.worker.Visiting? ==> sys.worker.index < MAX_CONNECTIONS
  {
    LeftInPass(sys.worker) + TURNS_PER_PASS * (begun + 2 - sys.begun)
  }

  /** Each turn uses up one of them, and nothing else adds any. */
  lemma TurnBringsFreeNearer(sys: System, e: Event, begun: nat)
    requires Inv(sys) && Legal(sys, e)
    ensures var after := Next(sys, e);
      Shape(after) && TurnsToFree(after, begun) <= TurnsToFree(sys, begun) - if WorkerTurn(e) then 1 else 0
  {
    NextKeepsInv(sys, e);
    if e.WorkerStep? {
      PassEnds(sys, e.answer);
    }
    hide SlotInv;
  }

  /** As long as the stopped connection is there, some are left. */
  lemma TurnsAreLeft(sys: System, h: Handle, begun: nat)
    requires Inv(sys) && h.slot < MAX_CONNECTIONS && StoppedOrGone(sys, h, begun) && HandleValid(sys, h)
    ensures TurnsToFree(sys, begun) > 0
  {
    assert SlotInv(sys.slots[h.slot], ViewOf(sys.worker, h.slot), sys.begun);
    if sys.worker != Idle {
      PhaseRemains(sys.worker.phase);
    }
  }

  lemma PhaseRemains(p: Phase)
    ensures Remaining(p) > 0
  {
  }

  lemma {:induction false} StoppedIsFreedInTime(sys: System, h: Handle, begun: nat, events: seq<Event>)
    requires Inv(sys) && LegalRun(sys, events) && h.slot < MAX_CONNECTIONS && StoppedOrGone(sys, h, begun)
    requires WorkerTurns(events) >= TurnsToFree(sys, begun)
    ensures !HandleValid(Run(sys, events), h)
    decreases |events|
  {
    if !HandleValid(sys, h) {
      RunKeepsStopped(sys, events, h, begun);
      RunKeepsStopped(sys, events, h, begun + 1);
    } else {
      TurnsAreLeft(sys, h, begun);
      StepKeepsStopped(sys, events[0], h, begun);
      TurnBringsFreeNearer(sys, events[0], begun);
      StoppedIsFreedInTime(Next(sys, events[0]), h, begun, events[1..]);
    }
  }

  /** After a stop, every run in which the worker takes as many turns as are left in its
      pass and two more passes hold ends with the connection gone from its slot. */
  lemma StoppedSlotIsFreedInTime(sys: System, h: Handle, events: seq<Event>)
    requires Inv(sys) && LegalRun(sys, [Stop(h)] + events)
    requires WorkerTurns(events) >= LeftInPass(sys.worker) + 2 * TURNS_PER_PASS
    ensures !HandleValid(Run(sys, [Stop(h)] + events), h)
  {
    NextKeepsInv(sys, Stop(h));
    assert ([Stop(h)] + events)[0] == Stop(h) && ([Stop(h)] + events)[1..] == events;
    assert HandleValid(sys, h);
    StoppedIsFreedInTime(Next(sys, Stop(h)), h, sys.begun, events);
  }
}
