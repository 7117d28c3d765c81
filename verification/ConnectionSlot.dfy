/** One connection slot and the worker's visit to it.  The visit is cut into the
    critical sections and socket calls of the source, so that a client may act
    between any two of them. */
module ConnectionSlots {
  import opened Wrappers
  import Queue = ByteQueues

  const QUEUE_SIZE := Queue.QUEUE_SIZE
  const TX_CHUNK: nat := 256
  const RX_CHUNK: nat := 1600

  type Socket = nat

  datatype NetState = Connecting | Connected | Closed | Error

  /** A slot, followed by the history of its present connection: the bytes its
      socket delivered, the client received, the client's sends accepted and the
      socket took, and the number of passes begun when it was stopped. */
  datatype Slot = Slot(inUse: bool, releaseRequested: bool, stopRequested: bool, connectStarted: bool,
                       generation: nat, state: NetState, socket: Option<Socket>,
                       rx: seq<Byte>, tx: seq<Byte>, rxDropped: nat, rxFullSkips: nat,
                       delivered: seq<Byte>, received: seq<Byte>, accepted: seq<Byte>, sent: seq<Byte>,
                       stoppedAt: nat)

  const VACANT := Slot(false, false, false, false, 0, Closed, None, [], [], 0, 0, [], [], [], [], 0)

  // ----------------------------------------------------------- client steps

  /** Taking a vacant slot for a new connection. */
  function Started(s: Slot, generation: nat): Slot {
    s.(inUse := true, releaseRequested := false, stopRequested := false, connectStarted := false,
       generation := generation, state := Connecting, socket := None,
       rx := [], tx := [], rxDropped := 0, rxFullSkips := 0,
       delivered := [], received := [], accepted := [], sent := [])
  }

  function Stopped(s: Slot, generation: nat, begun: nat): Slot {
    if s.inUse && s.generation == generation
    then s.(stopRequested := true, releaseRequested := true, stoppedAt := begun)
    else s
  }

  /** A client's push onto the transmit queue: as much as fits. */
  function Accepting(s: Slot, bytes: seq<Byte>): Slot
    requires |s.tx| <= QUEUE_SIZE
  {
    var pushed := Queue.Fitting(|s.tx|, bytes);
    s.(tx := s.tx + pushed, accepted := s.accepted + pushed)
  }

  /** A client's pop from the receive queue: as much as there is. */
  function Receiving(s: Slot, len: nat): Slot {
    var popped := Queue.Oldest(s.rx, len);
    s.(rx := s.rx[|popped|..], received := s.received + popped)
  }

  // ----------------------------------------------------------- worker steps

  /** Where in a visit the worker stands: its next critical section or call. */
  datatype Phase =
    | Look
    | Free
    | FreeClose(lingering: Option<Socket>)
    | ConnectBegin
    | ConnectOut
    | ResolveFailed
    | ConnectCommit(obtained: Option<Socket>)
    | AbandonClose(abandoned: Socket)
    | AbandonDone
    | PumpEnter
    | TxPeek(socket: Socket)
    | TxSend(socket: Socket, chunk: seq<Byte>)
    | TxDrop(socket: Socket, taken: nat)
    | RxCount(socket: Socket)
    | RxPoll(socket: Socket)
    | RxReceive(socket: Socket)
    | RxPush(bytes: seq<Byte>)
    | RxAddDropped(lost: nat)
    | RxAddFullSkip
    | CloseTake(final: NetState)
    | CloseSocket(final: NetState, closing: Option<Socket>)
    | CloseDone(final: NetState)

  /** What the network answers to the call made in a phase. */
  datatype Answer =
    | NoCall
    | Unresolved | Refused | Opened
    | Sent(n: nat) | SendWouldBlock | SendFailed
    | PollReady | PollNotReady | PollFailed
    | Received(bytes: seq<Byte>) | ReceiveWouldBlock | ReceiveFailed | RemoteClosed

  /** A socket takes no more than it was given and delivers no more than was asked for. */
  predicate Plausible(p: Phase, a: Answer) {
    match p
    case ConnectOut => a.Unresolved? || a.Refused? || a.Opened?
    case TxSend(_, chunk) => (a.Sent? && a.n <= |chunk|) || a.SendWouldBlock? || a.SendFailed?
    case RxPoll(_) => a.PollReady? || a.PollNotReady? || a.PollFailed?
    case RxReceive(_) =>
      (a.Received? && 0 < |a.bytes| <= RX_CHUNK) || a.ReceiveWouldBlock? || a.ReceiveFailed? || a.RemoteClosed?
    case _ => a.NoCall?
  }

  /** The slot after one step of a visit, the next phase (none: the visit is over),
      and the socket the step opened or closed. */
  datatype Outcome = Outcome(slot: Slot, next: Option<Phase>, opens: Option<Socket>, closes: Option<Socket>)

  function To(s: Slot, p: Phase): Outcome { Outcome(s, Some(p), None, None) }

  function Over(s: Slot): Outcome { Outcome(s, None, None, None) }

  function LookAt(s: Slot): Outcome {
    if !s.inUse then Over(s)
    else if s.releaseRequested && s.socket == None && s.state != Connecting then To(s, Free)
    else if s.state == Connecting && !s.connectStarted then To(s, ConnectBegin)
    else if s.state == Connected then To(s, PumpEnter)
    else if s.releaseRequested && (s.state == Closed || s.state == Error) then To(s, Free)
    else Over(s)
  }

  function Freed(s: Slot): Slot {
    s.(socket := None, rx := [], tx := [], releaseRequested := false, stopRequested := false,
       connectStarted := false, state := Closed, inUse := false)
  }

  function Commit(s: Slot, obtained: Option<Socket>): Outcome {
    if s.stopRequested && obtained.Some? then To(s.(socket := None), AbandonClose(obtained.value))
    else if obtained == None then Over(s.(state := Error, socket := None))
    else Over(s.(socket := obtained, state := Connected))
  }

  function EnterPump(s: Slot): Outcome {
    if s.stopRequested then To(s, CloseTake(Closed))
    else if s.state != Connected || s.socket == None then Over(s)
    else To(s, TxPeek(s.socket.value))
  }

  function Transmitted(s: Slot, socket: Socket, chunk: seq<Byte>, a: Answer): Outcome
    requires Plausible(TxSend(socket, chunk), a)
  {
    match a
    case Sent(n) =>
      if n > 0 then To(s.(sent := s.sent + chunk[..n]), TxDrop(socket, n)) else To(s, RxCount(socket))
    case SendWouldBlock => To(s, RxCount(socket))
    case _ => To(s, CloseTake(Error))
  }

  function Arrived(s: Slot, a: Answer): Outcome {
    match a
    case Received(bytes) => To(s.(delivered := s.delivered + bytes), RxPush(bytes))
    case ReceiveWouldBlock => Over(s)
    case RemoteClosed => To(s, CloseTake(Closed))
    case _ => To(s, CloseTake(Error))
  }

  function Pushed(s: Slot, bytes: seq<Byte>): Outcome
    requires |s.rx| <= QUEUE_SIZE
  {
    var pushed := Queue.Fitting(|s.rx|, bytes);
    var after := s.(rx := s.rx + pushed);
    if |pushed| < |bytes| then To(after, RxAddDropped(|bytes| - |pushed|)) else Over(after)
  }

  /** One step of a visit; `id` is the socket an open would return. */
  function Work(s: Slot, p: Phase, a: Answer, id: Socket): (o: Outcome)
    requires |s.rx| <= QUEUE_SIZE && Plausible(p, a)
  {
    match p
    case Look => LookAt(s)
    case Free => To(Freed(s), FreeClose(s.socket))
    case FreeClose(k) => Over(s).(closes := k)
    case ConnectBegin => To(s.(connectStarted := true), ConnectOut)
    case ConnectOut =>
      if a.Unresolved? then To(s, ResolveFailed)
      else if a.Refused? then To(s, ConnectCommit(None))
      else To(s, ConnectCommit(Some(id))).(opens := Some(id))
    case ResolveFailed => Over(s.(state := Error))
    case ConnectCommit(k) => Commit(s, k)
    case AbandonClose(k) => To(s, AbandonDone).(closes := Some(k))
    case AbandonDone => Over(s.(state := Closed))
    case PumpEnter => EnterPump(s)
    case TxPeek(k) =>
      var chunk := Queue.Oldest(s.tx, TX_CHUNK);
      To(s, if |chunk| > 0 then TxSend(k, chunk) else RxCount(k))
    case TxSend(k, chunk) => Transmitted(s, k, chunk, a)
    case TxDrop(k, n) => To(s.(tx := s.tx[|Queue.Oldest(s.tx, n)|..]), RxCount(k))
    case RxCount(k) => To(s, if |s.rx| <= QUEUE_SIZE - RX_CHUNK then RxPoll(k) else RxAddFullSkip)
    case RxPoll(k) =>
      if a.PollFailed? then To(s, CloseTake(Error)) else if a.PollReady? then To(s, RxReceive(k)) else Over(s)
    case RxReceive(_) => Arrived(s, a)
    case RxPush(bytes) => Pushed(s, bytes)
    case RxAddDropped(n) => Over(s.(rxDropped := s.rxDropped + n))
    case RxAddFullSkip => Over(s.(rxFullSkips := s.rxFullSkips + 1))
    case CloseTake(f) => To(s.(socket := None), CloseSocket(f, s.socket))
    case CloseSocket(f, k) => To(s, CloseDone(f)).(closes := k)
    case CloseDone(f) => Over(s.(state := f))
  }

  /** How many more steps a visit can take. */
  function Remaining(p: Phase): nat {
    match p
    case Look => 13
    case Free => 2
    case FreeClose(_) => 1
    case ConnectBegin => 5
    case ConnectOut => 4
    case ResolveFailed => 1
    case ConnectCommit(_) => 3
    case AbandonClose(_) => 2
    case AbandonDone => 1
    case PumpEnter => 11
    case TxPeek(_) => 10
    case TxSend(_, _) => 9
    case TxDrop(_, _) => 8
    case RxCount(_) => 7
    case RxPoll(_) => 6
    case RxReceive(_) => 5
    case RxPush(_) => 2
    case RxAddDropped(_) => 1
    case RxAddFullSkip => 1
    case CloseTake(_) => 3
    case CloseSocket(_, _) => 2
    case CloseDone(_) => 1
  }

  /** A visit ends: whatever the network answers, at most thirteen steps are left. */
  lemma VisitEnds(s: Slot, p: Phase, a: Answer, id: Socket)
    requires |s.rx| <= QUEUE_SIZE && Plausible(p, a)
    ensures var next := Work(s, p, a, id).next; next.Some? ==> Remaining(next.value) < Remaining(p)
  {
  }

  // -------------------------------------------------------------- invariant

  /** Where the worker's current pass stands with respect to a slot. */
  datatype View = Ahead | Here(phase: Phase) | Behind

  predicate Settled(s: Slot) { s.socket == None && (s.state == Closed || s.state == Error) }

  /** Between visits a slot holds a socket exactly when it is connected. */
  predicate AtRest(s: Slot) {
    && (s.socket.Some? <==> s.state == Connected)
    && (s.state == Connecting ==> !s.connectStarted)
    && (!s.inUse ==> s.state == Closed)
  }

  predicate IsConnected(s: Slot) { s.inUse && s.state == Connected && s.socket.Some? }

  predicate IsConnecting(s: Slot) { s.inUse && s.state == Connecting && s.connectStarted && s.socket == None }

  predicate HoldsSocket(s: Slot, k: Socket) { s.inUse && s.state == Connected && s.socket == Some(k) }

  predicate ConsistentWith(s: Slot, v: View) {
    if !v.Here? then AtRest(s) else
    match v.phase
    case Look => AtRest(s)
    case Free => s.inUse && s.releaseRequested && Settled(s)
    case FreeClose(k) => AtRest(s) && k == None
    case ConnectBegin => s.inUse && s.state == Connecting && !s.connectStarted && s.socket == None
    case ConnectOut => IsConnecting(s)
    case ResolveFailed => IsConnecting(s)
    case ConnectCommit(_) => IsConnecting(s)
    case AbandonClose(_) => IsConnecting(s) && s.stopRequested
    case AbandonDone => IsConnecting(s) && s.stopRequested
    case PumpEnter => IsConnected(s)
    case TxPeek(k) => HoldsSocket(s, k)
    case TxSend(k, chunk) => HoldsSocket(s, k) && chunk <= s.tx
    case TxDrop(k, _) => HoldsSocket(s, k)
    case RxCount(k) => HoldsSocket(s, k)
    case RxPoll(k) => HoldsSocket(s, k) && |s.rx| <= QUEUE_SIZE - RX_CHUNK
    case RxReceive(k) => HoldsSocket(s, k) && |s.rx| <= QUEUE_SIZE - RX_CHUNK
    case RxPush(bytes) => IsConnected(s) && |s.rx| <= QUEUE_SIZE - RX_CHUNK && |bytes| <= RX_CHUNK
    case RxAddDropped(_) => false
    case RxAddFullSkip => IsConnected(s)
    case CloseTake(f) => IsConnected(s) && (f == Closed || f == Error)
    case CloseSocket(f, k) => s.inUse && s.state == Connected && s.socket == None && (f == Closed || f == Error)
    case CloseDone(f) => s.inUse && s.state == Connected && s.socket == None && (f == Closed || f == Error)
  }

  /** Bytes the socket has delivered that are not yet in the receive queue. */
  function InFlight(v: View): seq<Byte> {
    if v.Here? && v.phase.RxPush? then v.phase.bytes else []
  }

  /** Bytes the socket has taken that are still in the transmit queue. */
  function Unconfirmed(v: View): nat {
    if v.Here? && v.phase.TxDrop? then v.phase.taken else 0
  }

  /** Nothing is lost, repeated or reordered between client and socket, either way. */
  predicate StreamsIntact(s: Slot, v: View) {
    && |s.rx| <= QUEUE_SIZE && |s.tx| <= QUEUE_SIZE && s.rxDropped == 0
    && (if s.inUse
        then && s.received + s.rx + InFlight(v) == s.delivered
             && Unconfirmed(v) <= |s.tx| && s.sent + s.tx[Unconfirmed(v)..] == s.accepted
        else s.received <= s.delivered && s.sent <= s.accepted)
  }

  predicate Looks(p: Phase) { p.Look? || p.Free? || p.FreeClose? }

  predicate Sends(p: Phase) { p.TxPeek? || p.TxSend? || p.TxDrop? }

  predicate Receives(p: Phase) {
    p.RxCount? || p.RxPoll? || p.RxReceive? || p.RxPush? || p.RxAddDropped? || p.RxAddFullSkip?
  }

  predicate Connects(p: Phase) {
    p.ConnectBegin? || p.ConnectOut? || p.ResolveFailed? || p.ConnectCommit? || p.AbandonClose? || p.AbandonDone?
  }

  /** How far a stopped slot is on its way out, `begun` passes having begun in all. */
  predicate OnItsWayOut(s: Slot, v: View, begun: nat) {
    && s.releaseRequested == s.stopRequested
    && (!s.inUse ==> !s.stopRequested)
    && (s.stopRequested ==>
          && s.stoppedAt <= begun <= s.stoppedAt + 2
          && (begun > s.stoppedAt && v == Behind ==> begun == s.stoppedAt + 1 && Settled(s))
          && (begun == s.stoppedAt + 2 ==> Settled(s) && (v == Ahead || v == Here(Look) || v == Here(Free)))
          && (v.Here? && (Sends(v.phase) || Receives(v.phase) || v.phase.FreeClose?) ==> begun == s.stoppedAt))
  }

  predicate SlotInv(s: Slot, v: View, begun: nat) {
    ConsistentWith(s, v) && StreamsIntact(s, v) && OnItsWayOut(s, v, begun)
  }

  // ------------------------------------------------------- steps keep it all

  function ViewAfter(next: Option<Phase>): View {
    match next
    case None => Behind
    case Some(p) => Here(p)
  }

  /** The socket took part of the bytes peeked; they stay queued until the drop. */
  lemma SendKeepsStreams(s: Slot, k: Socket, chunk: seq<Byte>, a: Answer)
    requires Plausible(TxSend(k, chunk), a) && HoldsSocket(s, k)
    requires chunk <= s.tx && StreamsIntact(s, Here(TxSend(k, chunk)))
    ensures var o := Transmitted(s, k, chunk, a); StreamsIntact(o.slot, ViewAfter(o.next))
  {
    if a.Sent? && a.n > 0 {
      assert s.tx[0..] == s.tx == chunk[..a.n] + s.tx[a.n..];
      assert s.sent + (chunk[..a.n] + s.tx[a.n..]) == (s.sent + chunk[..a.n]) + s.tx[a.n..];
    }
  }

  /** The push always fits, because of the room checked before the socket was read. */
  lemma PushKeepsStreams(s: Slot, bytes: seq<Byte>)
    requires IsConnected(s) && |s.rx| <= QUEUE_SIZE - RX_CHUNK && |bytes| <= RX_CHUNK
    requires StreamsIntact(s, Here(RxPush(bytes)))
    ensures var o := Pushed(s, bytes); o.next == None && StreamsIntact(o.slot, Behind)
  {
    assert s.received + (s.rx + bytes) == s.received + s.rx + bytes;
  }

  lemma ConnectKeepsInv(s: Slot, p: Phase, a: Answer, id: Socket, begun: nat)
    requires Connects(p) && SlotInv(s, Here(p), begun) && Plausible(p, a)
    ensures var o := Work(s, p, a, id); SlotInv(o.slot, ViewAfter(o.next), begun)
  {
  }

  lemma SendingKeepsInv(s: Slot, p: Phase, a: Answer, id: Socket, begun: nat)
    requires Sends(p) && SlotInv(s, Here(p), begun) && Plausible(p, a)
    ensures var o := Work(s, p, a, id); SlotInv(o.slot, ViewAfter(o.next), begun)
  {
    match p
    case TxPeek(_) =>
    case TxSend(k, chunk) => SendKeepsStreams(s, k, chunk, a);
    case TxDrop(k, n) => assert s.tx[n..][0..] == s.tx[n..];
  }

  lemma ReceivingKeepsInv(s: Slot, p: Phase, a: Answer, id: Socket, begun: nat)
    requires Receives(p) && SlotInv(s, Here(p), begun) && Plausible(p, a)
    ensures var o := Work(s, p, a, id); SlotInv(o.slot, ViewAfter(o.next), begun)
  {
    if p.RxPush? {
      PushKeepsStreams(s, p.bytes);
    } else if a.Received? {
      assert s.received + s.rx + a.bytes == s.delivered + a.bytes;
    }
  }

  lemma LookingKeepsInv(s: Slot, p: Phase, a: Answer, id: Socket, begun: nat)
    requires Looks(p) && SlotInv(s, Here(p), begun) && Plausible(p, a)
    ensures var o := Work(s, p, a, id); SlotInv(o.slot, ViewAfter(o.next), begun)
  {
    assert s.received <= s.delivered && s.sent <= s.accepted by {
      assert s.inUse ==> s.received + s.rx == s.delivered;
    }
  }

  lemma ClosingKeepsInv(s: Slot, p: Phase, a: Answer, id: Socket, begun: nat)
    requires !Looks(p) && !Connects(p) && !Sends(p) && !Receives(p)
    requires SlotInv(s, Here(p), begun) && Plausible(p, a)
    ensures var o := Work(s, p, a, id); SlotInv(o.slot, ViewAfter(o.next), begun)
  {
  }

  lemma WorkKeepsInv(s: Slot, p: Phase, a: Answer, id: Socket, begun: nat)
    requires SlotInv(s, Here(p), begun) && Plausible(p, a)
    ensures var o := Work(s, p, a, id); SlotInv(o.slot, ViewAfter(o.next), begun)
  {
    hide SlotInv, Work, Plausible, Looks, Connects, Sends, Receives;
    if Looks(p) {
      LookingKeepsInv(s, p, a, id, begun);
    } else if Connects(p) {
      ConnectKeepsInv(s, p, a, id, begun);
    } else if Sends(p) {
      SendingKeepsInv(s, p, a, id, begun);
    } else if Receives(p) {
      ReceivingKeepsInv(s, p, a, id, begun);
    } else {
      ClosingKeepsInv(s, p, a, id, begun);
    }
  }

  lemma StartKeepsInv(s: Slot, v: View, generation: nat, begun: nat)
    requires SlotInv(s, v, begun) && !s.inUse
    ensures SlotInv(Started(s, generation), v, begun)
  {
  }

  lemma StopKeepsInv(s: Slot, v: View, begun: nat)
    requires SlotInv(s, v, begun) && s.inUse && !s.stopRequested
    ensures SlotInv(Stopped(s, s.generation, begun), v, begun)
  {
  }

  /** A push by the client behind the bytes peeked or being dropped disturbs neither. */
  lemma AcceptKeepsInv(s: Slot, v: View, bytes: seq<Byte>, begun: nat)
    requires SlotInv(s, v, begun) && s.inUse
    ensures SlotInv(Accepting(s, bytes), v, begun)
  {
    var n, pushed := Unconfirmed(v), Queue.Fitting(|s.tx|, bytes);
    assert (s.tx + pushed)[n..] == s.tx[n..] + pushed;
    assert s.sent + (s.tx[n..] + pushed) == s.sent + s.tx[n..] + pushed;
  }

  lemma ReceiveKeepsInv(s: Slot, v: View, len: nat, begun: nat)
    requires SlotInv(s, v, begun) && s.inUse
    ensures SlotInv(Receiving(s, len), v, begun)
  {
    var popped := Queue.Oldest(s.rx, len);
    assert s.received + s.rx == (s.received + popped) + s.rx[|popped|..];
  }

  lemma NewPassKeepsInv(s: Slot, begun: nat)
    requires SlotInv(s, Behind, begun)
    ensures SlotInv(s, Ahead, begun + 1)
  {
  }

  // ---------------------------------------------------------------- sockets

  /** One if the variable holds the socket, else zero. */
  function Holds(held: Option<Socket>, k: Socket): nat {
    if held == Some(k) then 1 else 0
  }

  /** The socket only the worker's local variable holds in a phase. */
  function Local(v: View): Option<Socket> {
    if !v.Here? then None else
    match v.phase
    case FreeClose(k) => k
    case ConnectCommit(k) => k
    case AbandonClose(k) => Some(k)
    case CloseSocket(_, k) => k
    case _ => None
  }

  /** Each step leaves the socket where it is, opens one into the worker's hands,
      takes it from the slot, gives it to the slot, or closes the one in hand. */
  lemma WorkMovesOneSocket(s: Slot, p: Phase, a: Answer, id: Socket)
    requires |s.rx| <= QUEUE_SIZE && Plausible(p, a) && ConsistentWith(s, Here(p))
    ensures var o := Work(s, p, a, id); OneSocketMoves(s, Local(Here(p)), o, Local(ViewAfter(o.next)), id)
  {
    if Sends(p) || Receives(p) {
      TransferMovesNone(s, p, a, id);
      hide Work, OneSocketMoves;
    } else {
      hide Sends, Receives, Transmitted, Arrived, Pushed;
    }
  }

  lemma TransferMovesNone(s: Slot, p: Phase, a: Answer, id: Socket)
    requires |s.rx| <= QUEUE_SIZE && Plausible(p, a) && (Sends(p) || Receives(p))
    ensures var o := Work(s, p, a, id); OneSocketMoves(s, Local(Here(p)), o, Local(ViewAfter(o.next)), id)
  {
    hide LookAt, Commit, EnterPump, Freed;
  }

  predicate OneSocketMoves(s: Slot, before: Option<Socket>, o: Outcome, after: Option<Socket>, id: Socket) {
    || (o.slot.socket == s.socket && after == before && o.opens == None && o.closes == None)
    || (o.slot.socket == s.socket && before == None && after == o.opens == Some(id) && o.closes == None)
    || (o.slot.socket == None && before == None && after == s.socket && o.opens == None && o.closes == None)
    || (s.socket == None && o.slot.socket == before && after == None && o.opens == None && o.closes == None)
    || (o.slot.socket == s.socket && after == None && o.opens == None && o.closes == before)
  }

  /** No step loses a socket, copies one, or closes one that is still held. */
  lemma WorkConservesSockets(s: Slot, p: Phase, a: Answer, id: Socket, k: Socket)
    requires |s.rx| <= QUEUE_SIZE && Plausible(p, a) && ConsistentWith(s, Here(p))
    ensures var o := Work(s, p, a, id);
      Holds(s.socket, k) + Holds(Local(Here(p)), k) + Holds(o.opens, k)
        == Holds(o.slot.socket, k) + Holds(Local(ViewAfter(o.next)), k) + Holds(o.closes, k)
  {
    WorkMovesOneSocket(s, p, a, id);
    hide Work, Local, ViewAfter, ConsistentWith, Plausible;
  }

  // ---------------------------------------------------------------- history

  /** The same connection, its streams only ever extended. */
  predicate Extends(s: Slot, t: Slot) {
    && s.generation == t.generation
    && s.delivered <= t.delivered && s.received <= t.received && s.accepted <= t.accepted && s.sent <= t.sent
  }

  lemma TransferExtends(s: Slot, p: Phase, a: Answer, id: Socket)
    requires |s.rx| <= QUEUE_SIZE && Plausible(p, a) && (Sends(p) || Receives(p))
    ensures Extends(s, Work(s, p, a, id).slot)
  {
  }

  lemma WorkExtends(s: Slot, p: Phase, a: Answer, id: Socket)
    requires |s.rx| <= QUEUE_SIZE && Plausible(p, a)
    ensures Extends(s, Work(s, p, a, id).slot)
  {
    if Sends(p) || Receives(p) {
      TransferExtends(s, p, a, id);
      hide Work;
    } else {
      hide Sends, Receives, Transmitted, Arrived, Pushed;
    }
  }
}
