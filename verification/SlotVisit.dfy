/** What whole visits of the worker do to a slot, when no client steps in between: one
    exchange of bytes, the opening of a connection, and the ways to its end. */
module SlotVisits {
  import opened Wrappers
  import opened ConnectionSlots

  /** What the network answers in a visit, to each of the calls that it may make once. */
  datatype Network = Network(connect: Answer, send: Answer, poll: Answer, receive: Answer)
  {
    predicate Plausible() {
      && (connect.Unresolved? || connect.Refused? || connect.Opened?)
      && (send.Sent? || send.SendWouldBlock? || send.SendFailed?)
      && (poll.PollReady? || poll.PollNotReady? || poll.PollFailed?)
      && (receive.ReceiveWouldBlock? || receive.ReceiveFailed? || receive.RemoteClosed?
          || (receive.Received? && 0 < |receive.bytes| <= 1600))
    }

    /** A socket takes no more than it is given. */
    function AnswerTo(p: Phase): Answer {
      match p
      case ConnectOut => connect
      case TxSend(_, chunk) => if send.Sent? then Sent(Min(send.n, |chunk|)) else send
      case RxPoll(_) => poll
      case RxReceive(_) => receive
      case _ => NoCall
    }
  }

  /** Where a visit ends: the slot, and the sockets it closed. */
  datatype Course = Course(slot: Slot, closed: seq<Socket>)

  /** The visit from a phase on; `id` is the socket an open would return. */
  ghost function Visit(s: Slot, p: Phase, net: Network, id: Socket): Course
    requires |s.rx| <= QUEUE_SIZE && net.Plausible()
    decreases Remaining(p)
  {
    VisitEnds(s, p, net.AnswerTo(p), id);
    var o := Work(s, p, net.AnswerTo(p), id);
    var closed := if o.closes == None then [] else [o.closes.value];
    if o.next == None then Course(o.slot, closed)
    else
      var rest := Visit(o.slot, o.next.value, net, id);
      rest.(closed := closed + rest.closed)
  }

  lemma GoesOn(s: Slot, p: Phase, net: Network, id: Socket, t: Slot, q: Phase)
    requires |s.rx| <= QUEUE_SIZE && net.Plausible() && |t.rx| <= QUEUE_SIZE
    requires var o := Work(s, p, net.AnswerTo(p), id); o.slot == t && o.next == Some(q) && o.closes == None
    ensures Visit(s, p, net, id) == Visit(t, q, net, id)
  {
    hide Work;
  }

  lemma GoesOnClosing(s: Slot, p: Phase, net: Network, id: Socket, k: Socket, t: Slot, q: Phase)
    requires |s.rx| <= QUEUE_SIZE && net.Plausible() && |t.rx| <= QUEUE_SIZE
    requires var o := Work(s, p, net.AnswerTo(p), id); o.slot == t && o.next == Some(q) && o.closes == Some(k)
    ensures Visit(s, p, net, id) == Visit(t, q, net, id).(closed := [k] + Visit(t, q, net, id).closed)
  {
    hide Work;
  }

  lemma Ends(s: Slot, p: Phase, net: Network, id: Socket, t: Slot)
    requires |s.rx| <= QUEUE_SIZE && net.Plausible()
    requires var o := Work(s, p, net.AnswerTo(p), id); o.slot == t && o.next == None && o.closes == None
    ensures Visit(s, p, net, id) == Course(t, [])
  {
    hide Work;
  }

  // ------------------------------------------------------------- connected

  predicate Live(s: Slot, k: Socket) {
    s.inUse && s.state == Connected && s.socket == Some(k) && !s.stopRequested && |s.rx| <= QUEUE_SIZE
  }

  /** The slot once its socket has been offered the oldest queued bytes, 256 at most, and
      has taken some of them. */
  function AfterSend(s: Slot, answer: Answer): Slot {
    if answer.Sent? then
      var n := Min(answer.n, Min(256, |s.tx|));
      s.(tx := s.tx[n..], sent := s.sent + s.tx[..n])
    else s
  }

  predicate SendFails(s: Slot, answer: Answer) {
    answer.SendFailed? && s.tx != []
  }

  lemma SendPart(s: Slot, k: Socket, net: Network, id: Socket)
    requires Live(s, k) && net.Plausible() && !SendFails(s, net.send)
    ensures Visit(s, Look, net, id) == Visit(AfterSend(s, net.send), RxCount(k), net, id)
  {
    var chunk := s.tx[..Min(256, |s.tx|)];
    GoesOn(s, Look, net, id, s, PumpEnter);
    GoesOn(s, PumpEnter, net, id, s, TxPeek(k));
    if s.tx == [] {
      GoesOn(s, TxPeek(k), net, id, s, RxCount(k));
      assert AfterSend(s, net.send) == s;
    } else {
      GoesOn(s, TxPeek(k), net, id, s, TxSend(k, chunk));
      SendOffered(s, k, chunk, net, id);
    }
  }

  lemma SendOffered(s: Slot, k: Socket, chunk: seq<Byte>, net: Network, id: Socket)
    requires Live(s, k) && net.Plausible() && !SendFails(s, net.send)
    requires s.tx != [] && chunk == s.tx[..Min(256, |s.tx|)]
    ensures Visit(s, TxSend(k, chunk), net, id) == Visit(AfterSend(s, net.send), RxCount(k), net, id)
  {
    hide Visit, AfterSend;
    if net.send.Sent? && net.send.n > 0 {
      SendTaken(s, k, chunk, net, id);
    } else {
      NothingTaken(s, k, chunk, net, id);
    }
  }

  lemma NothingTaken(s: Slot, k: Socket, chunk: seq<Byte>, net: Network, id: Socket)
    requires Live(s, k) && net.Plausible() && (net.send.SendWouldBlock? || net.send == Sent(0))
    ensures AfterSend(s, net.send) == s
    ensures Visit(s, TxSend(k, chunk), net, id) == Visit(s, RxCount(k), net, id)
  {
    GoesOn(s, TxSend(k, chunk), net, id, s, RxCount(k));
  }

  lemma SendTaken(s: Slot, k: Socket, chunk: seq<Byte>, net: Network, id: Socket)
    requires Live(s, k) && net.Plausible() && net.send.Sent? && net.send.n > 0
    requires s.tx != [] && chunk == s.tx[..Min(256, |s.tx|)]
    ensures Visit(s, TxSend(k, chunk), net, id) == Visit(AfterSend(s, net.send), RxCount(k), net, id)
  {
    var n := Min(net.send.n, |chunk|);
    var taken := s.(sent := s.sent + s.tx[..n]);
    assert chunk[..n] == s.tx[..n];
    GoesOn(s, TxSend(k, chunk), net, id, taken, TxDrop(k, n));
    Dropped(taken, k, n, net, id);
  }

  lemma Dropped(s: Slot, k: Socket, n: nat, net: Network, id: Socket)
    requires |s.rx| <= QUEUE_SIZE && net.Plausible() && n <= |s.tx|
    ensures Visit(s, TxDrop(k, n), net, id) == Visit(s.(tx := s.tx[n..]), RxCount(k), net, id)
  {
    GoesOn(s, TxDrop(k, n), net, id, s.(tx := s.tx[n..]), RxCount(k));
  }

  lemma CloseCourse(s: Slot, k: Socket, final: NetState, net: Network, id: Socket)
    requires net.Plausible() && s.socket == Some(k) && |s.rx| <= QUEUE_SIZE
    ensures Visit(s, CloseTake(final), net, id) == Course(s.(socket := None, state := final), [k])
  {
    var t := s.(socket := None);
    GoesOn(s, CloseTake(final), net, id, t, CloseSocket(final, Some(k)));
    GoesOnClosing(t, CloseSocket(final, Some(k)), net, id, k, t, CloseDone(final));
    Ends(t, CloseDone(final), net, id, t.(state := final));
  }

  /** A visit to a connected slot sends first; then, if there is room for 1600 bytes, it
      polls and receives; a failure ends the connection in error, a socket closed by the
      other side ends it, and both close the socket. */
  lemma VisitOfConnected(s: Slot, k: Socket, net: Network, id: Socket)
    requires Live(s, k) && net.Plausible()
    ensures var t := AfterSend(s, net.send); var failed := t.(socket := None, state := Error);
      Visit(s, Look, net, id) ==
        if SendFails(s, net.send) then Course(failed, [k])
        else if |s.rx| + 1600 > QUEUE_SIZE then Course(t.(rxFullSkips := s.rxFullSkips + 1), [])
        else match net.poll
             case PollFailed => Course(failed, [k])
             case PollNotReady => Course(t, [])
             case _ =>
               match net.receive
               case Received(bytes) => Course(t.(rx := s.rx + bytes, delivered := s.delivered + bytes), [])
               case ReceiveWouldBlock => Course(t, [])
               case RemoteClosed => Course(failed.(state := Closed), [k])
               case _ => Course(failed, [k])
  {
    if SendFails(s, net.send) {
      SendRefused(s, k, net, id);
    } else {
      SendPart(s, k, net, id);
      ReceivePart(AfterSend(s, net.send), k, net, id);
    }
  }

  lemma SendRefused(s: Slot, k: Socket, net: Network, id: Socket)
    requires Live(s, k) && net.Plausible() && SendFails(s, net.send)
    ensures Visit(s, Look, net, id) == Course(s.(socket := None, state := Error), [k])
  {
    var chunk := s.tx[..Min(256, |s.tx|)];
    GoesOn(s, Look, net, id, s, PumpEnter);
    GoesOn(s, PumpEnter, net, id, s, TxPeek(k));
    GoesOn(s, TxPeek(k), net, id, s, TxSend(k, chunk));
    GoesOn(s, TxSend(k, chunk), net, id, s, CloseTake(Error));
    CloseCourse(s, k, Error, net, id);
  }

  lemma ReceivePart(t: Slot, k: Socket, net: Network, id: Socket)
    requires Live(t, k) && net.Plausible()
    ensures var failed := t.(socket := None, state := Error);
      Visit(t, RxCount(k), net, id) ==
        if |t.rx| + 1600 > QUEUE_SIZE then Course(t.(rxFullSkips := t.rxFullSkips + 1), [])
        else match net.poll
             case PollFailed => Course(failed, [k])
             case PollNotReady => Course(t, [])
             case _ =>
               match net.receive
               case Received(bytes) => Course(t.(rx := t.rx + bytes, delivered := t.delivered + bytes), [])
               case ReceiveWouldBlock => Course(t, [])
               case RemoteClosed => Course(failed.(state := Closed), [k])
               case _ => Course(failed, [k])
  {
    if |t.rx| + 1600 > QUEUE_SIZE {
      GoesOn(t, RxCount(k), net, id, t, RxAddFullSkip);
      Ends(t, RxAddFullSkip, net, id, t.(rxFullSkips := t.rxFullSkips + 1));
    } else {
      GoesOn(t, RxCount(k), net, id, t, RxPoll(k));
      if net.poll.PollFailed? {
        CloseCourse(t, k, Error, net, id);
        GoesOn(t, RxPoll(k), net, id, t, CloseTake(Error));
      } else if net.poll.PollNotReady? {
        Ends(t, RxPoll(k), net, id, t);
      } else {
        GoesOn(t, RxPoll(k), net, id, t, RxReceive(k));
        Answered(t, k, net, id);
        hide Visit;
      }
    }
  }

  lemma Answered(t: Slot, k: Socket, net: Network, id: Socket)
    requires Live(t, k) && net.Plausible() && |t.rx| + 1600 <= QUEUE_SIZE
    ensures Visit(t, RxReceive(k), net, id) ==
            match net.receive
            case Received(bytes) => Course(t.(rx := t.rx + bytes, delivered := t.delivered + bytes), [])
            case ReceiveWouldBlock => Course(t, [])
            case RemoteClosed => Course(t.(socket := None, state := Closed), [k])
            case _ => Course(t.(socket := None, state := Error), [k])
  {
    match net.receive {
      case Received(bytes) =>
        var arrived := t.(delivered := t.delivered + bytes);
        GoesOn(t, RxReceive(k), net, id, arrived, RxPush(bytes));
        Ends(arrived, RxPush(bytes), net, id, arrived.(rx := t.rx + bytes));
      case ReceiveWouldBlock => Ends(t, RxReceive(k), net, id, t);
      case RemoteClosed =>
        CloseCourse(t, k, Closed, net, id);
        GoesOn(t, RxReceive(k), net, id, t, CloseTake(Closed));
      case _ =>
        CloseCourse(t, k, Error, net, id);
        GoesOn(t, RxReceive(k), net, id, t, CloseTake(Error));
    }
  }

  // ------------------------------------------------------- beginning and end

  /** A visit to a slot that waits for its connection opens it, or ends it in error; if the
      slot is stopped already, the socket just opened is closed again. */
  lemma VisitOfConnecting(s: Slot, net: Network, id: Socket)
    requires s.inUse && s.state == Connecting && !s.connectStarted && s.socket == None
    requires |s.rx| <= QUEUE_SIZE && net.Plausible()
    ensures var t := s.(connectStarted := true);
      Visit(s, Look, net, id) ==
        if !net.connect.Opened? then Course(t.(state := Error), [])
        else if s.stopRequested then Course(t.(state := Closed), [id])
        else Course(t.(socket := Some(id), state := Connected), [])
  {
    var t := s.(connectStarted := true);
    GoesOn(s, Look, net, id, s, ConnectBegin);
    GoesOn(s, ConnectBegin, net, id, t, ConnectOut);
    match net.connect {
      case Unresolved =>
        GoesOn(t, ConnectOut, net, id, t, ResolveFailed);
        Ends(t, ResolveFailed, net, id, t.(state := Error));
      case Refused =>
        GoesOn(t, ConnectOut, net, id, t, ConnectCommit(None));
        Ends(t, ConnectCommit(None), net, id, t.(state := Error));
      case _ => Obtained(t, net, id);
    }
  }

  /** A connection just started is connected by the next visit that opens a socket, with
      empty queues. */
  lemma VisitOfStarted(s: Slot, generation: nat, net: Network, id: Socket)
    requires net.Plausible() && net.connect.Opened? && !s.inUse
    ensures var t := Visit(Started(s, generation), Look, net, id);
      && t.closed == [] && t.slot.inUse && t.slot.generation == generation && t.slot.state == Connected
      && t.slot.socket == Some(id) && t.slot.rx == t.slot.tx == [] && t.slot.rxDropped == t.slot.rxFullSkips == 0
  {
    VisitOfConnecting(Started(s, generation), net, id);
  }

  lemma Obtained(t: Slot, net: Network, id: Socket)
    requires t.socket == None && |t.rx| <= QUEUE_SIZE && net.Plausible() && net.connect.Opened?
    ensures Visit(t, ConnectOut, net, id) ==
            if t.stopRequested then Course(t.(state := Closed), [id])
            else Course(t.(socket := Some(id), state := Connected), [])
  {
    Opens(t, net, id);
    if t.stopRequested {
      GoesOn(t, ConnectCommit(Some(id)), net, id, t, AbandonClose(id));
      GoesOnClosing(t, AbandonClose(id), net, id, id, t, AbandonDone);
      Ends(t, AbandonDone, net, id, t.(state := Closed));
    } else {
      Ends(t, ConnectCommit(Some(id)), net, id, t.(socket := Some(id), state := Connected));
    }
  }

  lemma Opens(t: Slot, net: Network, id: Socket)
    requires |t.rx| <= QUEUE_SIZE && net.Plausible() && net.connect.Opened?
    ensures Visit(t, ConnectOut, net, id) == Visit(t, ConnectCommit(Some(id)), net, id)
  {
    GoesOn(t, ConnectOut, net, id, t, ConnectCommit(Some(id)));
  }

  /** The first visit after a stop closes the socket of a connected slot, and a visit to a
      stopped slot without a socket frees it, with empty queues. */
  lemma VisitOfStopped(s: Slot, net: Network, id: Socket)
    requires s.inUse && s.stopRequested && s.releaseRequested && |s.rx| <= QUEUE_SIZE && net.Plausible()
    requires (s.state == Connected && s.socket.Some?) || (s.state != Connecting && s.socket == None)
    ensures Visit(s, Look, net, id) ==
            if s.socket.Some? then Course(s.(socket := None, state := Closed), [s.socket.value])
            else Course(s.(inUse := false, stopRequested := false, releaseRequested := false, connectStarted := false,
                           state := Closed, rx := [], tx := []), [])
  {
    if s.socket.Some? {
      GoesOn(s, Look, net, id, s, PumpEnter);
      GoesOn(s, PumpEnter, net, id, s, CloseTake(Closed));
      CloseCourse(s, s.socket.value, Closed, net, id);
    } else {
      var t := s.(inUse := false, stopRequested := false, releaseRequested := false, connectStarted := false,
                  state := Closed, rx := [], tx := []);
      GoesOn(s, Look, net, id, s, Free);
      GoesOn(s, Free, net, id, t, FreeClose(None));
      Ends(t, FreeClose(None), net, id, t);
    }
  }

  /** A visit to a vacant slot does nothing. */
  lemma VisitOfVacant(s: Slot, net: Network, id: Socket)
    requires !s.inUse && |s.rx| <= QUEUE_SIZE && net.Plausible()
    ensures Visit(s, Look, net, id) == Course(s, [])
  {
    Ends(s, Look, net, id, s);
  }
}
