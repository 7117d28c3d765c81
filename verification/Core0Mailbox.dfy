/** The hand-off of display operations from core 1 to core 0: one mailbox word, a
    request record beside it, and the event register that a waiting core sleeps on.
    Every atomic access, every write to the record and every SEV or WFE is one step,
    and the steps of the two cores interleave freely. */
module Core0Mailbox {

  datatype MailboxState = Idle | Pending | Completed

  datatype Request = Request(command: nat, args: seq<int>)

  datatype Done = Done(request: Request, core: nat, result: int)

  /** Core 1's next step. */
  datatype Requester =
    | Free                          // between operations
    | Direct(op: Request)           // running the operation itself
    | FillArgs(op: Request)
    | FillCommand(op: Request)
    | StorePending
    | SignalPending
    | LoadState
    | WaitForEvent
    | StoreIdle
    | ReadResult

  /** Core 0's next step. */
  datatype Server =
    | Poll
    | ClearResult
    | ReadCommand
    | Serving(request: Request)
    | StoreCompleted
    | SignalCompleted

  /** `eventSet` is core 1's event register.  The last three fields record the
      operations issued, executed and returned from. */
  datatype System = System(state: MailboxState, command: nat, args: seq<int>, result: int,
                           eventSet: bool, committed: bool, requester: Requester, server: Server,
                           issued: seq<Request>, executed: seq<Done>, returned: seq<int>)

  datatype Event =
    | Issue(op: Request)
    | Core1Step
    | DirectDone(value: int)
    | Core0Step
    | ServiceDone(outcome: int)
    | Commit      // the display is handed over to native scanout, at any moment
    | Disturb     // something else sets core 1's event register

  predicate Initial(sys: System) {
    && sys.state == Idle && !sys.committed && sys.requester == Free && sys.server == Poll
    && sys.issued == [] && sys.executed == [] && sys.returned == []
  }

  predicate Legal(sys: System, e: Event) {
    match e
    case Issue(_) => sys.requester.Free?
    case Core1Step =>
      && !sys.requester.Free? && !sys.requester.Direct?
      && (sys.requester.WaitForEvent? ==> sys.eventSet)
    case DirectDone(_) => sys.requester.Direct?
    case Core0Step => !sys.server.Serving?
    case ServiceDone(_) => sys.server.Serving?
    case Commit => true
    case Disturb => true
  }

  function Core1(sys: System): System
    requires Legal(sys, Core1Step)
  {
    match sys.requester
    case FillArgs(op) => sys.(args := op.args, requester := FillCommand(op))
    case FillCommand(op) => sys.(command := op.command, requester := StorePending)
    case StorePending => sys.(state := Pending, requester := SignalPending)
    case SignalPending => sys.(eventSet := true, requester := LoadState)
    case LoadState => sys.(requester := if sys.state == Completed then StoreIdle else WaitForEvent)
    case WaitForEvent => sys.(eventSet := false, requester := LoadState)
    case StoreIdle => sys.(state := Idle, requester := ReadResult)
    case ReadResult => sys.(returned := sys.returned + [sys.result], requester := Free)
  }

  function Core0(sys: System): System
    requires Legal(sys, Core0Step)
  {
    match sys.server
    case Poll => sys.(server := if sys.state == Pending then ClearResult else Poll)
    case ClearResult => sys.(result := 0, server := ReadCommand)
    case ReadCommand => sys.(server := Serving(Request(sys.command, sys.args)))
    case StoreCompleted => sys.(state := Completed, server := SignalCompleted)
    case SignalCompleted => sys.(eventSet := true, server := Poll)
  }

  function Next(sys: System, e: Event): System
    requires Legal(sys, e)
  {
    match e
    case Issue(op) =>
      sys.(issued := sys.issued + [op], requester := if sys.committed then Direct(op) else FillArgs(op))
    case Core1Step => Core1(sys)
    case DirectDone(v) =>
      sys.(executed := sys.executed + [Done(sys.requester.op, 1, v)],
           returned := sys.returned + [v], requester := Free)
    case Core0Step => Core0(sys)
    case ServiceDone(v) =>
      sys.(executed := sys.executed + [Done(sys.server.request, 0, v)], result := v, server := StoreCompleted)
    case Commit => sys.(committed := true)
    case Disturb => sys.(eventSet := true)
  }

  // -------------------------------------------------------------- invariant

  predicate ServerAtRest(s: Server) { s.Poll? || s.SignalCompleted? }

  /** Operations are executed in the order issued, each once, and each return
      delivers the result of its own. */
  predicate InOrder(issued: seq<Request>, executed: seq<Done>, returned: seq<int>) {
    && |returned| <= |executed| <= |issued|
    && (forall k | 0 <= k < |executed| :: executed[k].request == issued[k])
    && (forall k | 0 <= k < |returned| :: returned[k] == executed[k].result)
  }

  /** The operation under way is the last one issued and has not been executed. */
  predicate Owes(sys: System) {
    |sys.executed| == |sys.issued| - 1 && |sys.returned| == |sys.executed|
  }

  /** The operation under way has been executed, and its result is there to read. */
  predicate Answered(sys: System) {
    && |sys.executed| == |sys.issued| && |sys.returned| == |sys.issued| - 1
    && sys.result == sys.executed[|sys.issued| - 1].result
  }

  predicate Published(sys: System) {
    sys.issued != [] && Request(sys.command, sys.args) == sys.issued[|sys.issued| - 1]
  }

  predicate RequesterInv(sys: System) {
    match sys.requester
    case Free => sys.state == Idle && |sys.returned| == |sys.issued| && ServerAtRest(sys.server)
    case Direct(op) =>
      sys.state == Idle && Owes(sys) && sys.committed && op == sys.issued[|sys.issued| - 1] && ServerAtRest(sys.server)
    case FillArgs(op) =>
      sys.state == Idle && Owes(sys) && op == sys.issued[|sys.issued| - 1] && ServerAtRest(sys.server)
    case FillCommand(op) =>
      && sys.state == Idle && Owes(sys) && op == sys.issued[|sys.issued| - 1]
      && sys.args == op.args && ServerAtRest(sys.server)
    case StorePending =>
      sys.state == Idle && Owes(sys) && Published(sys) && ServerAtRest(sys.server)
    case StoreIdle => sys.state == Completed && Answered(sys) && ServerAtRest(sys.server)
    case ReadResult => sys.state == Idle && Answered(sys) && ServerAtRest(sys.server)
    case _ =>
      Published(sys)
      && match sys.state
         case Idle => false
         case Pending =>
           if sys.server.StoreCompleted? then Answered(sys) else Owes(sys)
         case Completed => Answered(sys) && ServerAtRest(sys.server)
  }

  predicate ServerInv(sys: System) {
    && (!ServerAtRest(sys.server) ==> sys.state == Pending)
    && (sys.server.Serving? ==> sys.issued != [] && sys.server.request == sys.issued[|sys.issued| - 1])
  }

  predicate AllOnCore0(executed: seq<Done>) {
    forall k | 0 <= k < |executed| :: executed[k].core == 0
  }

  /** Core 0 executes some first operations, and core 1 all later ones. */
  predicate HandedOverOnce(executed: seq<Done>) {
    && (forall k | 0 <= k < |executed| :: executed[k].core == 0 || executed[k].core == 1)
    && (forall j, k | 0 <= j < k < |executed| :: executed[j].core <= executed[k].core)
  }

  /** Core 1 executes nothing before the commit, nor while a request of its own that it
      dispatched before the commit is still under way. */
  predicate CoresInv(sys: System) {
    && HandedOverOnce(sys.executed)
    && (!sys.committed || !(sys.requester.Free? || sys.requester.Direct?) ==> AllOnCore0(sys.executed))
  }

  /** No lost wake-up: an answered requester that is going to sleep, or asleep, has its
      event register set, or core 0's signal is still to come. */
  predicate WillWake(sys: System) {
    sys.requester.WaitForEvent? && sys.state == Completed ==> sys.eventSet || sys.server.SignalCompleted?
  }

  predicate Inv(sys: System) {
    && InOrder(sys.issued, sys.executed, sys.returned) && (sys.issued == [] ==> sys.requester.Free?)
    && RequesterInv(sys) && ServerInv(sys) && CoresInv(sys) && WillWake(sys)
  }

  lemma IssueKeepsInv(sys: System, op: Request)
    requires Inv(sys) && Legal(sys, Issue(op))
    ensures Inv(Next(sys, Issue(op)))
  {
  }

  lemma ReadKeepsInv(sys: System)
    requires Inv(sys) && sys.requester.ReadResult?
    ensures Inv(Core1(sys))
  {
    hide HandedOverOnce, AllOnCore0;
  }

  lemma PublishKeepsInv(sys: System)
    requires Inv(sys) && (sys.requester.FillArgs? || sys.requester.FillCommand? || sys.requester.StorePending?)
    ensures Inv(Core1(sys))
  {
    hide HandedOverOnce, AllOnCore0, InOrder;
  }

  lemma AwaitKeepsInv(sys: System)
    requires Inv(sys) && Legal(sys, Core1Step)
    requires sys.requester.SignalPending? || sys.requester.LoadState? || sys.requester.WaitForEvent? || sys.requester.StoreIdle?
    ensures Inv(Core1(sys))
  {
    hide HandedOverOnce, AllOnCore0, InOrder;
  }

  lemma Core1KeepsInv(sys: System)
    requires Inv(sys) && Legal(sys, Core1Step)
    ensures Inv(Core1(sys))
  {
    hide Inv;
    if sys.requester.ReadResult? {
      ReadKeepsInv(sys);
    } else if sys.requester.FillArgs? || sys.requester.FillCommand? || sys.requester.StorePending? {
      PublishKeepsInv(sys);
    } else {
      AwaitKeepsInv(sys);
    }
  }

  lemma DirectKeepsInv(sys: System, v: int)
    requires Inv(sys) && Legal(sys, DirectDone(v))
    ensures Inv(Next(sys, DirectDone(v)))
  {
  }

  lemma Core0KeepsInv(sys: System)
    requires Inv(sys) && Legal(sys, Core0Step)
    ensures Inv(Core0(sys))
  {
    hide HandedOverOnce, AllOnCore0, InOrder;
  }

  lemma ServiceKeepsInv(sys: System, v: int)
    requires Inv(sys) && Legal(sys, ServiceDone(v))
    ensures Inv(Next(sys, ServiceDone(v)))
  {
  }

  lemma NextKeepsInv(sys: System, e: Event)
    requires Inv(sys) && Legal(sys, e)
    ensures Inv(Next(sys, e))
  {
    match e
    case Issue(op) => IssueKeepsInv(sys, op);
    case Core1Step => Core1KeepsInv(sys);
    case DirectDone(v) => DirectKeepsInv(sys, v);
    case Core0Step => Core0KeepsInv(sys);
    case ServiceDone(v) => ServiceKeepsInv(sys, v);
    case Commit =>
    case Disturb =>
  }

  // ------------------------------------------------------------------- runs

  ghost predicate LegalRun(sys: System, events: seq<Event>)
    decreases |events|
  {
    events != [] ==> Legal(sys, events[0]) && LegalRun(Next(sys, events[0]), events[1..])
  }

  ghost function Run(sys: System, events: seq<Event>): System
    requires LegalRun(sys, events)
    decreases |events|
  {
    if events == [] then sys else Run(Next(sys, events[0]), events[1..])
  }

  lemma {:induction false} RunKeepsInv(sys: System, events: seq<Event>)
    requires Inv(sys) && LegalRun(sys, events)
    ensures Inv(Run(sys, events))
    decreases |events|
  {
    if events != [] {
      NextKeepsInv(sys, events[0]);
      RunKeepsInv(Next(sys, events[0]), events[1..]);
    }
  }

  /** In every interleaving the operations issued are executed once each, in order, all
      but the one under way; core 0 executes those before the handover and core 1 those
      after it; and every call that has returned, returned its own operation's result. */
  lemma EachRequestRunsOnce(start: System, events: seq<Event>)
    requires Initial(start) && LegalRun(start, events)
    ensures var sys := Run(start, events);
      && |sys.issued| - 1 <= |sys.executed| <= |sys.issued| && |sys.returned| <= |sys.executed|
      && (forall k | 0 <= k < |sys.executed| :: sys.executed[k].request == sys.issued[k])
      && (forall k | 0 <= k < |sys.returned| :: sys.returned[k] == sys.executed[k].result)
      && (sys.requester.Free? ==> |sys.returned| == |sys.issued|)
      && HandedOverOnce(sys.executed)
  {
    RunKeepsInv(start, events);
  }

  /** In every interleaving no two cores run an operation at once, core 1 leaves the
      request record alone while core 0 uses it, an answered requester wakes, and each
      side finds the mailbox in the state that it asserts. */
  lemma CoresTakeTurns(start: System, events: seq<Event>)
    requires Initial(start) && LegalRun(start, events)
    ensures var sys := Run(start, events);
      && !(sys.server.Serving? && sys.requester.Direct?)
      && (!ServerAtRest(sys.server) ==>
            sys.requester.SignalPending? || sys.requester.LoadState? || sys.requester.WaitForEvent?)
      && (sys.server.Serving? ==> sys.issued != [] && sys.server.request == sys.issued[|sys.issued| - 1])
      && (sys.requester.StorePending? ==> sys.state == Idle)
      && (sys.server.StoreCompleted? ==> sys.state == Pending)
      && WillWake(sys)
  {
    RunKeepsInv(start, events);
  }

  /** The mailbox word only ever goes from idle to pending to completed to idle. */
  lemma StateCycles(start: System, events: seq<Event>, e: Event)
    requires Initial(start) && LegalRun(start, events) && Legal(Run(start, events), e)
    ensures var before, after := Run(start, events).state, Next(Run(start, events), e).state;
      after == before || (before == Idle && after == Pending)
      || (before == Pending && after == Completed) || (before == Completed && after == Idle)
  {
    RunKeepsInv(start, events);
  }

  /** Operation `n` is to be executed on the core, or has been. */
  predicate Routed(sys: System, n: nat, op: Request, core: nat) {
    && n < |sys.issued| && sys.issued[n] == op
    && (n < |sys.executed| ==> sys.executed[n].request == op && sys.executed[n].core == core)
    && (n == |sys.executed| ==> (sys.requester.Direct? <==> core == 1))
  }

  lemma StepKeepsRoute(sys: System, e: Event, n: nat, op: Request, core: nat)
    requires Inv(sys) && Legal(sys, e) && Routed(sys, n, op, core) && core <= 1
    ensures Routed(Next(sys, e), n, op, core)
  {
    hide HandedOverOnce, AllOnCore0;
  }

  lemma {:induction false} RunKeepsRoute(sys: System, events: seq<Event>, n: nat, op: Request, core: nat)
    requires Inv(sys) && LegalRun(sys, events) && Routed(sys, n, op, core) && core <= 1
    ensures Routed(Run(sys, events), n, op, core)
    decreases |events|
  {
    if events != [] {
      StepKeepsRoute(sys, events[0], n, op, core);
      NextKeepsInv(sys, events[0]);
      RunKeepsRoute(Next(sys, events[0]), events[1..], n, op, core);
    }
  }

  /** The dispatch decides: an operation issued before the commit is executed on core 0,
      and one issued after it on core 1, whenever the commit comes afterwards. */
  lemma DispatchDecidesCore(sys: System, op: Request, events: seq<Event>)
    requires Inv(sys) && LegalRun(sys, [Issue(op)] + events)
    ensures var after := Run(sys, [Issue(op)] + events); var n := |sys.issued|;
      && n < |after.issued| && after.issued[n] == op
      && (n < |after.executed| ==>
            after.executed[n].request == op && after.executed[n].core == if sys.committed then 1 else 0)
  {
    assert ([Issue(op)] + events)[0] == Issue(op) && ([Issue(op)] + events)[1..] == events;
    NextKeepsInv(sys, Issue(op));
    RunKeepsRoute(Next(sys, Issue(op)), events, |sys.issued|, op, if sys.committed then 1 else 0);
  }

  // ---------------------------------------------------------------- progress

  ghost function Core0Steps(events: seq<Event>): nat {
    if events == [] then 0
    else (if events[0].Core0Step? || events[0].ServiceDone? then 1 else 0) + Core0Steps(events[1..])
  }

  ghost function Core1Steps(events: seq<Event>): nat {
    if events == [] then 0 else (if events[0].Core1Step? then 1 else 0) + Core1Steps(events[1..])
  }

  /** At some moment of the run the mailbox word is completed. */
  ghost predicate Completes(sys: System, events: seq<Event>)
    requires LegalRun(sys, events)
    decreases |events|
  {
    sys.state == Completed || (events != [] && Completes(Next(sys, events[0]), events[1..]))
  }

  /** At some moment of the run core 1 is between operations. */
  ghost predicate Returns(sys: System, events: seq<Event>)
    requires LegalRun(sys, events)
    decreases |events|
  {
    sys.requester.Free? || (events != [] && Returns(Next(sys, events[0]), events[1..]))
  }

  /** At some moment of the run a request is pending. */
  ghost predicate Publishes(sys: System, events: seq<Event>)
    requires LegalRun(sys, events)
    decreases |events|
  {
    sys.state == Pending || (events != [] && Publishes(Next(sys, events[0]), events[1..]))
  }

  /** Core 1's steps until it has published a request. */
  function ToPending(r: Requester): nat {
    match r
    case FillArgs(_) => 3
    case FillCommand(_) => 2
    case StorePending => 1
    case _ => 0
  }

  predicate Publishing(r: Requester) { r.FillArgs? || r.FillCommand? || r.StorePending? }

  lemma PublishAdvances(sys: System, e: Event)
    requires Publishing(sys.requester) && Legal(sys, e)
    ensures var after := Next(sys, e);
      if e.Core1Step?
      then after.state == Pending || (Publishing(after.requester) && ToPending(after.requester) < ToPending(sys.requester))
      else after.requester == sys.requester
  {
  }

  lemma {:induction false} PublishGoesOn(sys: System, events: seq<Event>)
    requires Publishing(sys.requester) && LegalRun(sys, events) && Core1Steps(events) >= ToPending(sys.requester)
    ensures Publishes(sys, events)
    decreases |events|
  {
    PublishAdvances(sys, events[0]);
    var after := Next(sys, events[0]);
    if after.state != Pending {
      PublishGoesOn(after, events[1..]);
    }
  }

  /** An operation issued before the commit is pending after three steps of core 1. */
  lemma IssueIsPublished(sys: System, op: Request, events: seq<Event>)
    requires !sys.committed && LegalRun(sys, [Issue(op)] + events) && Core1Steps(events) >= 3
    ensures Publishes(sys, [Issue(op)] + events)
  {
    assert ([Issue(op)] + events)[0] == Issue(op) && ([Issue(op)] + events)[1..] == events;
    PublishGoesOn(Next(sys, Issue(op)), events);
  }

  /** Core 0's steps until it completes a pending request, at most. */
  function ToCompletion(s: Server): (n: nat)
    ensures n <= 6
  {
    match s
    case SignalCompleted => 6
    case Poll => 5
    case ClearResult => 4
    case ReadCommand => 3
    case Serving(_) => 2
    case StoreCompleted => 1
  }

  /** Each step of core 0 brings the completion nearer, and no other step takes it back. */
  lemma ServiceAdvances(sys: System, e: Event)
    requires Inv(sys) && Legal(sys, e) && sys.state == Pending
    ensures var after := Next(sys, e);
      if e.Core0Step? || e.ServiceDone?
      then after.state == Completed || (after.state == Pending && ToCompletion(after.server) < ToCompletion(sys.server))
      else after.state == Pending && after.server == sys.server
  {
  }

  /** In every run with enough steps of core 0, six at most, a pending request is completed. */
  lemma {:induction false} PendingIsServed(sys: System, events: seq<Event>)
    requires Inv(sys) && sys.state == Pending && LegalRun(sys, events)
    requires Core0Steps(events) >= ToCompletion(sys.server)
    ensures Completes(sys, events)
    decreases |events|
  {
    var after := Next(sys, events[0]);
    ServiceAdvances(sys, events[0]);
    NextKeepsInv(sys, events[0]);
    if after.state == Pending {
      PendingIsServed(after, events[1..]);
    }
  }

  /** An answered call can always proceed, if need be after the one signal still owed. */
  lemma AnsweredIsNotStuck(sys: System)
    requires Inv(sys) && sys.state == Completed
    ensures Legal(sys, Core1Step) || (Legal(sys, Core0Step) && Legal(Core0(sys), Core1Step))
  {
  }

  /** Core 1's steps until an answered call returns, at most. */
  function ToReturn(r: Requester): (n: nat)
    ensures n <= 5
  {
    match r
    case SignalPending => 5
    case WaitForEvent => 4
    case LoadState => 3
    case StoreIdle => 2
    case ReadResult => 1
    case _ => 0
  }

  /** The call under way has its answer. */
  predicate Returning(sys: System) {
    sys.state == Completed || sys.requester.ReadResult?
  }

  lemma ReturnAdvances(sys: System, e: Event)
    requires Inv(sys) && Legal(sys, e) && Returning(sys)
    ensures var after := Next(sys, e);
      if e.Core1Step?
      then after.requester.Free? || (Returning(after) && ToReturn(after.requester) < ToReturn(sys.requester))
      else Returning(after) && after.requester == sys.requester
  {
  }

  /** In every run with enough steps of core 1, five at most, an answered call returns. */
  lemma {:induction false} AnsweredReturns(sys: System, events: seq<Event>)
    requires Inv(sys) && Returning(sys) && LegalRun(sys, events)
    requires Core1Steps(events) >= ToReturn(sys.requester)
    ensures Returns(sys, events)
    decreases |events|
  {
    if !sys.requester.Free? {
      var after := Next(sys, events[0]);
      ReturnAdvances(sys, events[0]);
      NextKeepsInv(sys, events[0]);
      if !after.requester.Free? {
        AnsweredReturns(after, events[1..]);
      }
    }
  }
}
