/** The second SID chip's worker: one job record, a busy flag and two semaphores
    between a producer and the worker core.  Every atomic access, every write to or
    read from the record and every semaphore operation is one step. */
module SidWorker {

  /** The arguments of a calculation; a null pointer is zero. */
  datatype Job = Job(calculate: int, sid: int, buffer: int, frames: int, interleave: int, deltaT: int)
  {
    predicate Acceptable() {
      calculate != 0 && sid != 0 && buffer != 0 && frames > 0 && interleave > 0
    }
  }

  /** A finished calculation: what it was given, what it returned and left in `deltaT`. */
  datatype Calculation = Calculation(job: Job, result: int, deltaT: int)

  datatype Reading = Reading(result: int, deltaT: int)

  datatype Producer =
    | Free
    | CheckReady(job: Job)
    | ExchangeBusy(job: Job)
    | WriteCalculate(job: Job) | WriteSid(job: Job) | WriteBuffer(job: Job)
    | WriteFrames(job: Job) | WriteInterleave(job: Job) | WriteDeltaT(job: Job)
    | WriteWorkerTime | WriteResult
    | IncRequest
    | LoadBusy
    | DecDone
    | ReadOutcome
    | ReadDeltaT(result: int)
    | StoreFree(reading: Reading)

  datatype Worker =
    | Boot
    | DecRequest
    | StartJob
    | Calculating(job: Job)
    | StoreResult(result: int)
    | StoreWorkerTime
    | IncDone

  /** `job`, `result` and `workerTime` are the shared record.  The last four fields
      record the jobs accepted and refused, the calculations made and the waits
      that returned a result. */
  datatype System = System(ready: bool, busy: bool, request: nat, done: nat,
                           job: Job, result: int, workerTime: int, producer: Producer, worker: Worker,
                           accepted: seq<Job>, refused: seq<Job>, calculations: seq<Calculation>, readings: seq<Reading>)

  datatype Event =
    | Submit(job: Job)
    | Wait
    | ProducerStep
    | WorkerStep
    | CalculationDone(value: int, delta: int)   // the function returns, having updated deltaT
    | SetTime(time: int)                        // the worker stores how long it took

  predicate Initial(sys: System) {
    && !sys.ready && !sys.busy && sys.request == 0 && sys.done == 0
    && sys.producer == Free && sys.worker == Boot
    && sys.accepted == [] && sys.refused == [] && sys.calculations == [] && sys.readings == []
  }

  predicate Legal(sys: System, e: Event) {
    match e
    case Submit(_) => sys.producer.Free?
    case Wait => sys.producer.Free?
    case ProducerStep => !sys.producer.Free? && (sys.producer.DecDone? ==> sys.done > 0)
    case WorkerStep =>
      && !sys.worker.Calculating? && !sys.worker.StoreWorkerTime?
      && (sys.worker.DecRequest? ==> sys.request > 0)
    case CalculationDone(_, _) => sys.worker.Calculating?
    case SetTime(_) => sys.worker.StoreWorkerTime?
  }

  function ProducerNext(sys: System): System
    requires Legal(sys, ProducerStep)
  {
    match sys.producer
    case CheckReady(j) =>
      if j.Acceptable() && sys.ready then sys.(producer := ExchangeBusy(j))
      else sys.(producer := Free, refused := sys.refused + [j])
    case ExchangeBusy(j) =>
      if sys.busy then sys.(producer := Free, refused := sys.refused + [j])
      else sys.(busy := true, producer := WriteCalculate(j), accepted := sys.accepted + [j])
    case WriteCalculate(j) => sys.(job := sys.job.(calculate := j.calculate), producer := WriteSid(j))
    case WriteSid(j) => sys.(job := sys.job.(sid := j.sid), producer := WriteBuffer(j))
    case WriteBuffer(j) => sys.(job := sys.job.(buffer := j.buffer), producer := WriteFrames(j))
    case WriteFrames(j) => sys.(job := sys.job.(frames := j.frames), producer := WriteInterleave(j))
    case WriteInterleave(j) => sys.(job := sys.job.(interleave := j.interleave), producer := WriteDeltaT(j))
    case WriteDeltaT(j) => sys.(job := sys.job.(deltaT := j.deltaT), producer := WriteWorkerTime)
    case WriteWorkerTime => sys.(workerTime := 0, producer := WriteResult)
    case WriteResult => sys.(result := 0, producer := IncRequest)
    case IncRequest => sys.(request := sys.request + 1, producer := Free)
    case LoadBusy => sys.(producer := if sys.busy then DecDone else Free)
    case DecDone => sys.(done := sys.done - 1, producer := ReadOutcome)
    case ReadOutcome => sys.(producer := ReadDeltaT(sys.result))
    case ReadDeltaT(r) => sys.(producer := StoreFree(Reading(r, sys.job.deltaT)))
    case StoreFree(reading) => sys.(busy := false, readings := sys.readings + [reading], producer := Free)
  }

  function WorkerNext(sys: System): System
    requires Legal(sys, WorkerStep)
  {
    match sys.worker
    case Boot => sys.(ready := true, worker := DecRequest)
    case DecRequest => sys.(request := sys.request - 1, worker := StartJob)
    case StartJob => sys.(worker := Calculating(sys.job))
    case StoreResult(r) => sys.(result := r, worker := StoreWorkerTime)
    case IncDone => sys.(done := sys.done + 1, worker := DecRequest)
  }

  function Next(sys: System, e: Event): System
    requires Legal(sys, e)
  {
    match e
    case Submit(j) => sys.(producer := CheckReady(j))
    case Wait => sys.(producer := LoadBusy)
    case ProducerStep => ProducerNext(sys)
    case WorkerStep => WorkerNext(sys)
    case CalculationDone(v, d) =>
      sys.(job := sys.job.(deltaT := d), worker := StoreResult(v),
           calculations := sys.calculations + [Calculation(sys.worker.job, v, d)])
    case SetTime(t) => sys.(workerTime := t, worker := IncDone)
  }

  // -------------------------------------------------------------- invariant

  /** Each accepted job is calculated once, on its own arguments, and each wait reads
      the outcome of its own job. */
  predicate InOrder(accepted: seq<Job>, calculations: seq<Calculation>, readings: seq<Reading>) {
    && |readings| <= |calculations| <= |accepted|
    && (forall k | 0 <= k < |calculations| :: calculations[k].job == accepted[k])
    && (forall k | 0 <= k < |readings| :: readings[k] == Reading(calculations[k].result, calculations[k].deltaT))
  }

  predicate WorkerIdle(w: Worker) { w.Boot? || w.DecRequest? }

  /** The producer alone may touch the job record. */
  predicate Quiet(sys: System) { sys.request == 0 && sys.done == 0 && sys.worker.DecRequest? }

  predicate Outstanding(sys: System) { |sys.accepted| == |sys.readings| + 1 }

  predicate Latest(sys: System, j: Job) { sys.accepted != [] && j == sys.accepted[|sys.accepted| - 1] }

  /** The record holds the outcome of the latest job. */
  predicate Finished(sys: System) {
    && Outstanding(sys) && |sys.calculations| == |sys.accepted|
    && sys.result == sys.calculations[|sys.calculations| - 1].result
    && sys.job.deltaT == sys.calculations[|sys.calculations| - 1].deltaT
  }

  predicate Uncalculated(sys: System) { Outstanding(sys) && |sys.calculations| == |sys.readings| }

  /** A submitted job is in exactly one place: waiting in the request semaphore, with
      the worker, or waiting in the done semaphore. */
  predicate InFlight(sys: System) {
    match sys.worker
    case Boot => false
    case DecRequest =>
      || (sys.request == 1 && sys.done == 0 && Uncalculated(sys) && Latest(sys, sys.job))
      || (sys.request == 0 && sys.done == 1 && Finished(sys))
    case StartJob => sys.request == 0 && sys.done == 0 && Uncalculated(sys) && Latest(sys, sys.job)
    case Calculating(j) => sys.request == 0 && sys.done == 0 && Uncalculated(sys) && Latest(sys, j) && j == sys.job
    case StoreResult(r) =>
      && sys.request == 0 && sys.done == 0 && Outstanding(sys) && |sys.calculations| == |sys.accepted|
      && r == sys.calculations[|sys.calculations| - 1].result
      && sys.job.deltaT == sys.calculations[|sys.calculations| - 1].deltaT
    case StoreWorkerTime => sys.request == 0 && sys.done == 0 && Finished(sys)
    case IncDone => sys.request == 0 && sys.done == 0 && Finished(sys)
  }

  /** How much of the job the producer has written. */
  predicate Written(sys: System) {
    var r := sys.job;
    match sys.producer
    case WriteCalculate(j) => Latest(sys, j)
    case WriteSid(j) => Latest(sys, j) && r.calculate == j.calculate
    case WriteBuffer(j) => Latest(sys, j) && r.calculate == j.calculate && r.sid == j.sid
    case WriteFrames(j) =>
      Latest(sys, j) && r.calculate == j.calculate && r.sid == j.sid && r.buffer == j.buffer
    case WriteInterleave(j) =>
      && Latest(sys, j) && r.calculate == j.calculate && r.sid == j.sid && r.buffer == j.buffer
      && r.frames == j.frames
    case WriteDeltaT(j) => Latest(sys, j) && r == j.(deltaT := r.deltaT)
    case _ => Latest(sys, r)
  }

  predicate Writing(p: Producer) {
    || p.WriteCalculate? || p.WriteSid? || p.WriteBuffer? || p.WriteFrames? || p.WriteInterleave?
    || p.WriteDeltaT? || p.WriteWorkerTime? || p.WriteResult? || p.IncRequest?
  }

  predicate Collecting(p: Producer) { p.ReadOutcome? || p.ReadDeltaT? || p.StoreFree? }

  predicate CollectedSoFar(sys: System) {
    match sys.producer
    case ReadDeltaT(r) => r == sys.result
    case StoreFree(reading) => reading == Reading(sys.result, sys.job.deltaT)
    case _ => true
  }

  predicate Control(sys: System) {
    && (sys.ready == !sys.worker.Boot?)
    && (sys.producer.ExchangeBusy? ==> sys.ready)
    && if !sys.busy then
         && sys.request == 0 && sys.done == 0 && WorkerIdle(sys.worker)
         && |sys.accepted| == |sys.calculations| == |sys.readings|
         && !Writing(sys.producer) && !Collecting(sys.producer) && !sys.producer.DecDone?
       else if Writing(sys.producer) then Quiet(sys) && Uncalculated(sys) && Written(sys)
       else if Collecting(sys.producer) then Quiet(sys) && Finished(sys) && CollectedSoFar(sys)
       else InFlight(sys)
  }

  predicate Inv(sys: System) {
    && InOrder(sys.accepted, sys.calculations, sys.readings)
    && Control(sys)
    && (forall k | 0 <= k < |sys.accepted| :: sys.accepted[k].Acceptable())
    && (sys.producer.ExchangeBusy? ==> sys.producer.job.Acceptable())
  }

  lemma WriteKeepsInv(sys: System)
    requires Inv(sys) && Legal(sys, ProducerStep) && Writing(sys.producer)
    ensures Inv(ProducerNext(sys))
  {
    hide InOrder;
  }

  lemma SubmitKeepsInv(sys: System)
    requires Inv(sys) && Legal(sys, ProducerStep) && (sys.producer.CheckReady? || sys.producer.ExchangeBusy?)
    ensures Inv(ProducerNext(sys))
  {
  }

  lemma CollectKeepsInv(sys: System)
    requires Inv(sys) && Legal(sys, ProducerStep)
    requires Collecting(sys.producer) || sys.producer.LoadBusy? || sys.producer.DecDone?
    ensures Inv(ProducerNext(sys))
  {
  }

  lemma WorkerKeepsInv(sys: System)
    requires Inv(sys) && Legal(sys, WorkerStep)
    ensures Inv(WorkerNext(sys))
  {
    hide InOrder;
  }

  lemma CalculationKeepsInv(sys: System, v: int, d: int)
    requires Inv(sys) && Legal(sys, CalculationDone(v, d))
    ensures Inv(Next(sys, CalculationDone(v, d)))
  {
  }

  lemma NextKeepsInv(sys: System, e: Event)
    requires Inv(sys) && Legal(sys, e)
    ensures Inv(Next(sys, e))
  {
    match e
    case Submit(_) =>
    case Wait =>
    case ProducerStep =>
      if Writing(sys.producer) {
        WriteKeepsInv(sys);
      } else if sys.producer.CheckReady? || sys.producer.ExchangeBusy? {
        SubmitKeepsInv(sys);
      } else {
        CollectKeepsInv(sys);
      }
    case WorkerStep => WorkerKeepsInv(sys);
    case CalculationDone(v, d) => CalculationKeepsInv(sys, v, d);
    case SetTime(_) =>
  }

  // ------------------------------------------------------------------- runs

  ghost predicate LegalRun(sys: System, events: seq<Event>)
    decreases |events|
  {
    events != [] ==> Legal(sys, events[0]) && LegalRun(Next(sys, events[0]), events[1..])
  }

  ghost function Run(sys: System, events: seq<Event>): System
    requires LegalRun(sys, events)
    decreases |events|
  {
    if events == [] then sys else Run(Next(sys, events[0]), events[1..])
  }

  lemma {:induction false} RunKeepsInv(sys: System, events: seq<Event>)
    requires Inv(sys) && LegalRun(sys, events)
    ensures Inv(Run(sys, events))
    decreases |events|
  {
    if events != [] {
      NextKeepsInv(sys, events[0]);
      RunKeepsInv(Next(sys, events[0]), events[1..]);
    }
  }

  /** In every interleaving each accepted job is calculated exactly once, in order and on
      exactly the arguments submitted, and each wait that returns a result returns that
      of the job it collects; at most one job is ever uncollected. */
  lemma EachJobRunsOnce(start: System, events: seq<Event>)
    requires Initial(start) && LegalRun(start, events)
    ensures var sys := Run(start, events);
      && |sys.accepted| - 1 <= |sys.readings| <= |sys.calculations| <= |sys.accepted|
      && (forall k | 0 <= k < |sys.calculations| ::
            sys.calculations[k].job == sys.accepted[k] && sys.accepted[k].Acceptable())
      && (forall k | 0 <= k < |sys.readings| ::
            sys.readings[k] == Reading(sys.calculations[k].result, sys.calculations[k].deltaT))
  {
    RunKeepsInv(start, events);
  }

  /** In every interleaving: while not busy both semaphores are zero and no job runs;
      the producer writes or reads the job record only while the worker sleeps with
      both semaphores at zero; and busy means that one accepted job is uncollected. */
  lemma RecordIsExclusive(start: System, events: seq<Event>)
    requires Initial(start) && LegalRun(start, events)
    ensures var sys := Run(start, events);
      && (!sys.busy ==> sys.request == 0 && sys.done == 0 && WorkerIdle(sys.worker))
      && (Writing(sys.producer) || Collecting(sys.producer) ==> Quiet(sys))
      && (sys.busy <==> |sys.accepted| == |sys.readings| + 1)
  {
    RunKeepsInv(start, events);
  }

  /** The refusal is exact: a submit that got past its checks is accepted if and only if
      every job accepted before it has been collected. */
  lemma AcceptedIffCollected(start: System, events: seq<Event>)
    requires Initial(start) && LegalRun(start, events) && Run(start, events).producer.ExchangeBusy?
    ensures var sys := Run(start, events); var after := ProducerNext(sys);
      if |sys.readings| == |sys.accepted|
      then after.accepted == sys.accepted + [sys.producer.job] && after.refused == sys.refused
      else after.accepted == sys.accepted && after.refused == sys.refused + [sys.producer.job]
           && after.job == sys.job && after.request == sys.request
  {
    RunKeepsInv(start, events);
  }

  /** The worker's steps until it has announced a submitted job, at most. */
  function ToDone(w: Worker): nat {
    match w
    case Boot => 7
    case DecRequest => 6
    case StartJob => 5
    case Calculating(_) => 4
    case StoreResult(_) => 3
    case StoreWorkerTime => 2
    case IncDone => 1
  }

  predicate WorkerEvent(e: Event) { e.WorkerStep? || e.CalculationDone? || e.SetTime? }

  ghost function WorkerEvents(events: seq<Event>): nat {
    if events == [] then 0 else (if WorkerEvent(events[0]) then 1 else 0) + WorkerEvents(events[1..])
  }

  ghost function ProducerSteps(events: seq<Event>): nat {
    if events == [] then 0 else (if events[0].ProducerStep? then 1 else 0) + ProducerSteps(events[1..])
  }

  /** At some moment of the run a result has been announced. */
  ghost predicate Announces(sys: System, events: seq<Event>)
    requires LegalRun(sys, events)
    decreases |events|
  {
    sys.done > 0 || (events != [] && Announces(Next(sys, events[0]), events[1..]))
  }

  /** At some moment of the run the producer has collected one more result. */
  ghost predicate Collects(sys: System, events: seq<Event>, readings: nat)
    requires LegalRun(sys, events)
    decreases |events|
  {
    (sys.producer.Free? && |sys.readings| > readings)
    || (events != [] && Collects(Next(sys, events[0]), events[1..], readings))
  }

  /** A wait that found a job outstanding and has not returned. */
  predicate Waiting(sys: System) {
    (sys.producer.LoadBusy? && sys.busy) || sys.producer.DecDone? || Collecting(sys.producer)
  }

  /** A wait under way is never stuck: the producer or the worker can step. */
  lemma WaitIsNotStuck(sys: System)
    requires Inv(sys) && Waiting(sys)
    ensures Legal(sys, ProducerStep)
            || Legal(sys, if sys.worker.Calculating? then CalculationDone(0, 0)
                          else if sys.worker.StoreWorkerTime? then SetTime(0) else WorkerStep)
  {
  }

  /** While a result is awaited each step of the worker brings it nearer, and nothing
      else happens. */
  lemma WorkAdvances(sys: System, e: Event)
    requires Inv(sys) && sys.producer.DecDone? && sys.done == 0 && Legal(sys, e)
    ensures WorkerEvent(e) && Next(sys, e).producer.DecDone?
    ensures Next(sys, e).done > 0 || ToDone(Next(sys, e).worker) < ToDone(sys.worker)
  {
  }

  /** In every run with enough steps of the worker, six at most, an awaited result is announced. */
  lemma {:induction false} WaitIsAnswered(sys: System, events: seq<Event>)
    requires Inv(sys) && sys.producer.DecDone? && LegalRun(sys, events)
    requires WorkerEvents(events) >= ToDone(sys.worker)
    ensures Announces(sys, events)
    decreases |events|
  {
    if sys.done == 0 {
      WorkAdvances(sys, events[0]);
      NextKeepsInv(sys, events[0]);
      var after := Next(sys, events[0]);
      if after.done == 0 {
        WaitIsAnswered(after, events[1..]);
      }
    }
  }

  /** The producer's steps until a wait returns. */
  function ToCollected(p: Producer): nat {
    match p
    case LoadBusy => 5
    case DecDone => 4
    case ReadOutcome => 3
    case ReadDeltaT(_) => 2
    case StoreFree(_) => 1
    case _ => 0
  }

  lemma CollectAdvances(sys: System, e: Event)
    requires Inv(sys) && Waiting(sys) && Legal(sys, e)
    ensures var after := Next(sys, e);
      if !e.ProducerStep? then Waiting(after) && after.producer == sys.producer && after.readings == sys.readings
      else if sys.producer.StoreFree? then after.producer.Free? && |after.readings| == |sys.readings| + 1
      else Waiting(after) && after.readings == sys.readings
           && ToCollected(after.producer) == ToCollected(sys.producer) - 1
  {
  }

  lemma {:induction false} WaitGoesOn(sys: System, events: seq<Event>)
    requires Inv(sys) && Waiting(sys) && LegalRun(sys, events)
    requires ProducerSteps(events) >= ToCollected(sys.producer)
    ensures Collects(sys, events, |sys.readings|)
    decreases |events|
  {
    CollectAdvances(sys, events[0]);
    NextKeepsInv(sys, events[0]);
    var after := Next(sys, events[0]);
    if !after.producer.Free? {
      WaitGoesOn(after, events[1..]);
    }
  }

  /** A wait for an accepted job returns with its result in every run that holds five
      steps of the producer; a wait with no job outstanding returns at its first, with
      none. */
  lemma WaitReturns(sys: System, events: seq<Event>)
    requires Inv(sys) && sys.producer.Free? && LegalRun(sys, [Wait] + events)
    ensures sys.busy && ProducerSteps(events) >= 5 ==> Collects(sys, [Wait] + events, |sys.readings|)
    ensures !sys.busy ==> var after := ProducerNext(Next(sys, Wait)); after.producer.Free? && after.readings == sys.readings
  {
    assert ([Wait] + events)[0] == Wait && ([Wait] + events)[1..] == events;
    NextKeepsInv(sys, Wait);
    if sys.busy && ProducerSteps(events) >= 5 {
      WaitGoesOn(Next(sys, Wait), events);
    }
  }

  // -------------------------------------------------------------- submitting

  /** The jobs accepted and refused are only ever added to. */
  lemma {:induction false} VerdictsStay(sys: System, events: seq<Event>)
    requires LegalRun(sys, events)
    ensures sys.accepted <= Run(sys, events).accepted && sys.refused <= Run(sys, events).refused
    decreases |events|
  {
    if events != [] {
      VerdictStays(sys, events[0]);
      VerdictsStay(Next(sys, events[0]), events[1..]);
    }
  }

  lemma VerdictStays(sys: System, e: Event)
    requires Legal(sys, e)
    ensures sys.accepted <= Next(sys, e).accepted && sys.refused <= Next(sys, e).refused
  {
  }

  /** The verdict on a submit at its checks, or past them. */
  predicate Accepts(sys: System, job: Job) {
    && !sys.busy && (sys.producer == CheckReady(job) ==> job.Acceptable() && sys.ready)
  }

  predicate Refuses(sys: System, job: Job) {
    sys.busy || (sys.producer == CheckReady(job) && !job.Acceptable())
  }

  predicate Submitting(p: Producer, job: Job) { p == CheckReady(job) || p == ExchangeBusy(job) }

  function ToVerdict(p: Producer): nat {
    if p.CheckReady? then 2 else 1
  }

  lemma {:induction false} SubmitGoesOn(sys: System, job: Job, events: seq<Event>)
    requires Submitting(sys.producer, job) && LegalRun(sys, events) && ProducerSteps(events) >= ToVerdict(sys.producer)
    ensures Accepts(sys, job) ==> sys.accepted + [job] <= Run(sys, events).accepted
    ensures Refuses(sys, job) ==> sys.refused + [job] <= Run(sys, events).refused
    decreases |events|
  {
    var after := Next(sys, events[0]);
    VerdictsStay(after, events[1..]);
    if Submitting(after.producer, job) {
      SubmitGoesOn(after, job, events[1..]);
    }
  }

  /** A submit is decided in every run that holds two steps of the producer: it is accepted
      if its arguments are there and positive, the worker is ready and no job is
      outstanding, and refused if an argument is wrong or a job is outstanding. */
  lemma SubmitIsDecided(sys: System, job: Job, events: seq<Event>)
    requires sys.producer.Free? && LegalRun(sys, [Submit(job)] + events) && ProducerSteps(events) >= 2
    ensures var wrong := job.calculate == 0 || job.sid == 0 || job.buffer == 0 || job.frames <= 0 || job.interleave <= 0;
            var after := Run(sys, [Submit(job)] + events);
      && (!wrong && sys.ready && !sys.busy ==> sys.accepted + [job] <= after.accepted)
      && (wrong || sys.busy ==> sys.refused + [job] <= after.refused)
  {
    assert ([Submit(job)] + events)[0] == Submit(job) && ([Submit(job)] + events)[1..] == events;
    SubmitGoesOn(Next(sys, Submit(job)), job, events);
  }

  /** At some moment of the run the producer is between operations. */
  ghost predicate Returns(sys: System, events: seq<Event>)
    requires LegalRun(sys, events)
    decreases |events|
  {
    sys.producer.Free? || (events != [] && Returns(Next(sys, events[0]), events[1..]))
  }

  /** The producer's steps until a submit returns, at most. */
  function ToSubmitted(p: Producer): nat {
    match p
    case CheckReady(_) => 11
    case ExchangeBusy(_) => 10
    case WriteCalculate(_) => 9
    case WriteSid(_) => 8
    case WriteBuffer(_) => 7
    case WriteFrames(_) => 6
    case WriteInterleave(_) => 5
    case WriteDeltaT(_) => 4
    case WriteWorkerTime => 3
    case WriteResult => 2
    case IncRequest => 1
    case _ => 0
  }

  lemma SubmitAdvances(sys: System, e: Event)
    requires ToSubmitted(sys.producer) > 0 && Legal(sys, e)
    ensures var after := Next(sys, e);
      if e.ProducerStep? then after.producer.Free? || 0 < ToSubmitted(after.producer) < ToSubmitted(sys.producer)
      else after.producer == sys.producer
  {
  }

  lemma {:induction false} SubmitGoesThrough(sys: System, events: seq<Event>)
    requires ToSubmitted(sys.producer) > 0 && LegalRun(sys, events)
    requires ProducerSteps(events) >= ToSubmitted(sys.producer)
    ensures Returns(sys, events)
    decreases |events|
  {
    SubmitAdvances(sys, events[0]);
    var after := Next(sys, events[0]);
    if !after.producer.Free? {
      SubmitGoesThrough(after, events[1..]);
    }
  }

  /** A submit returns in every run that holds eleven steps of the producer, and can always
      take the next one. */
  lemma SubmitReturns(sys: System, job: Job, events: seq<Event>)
    requires sys.producer.Free? && LegalRun(sys, [Submit(job)] + events) && ProducerSteps(events) >= 11
    ensures LegalRun(Next(sys, Submit(job)), events) && Returns(Next(sys, Submit(job)), events)
    ensures forall p: Producer | ToSubmitted(p) > 0 :: Legal(sys.(producer := p), ProducerStep)
  {
    assert ([Submit(job)] + events)[0] == Submit(job) && ([Submit(job)] + events)[1..] == events;
    SubmitGoesThrough(Next(sys, Submit(job)), events);
  }
}
