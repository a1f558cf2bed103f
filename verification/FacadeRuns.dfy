/** Every interleaving of callers, worker threads, Shutdown and Initialize, one critical section or unlocked stretch at a time. */
module FacadeRuns {
  import opened ByteStrings
  import opened JsonGrammar
  import opened Messages
  import opened Facade
  import Request

  // ---- What one job ends with ----

  datatype Outcome =
    | Invalid(error: bytes)
    | Returned(model: bytes, result: GenerateResult, serial: uint64, created: int64)
    | Threw(what: bytes)
    | ThrewUnknown

  /** The response `Process` makes of it. */
  function Respond(o: Outcome): GenerateResponse {
    match o
    case Invalid(error) => ErrorResponse(400, Ascii("invalid_request"), error)
    case Returned(model, result, serial, created) =>
      if result.status.Ok? then CompletionResponse(model, result, serial, created) else RuntimeErrorResponse(result)
    case Threw(what) => ErrorResponse(500, Ascii("internal_error"), what)
    case ThrewUnknown => ErrorResponse(500, Ascii("internal_error"), Ascii("unknown generation failure"))
  }

  // ---- What a request says ----

  /** Parsing accepts the request, for some rounding of decimals to doubles. */
  ghost predicate Wellformed(request: bytes) { exists double: Decimal -> real :: Accepts(request, double) }

  /** Parsing refuses the request, for some rounding of decimals to doubles. */
  ghost predicate Faulty(request: bytes) { exists double: Decimal -> real :: !Accepts(request, double) }

  ghost predicate Accepts(request: bytes, double: Decimal -> real) {
    exists root :: Derives(request, root) && Request.Complete(root, double)
  }

  /** The model the request asks for. */
  ghost predicate AsksFor(request: bytes, model: bytes) {
    exists root :: Derives(request, root) && Request.ModelOf(root) == Request.Success(model)
  }

  // ---- States ----

  /** Where a worker thread stands. `Blocked` is inside the wait, not notified. */
  datatype WorkerPc =
    | Checking
    | Blocked
    | Processing(job: Job)
    | Generating(job: Job, runtime: nat)
    | Clearing(job: Job, outcome: Outcome)
    | Calling(job: Job, outcome: Outcome)
    | InCallback(job: Job)
    | Rechecking
    | Exited

  datatype ShutdownPc = NotStopping | Joining(thread: nat) | Finishing(thread: nat)

  datatype InitializePc = NotInitializing | Creating | Installing(runtime: nat) | Abandoning

  datatype Delivery = Delivery(id: nat, response: GenerateResponse)

  /** The protected fields, the program counters, and the history: every call has its request and verdict;
      `refusing` calls are about to run their callback, `refused` ones run it; `log` lists the callbacks begun,
      `begun` those of accepted calls. */
  datatype State = State(
    core: Core, workers: seq<WorkerPc>, shutdown: ShutdownPc, initialize: InitializePc, runtimes: nat,
    requests: seq<bytes>, verdicts: seq<Verdict>, refusing: set<nat>, refused: set<nat>,
    outcomes: map<nat, Outcome>, accepted: seq<nat>, begun: seq<nat>, log: seq<Delivery>)

  const START := State(INITIAL, [], NotStopping, NotInitializing, 0, [], [], {}, {}, map[], [], [], [])

  // ---- Steps ----

  /** `woken` is the thread `notify_one` wakes, absent when none waits; `t` is a worker thread. */
  datatype Step =
    | Call(request: bytes, woken: Option<nat>)
    | RefusalBegin(id: nat)
    | RefusalEnd(id: nat)
    | Check(t: nat)
    | Wake(t: nat)
    | Parse(t: nat, failure: Option<Outcome>)
    | Generate(t: nat, outcome: Outcome)
    | Clear(t: nat)
    | CallbackBegin(t: nat)
    | CallbackEnd(t: nat)
    | Recheck(t: nat)
    | ShutdownBegin(woken: Option<nat>)
    | ShutdownJoin
    | ShutdownEnd
    | InitializeBegin
    | InitializeCreate(created: bool)
    | InitializeInstall(started: bool)
    | InitializeAbandon

  /** `notify_one` wakes one blocked thread if there is one. */
  predicate MayWake(s: State, woken: Option<nat>) {
    match woken
    case Some(t) => t < |s.workers| && s.workers[t].Blocked?
    case None => forall t :: 0 <= t < |s.workers| ==> !s.workers[t].Blocked?
  }

  function Notify(workers: seq<WorkerPc>, woken: Option<nat>): seq<WorkerPc> {
    if woken.Some? && woken.value < |workers| then workers[woken.value := Checking] else workers
  }

  function NewCall(s: State, request: bytes): Job { Job(|s.requests|, request) }

  ghost predicate Enabled(s: State, step: Step) {
    match step
    case Call(request, woken) => Admit(s.core, NewCall(s, request)).1.Accepted? ==> MayWake(s, woken)
    case RefusalBegin(id) => id in s.refusing && id < |s.verdicts| && s.verdicts[id].Refused?
    case RefusalEnd(id) => id in s.refused
    case Check(t) => t < |s.workers| && s.workers[t].Checking?
    case Wake(t) => t < |s.workers| && s.workers[t].Blocked?
    case Parse(t, failure) =>
      && t < |s.workers| && s.workers[t].Processing?
      && (match failure
          case None => s.core.runtime.Some? && Wellformed(s.workers[t].job.request)
          case Some(Invalid(_)) => Faulty(s.workers[t].job.request)
          case Some(o) => !o.Returned?)
    case Generate(t, outcome) =>
      && t < |s.workers| && s.workers[t].Generating? && !outcome.Invalid?
      && (outcome.Returned? ==> AsksFor(s.workers[t].job.request, outcome.model))
    case Clear(t) => t < |s.workers| && s.workers[t].Clearing?
    case CallbackBegin(t) => t < |s.workers| && s.workers[t].Calling?
    case CallbackEnd(t) => t < |s.workers| && s.workers[t].InCallback?
    case Recheck(t) => t < |s.workers| && s.workers[t].Rechecking?
    case ShutdownBegin(woken) => s.shutdown.NotStopping? && (s.core.worker.Some? ==> MayWake(s, woken))
    case ShutdownJoin => s.shutdown.Joining? && s.shutdown.thread < |s.workers| && s.workers[s.shutdown.thread].Exited?
    case ShutdownEnd => s.shutdown.Finishing?
    case InitializeBegin => s.initialize.NotInitializing?
    case InitializeCreate(_) => s.initialize.Creating?
    case InitializeInstall(_) => s.initialize.Installing?
    case InitializeAbandon => s.initialize.Abandoning?
  }

  function Move(s: State, t: nat, pc: WorkerPc): State
    requires t < |s.workers|
  {
    s.(workers := s.workers[t := pc])
  }

  function Apply(s: State, step: Step): State
    requires Enabled(s, step)
  {
    match step
    case Call(request, woken) =>
      var job := NewCall(s, request);
      var (core, verdict) := Admit(s.core, job);
      var called := s.(core := core, requests := s.requests + [request], verdicts := s.verdicts + [verdict]);
      if verdict.Accepted? then called.(accepted := s.accepted + [job.id], workers := Notify(s.workers, woken))
      else called.(refusing := s.refusing + {job.id})
    case RefusalBegin(id) =>
      s.(refusing := s.refusing - {id}, refused := s.refused + {id},
         log := s.log + [Delivery(id, RefusalResponse(s.verdicts[id].refusal))])
    case RefusalEnd(id) => s.(refused := s.refused - {id})
    case Check(t) =>
      if !Awake(s.core) then Move(s, t, Blocked)
      else if s.core.job.None? then Move(s, t, Exited)
      else Move(s, t, Processing(s.core.job.value)).(core := Take(s.core))
    case Wake(t) => Move(s, t, Checking)
    case Parse(t, failure) =>
      var job := s.workers[t].job;
      if failure.Some? then Move(s, t, Clearing(job, failure.value)).(outcomes := s.outcomes[job.id := failure.value])
      else Move(s, t, Generating(job, s.core.runtime.value))
    case Generate(t, outcome) =>
      var job := s.workers[t].job;
      Move(s, t, Clearing(job, outcome)).(outcomes := s.outcomes[job.id := outcome])
    case Clear(t) => Move(s, t, Calling(s.workers[t].job, s.workers[t].outcome)).(core := ClearBusy(s.core))
    case CallbackBegin(t) =>
      var job := s.workers[t].job;
      Move(s, t, InCallback(job)).(begun := s.begun + [job.id], log := s.log + [Delivery(job.id, Respond(s.workers[t].outcome))])
    case CallbackEnd(t) => Move(s, t, Rechecking)
    case Recheck(t) => Move(s, t, if Leaves(s.core) then Exited else Checking)
    case ShutdownBegin(woken) =>
      if s.core.worker.None? then s.(core := ResetIdle(s.core))
      else s.(core := BeginStop(s.core), shutdown := Joining(s.core.worker.value), workers := Notify(s.workers, woken))
    case ShutdownJoin => s.(shutdown := Finishing(s.shutdown.thread))
    case ShutdownEnd => s.(core := FinishStop(s.core), shutdown := NotStopping)
    case InitializeBegin => if Initialized(s.core) then s else s.(initialize := Creating)
    case InitializeCreate(created) =>
      if created then s.(initialize := Installing(s.runtimes), runtimes := s.runtimes + 1) else s.(initialize := NotInitializing)
    case InitializeInstall(started) =>
      if started then
        s.(core := Install(s.core, s.initialize.runtime, Some(|s.workers|)), workers := s.workers + [Checking], initialize := NotInitializing)
      else s.(core := Install(s.core, s.initialize.runtime, None), initialize := Abandoning)
    case InitializeAbandon => s.(core := DropRuntime(s.core), initialize := NotInitializing)
  }

  // ---- Runs ----

  ghost predicate IsRun(run: seq<Step>, s: State, end: State)
    decreases |run|
  {
    if run == [] then s == end
    else Enabled(s, run[0]) && IsRun(run[1..], Apply(s, run[0]), end)
  }

  ghost predicate Reachable(s: State) { exists run :: IsRun(run, START, s) }

  // ---- The invariant ----

  /** The thread that may be alive: the youngest one. */
  function Current(s: State): WorkerPc {
    if s.workers == [] then Exited else s.workers[|s.workers| - 1]
  }

  /** The thread exists exactly while the handle or the joining Shutdown owns it, with the runtime in place. */
  predicate Threads(s: State) {
    && (forall t :: 0 <= t < |s.workers| - 1 ==> s.workers[t].Exited?)
    && (s.core.worker.Some? ==>
          && s.workers != [] && s.core.worker.value == |s.workers| - 1 && !Current(s).Exited?
          && s.shutdown.NotStopping? && s.initialize.NotInitializing? && s.core.runtime.Some? && !s.core.stopping)
    && (!s.shutdown.NotStopping? ==>
          && s.workers != [] && s.shutdown.thread == |s.workers| - 1
          && s.core.worker.None? && s.initialize.NotInitializing? && s.core.runtime.Some? && s.core.stopping)
    && (s.shutdown.Finishing? ==> Current(s).Exited?)
    && (s.core.worker.None? && s.shutdown.NotStopping? ==>
          && Current(s).Exited? && !s.core.stopping && (s.core.runtime.Some? ==> s.initialize.Abandoning?))
  }

  function Hand(pc: WorkerPc): seq<nat> {
    match pc
    case Processing(job) => [job.id]
    case Generating(job, _) => [job.id]
    case Clearing(job, _) => [job.id]
    case Calling(job, _) => [job.id]
    case _ => []
  }

  function Slot(c: Core): seq<nat> { if c.job.Some? then [c.job.value.id] else [] }

  /** Between taking a job and clearing `busy_`. */
  predicate Working(pc: WorkerPc) { pc.Processing? || pc.Generating? || pc.Clearing? }

  predicate Admission(s: State) {
    && (s.core.busy <==> s.core.job.Some? || Working(Current(s)))
    && (s.core.job.Some? ==> !Current(s).Exited? && !Current(s).Blocked? && !Working(Current(s)))
    && (Current(s).Blocked? ==> !s.core.stopping)
    && (Current(s).Generating? ==> s.core.runtime == Some(Current(s).runtime))
  }

  /** Accepted calls are served in order: begun, then in hand, then pending. */
  predicate Order(s: State) { s.accepted == s.begun + Hand(Current(s)) + Slot(s.core) }

  /** How often the callback of call `c` has been invoked. */
  function Invocations(log: seq<Delivery>, c: nat): nat {
    if log == [] then 0
    else Invocations(log[..|log| - 1], c) + (if log[|log| - 1].id == c then 1 else 0)
  }

  /** How many places hold the callback of call `c`: past invocations, refusals to deliver, the worker's hand, the slot. */
  function Places(s: State, c: nat): nat {
    Invocations(s.log, c) + (if c in s.refusing then 1 else 0)
    + (if Hand(Current(s)) == [c] then 1 else 0) + (if Slot(s.core) == [c] then 1 else 0)
  }

  predicate Counted(s: State, c: nat) { Places(s, c) == if c < |s.verdicts| then 1 else 0 }

  ghost predicate Ledger(s: State) { |s.requests| == |s.verdicts| && forall c: nat :: Counted(s, c) }

  predicate Matches(s: State, job: Job) {
    job.id < |s.requests| && job.id < |s.verdicts| && s.requests[job.id] == job.request && s.verdicts[job.id].Accepted?
  }

  predicate Ended(s: State, job: Job, outcome: Outcome) { job.id in s.outcomes && s.outcomes[job.id] == outcome }

  predicate Faithful(s: State, d: Delivery) {
    && d.id < |s.verdicts|
    && match s.verdicts[d.id]
       case Refused(refusal) => d.response == RefusalResponse(refusal)
       case Accepted => d.id in s.outcomes && d.response == Respond(s.outcomes[d.id])
  }

  predicate IsRefused(s: State, c: nat) { c < |s.verdicts| && s.verdicts[c].Refused? }

  predicate HasJob(pc: WorkerPc) { pc.Processing? || pc.Generating? || pc.Clearing? || pc.Calling? || pc.InCallback? }

  /** Jobs are the accepted calls they were made from, and their outcomes are recorded. */
  predicate Jobs(s: State) {
    && (s.core.job.Some? ==> Matches(s, s.core.job.value))
    && (HasJob(Current(s)) ==> Matches(s, Current(s).job))
    && (Current(s).Clearing? || Current(s).Calling? ==> Ended(s, Current(s).job, Current(s).outcome))
  }

  predicate Refusals(s: State) {
    && (forall c :: c in s.refusing ==> IsRefused(s, c))
    && (forall c :: c in s.refused ==> IsRefused(s, c))
  }

  /** Every callback was given the response of its own call. */
  predicate Deliveries(s: State) { forall i :: 0 <= i < |s.log| ==> Faithful(s, s.log[i]) }

  /** A running callback is in the log. */
  predicate Begun(s: State) { Current(s).InCallback? ==> Invocations(s.log, Current(s).job.id) >= 1 }

  /** An outcome fits the request it was reached from. */
  ghost predicate Fits(request: bytes, o: Outcome) {
    match o
    case Invalid(_) => Faulty(request)
    case Returned(model, _, _, _) => Wellformed(request) && AsksFor(request, model)
    case _ => true
  }

  ghost predicate FitsOwn(s: State, c: nat) { c in s.outcomes && c < |s.requests| && Fits(s.requests[c], s.outcomes[c]) }

  ghost predicate Outcomes(s: State) {
    && (Current(s).Generating? ==> Wellformed(Current(s).job.request))
    && (forall c :: c in s.outcomes ==> FitsOwn(s, c))
  }

  ghost predicate Inv(s: State) {
    Threads(s) && Admission(s) && Order(s) && Ledger(s) && Jobs(s) && Refusals(s) && Deliveries(s) && Begun(s) && Outcomes(s)
  }

  // ---- The invariant is kept ----

  predicate OfWorker(step: Step) {
    || step.Check? || step.Wake? || step.Parse? || step.Generate? || step.Clear?
    || step.CallbackBegin? || step.CallbackEnd? || step.Recheck?
  }

  lemma ThreadsKept(s: State, step: Step)
    requires Threads(s) && Enabled(s, step)
    ensures Threads(Apply(s, step))
  {
    if OfWorker(step) { ThreadsKeptByWorker(s, step); } else { ThreadsKeptByOthers(s, step); }
  }

  lemma ThreadsKeptByWorker(s: State, step: Step)
    requires Threads(s) && Enabled(s, step) && OfWorker(step)
    ensures Threads(Apply(s, step))
  {
    hide RefusalResponse, Respond, Wellformed, Faulty, AsksFor;
  }

  lemma ThreadsKeptByOthers(s: State, step: Step)
    requires Threads(s) && Enabled(s, step) && !OfWorker(step)
    ensures Threads(Apply(s, step))
  {
    hide RefusalResponse, Respond, Wellformed, Faulty, AsksFor;
  }

  lemma AdmissionKept(s: State, step: Step)
    requires Threads(s) && Admission(s) && Enabled(s, step)
    ensures Admission(Apply(s, step))
  {
    if OfWorker(step) { AdmissionKeptByWorker(s, step); } else { AdmissionKeptByOthers(s, step); }
  }

  lemma AdmissionKeptByWorker(s: State, step: Step)
    requires Threads(s) && Admission(s) && Enabled(s, step) && OfWorker(step)
    ensures Admission(Apply(s, step))
  {
    hide RefusalResponse, Respond, Wellformed, Faulty, AsksFor;
  }

  lemma AdmissionKeptByOthers(s: State, step: Step)
    requires Threads(s) && Admission(s) && Enabled(s, step) && !OfWorker(step)
    ensures Admission(Apply(s, step))
  {
    hide RefusalResponse, Respond, Wellformed, Faulty, AsksFor;
  }

  lemma OrderKept(s: State, step: Step)
    requires Threads(s) && Admission(s) && Order(s) && Enabled(s, step)
    ensures Order(Apply(s, step))
  {
    if OfWorker(step) { OrderKeptByWorker(s, step); } else { OrderKeptByOthers(s, step); }
  }

  lemma OrderKeptByWorker(s: State, step: Step)
    requires Threads(s) && Admission(s) && Order(s) && Enabled(s, step) && OfWorker(step)
    ensures Order(Apply(s, step))
  {
    hide RefusalResponse, Respond, Wellformed, Faulty, AsksFor;
  }

  lemma OrderKeptByOthers(s: State, step: Step)
    requires Threads(s) && Admission(s) && Order(s) && Enabled(s, step) && !OfWorker(step)
    ensures Order(Apply(s, step))
  {
    hide RefusalResponse, Respond, Wellformed, Faulty, AsksFor;
  }

  lemma InvocationsExtend(log: seq<Delivery>, d: Delivery, c: nat)
    ensures Invocations(log + [d], c) == Invocations(log, c) + (if d.id == c then 1 else 0)
  {
    assert (log + [d])[..|log|] == log;
  }

  lemma CountedKept(s: State, step: Step, c: nat)
    requires Threads(s) && Admission(s) && |s.requests| == |s.verdicts| && Counted(s, c) && Enabled(s, step)
    ensures Counted(Apply(s, step), c)
  {
    if OfWorker(step) { CountedKeptByWorker(s, step, c); } else { CountedKeptByOthers(s, step, c); }
  }

  lemma CountedKeptByWorker(s: State, step: Step, c: nat)
    requires Threads(s) && Admission(s) && Counted(s, c) && Enabled(s, step) && OfWorker(step)
    ensures Counted(Apply(s, step), c)
  {
    hide RefusalResponse, Respond, Invocations, Wellformed, Faulty, AsksFor;
    if step.CallbackBegin? {
      InvocationsExtend(s.log, Delivery(s.workers[step.t].job.id, Respond(s.workers[step.t].outcome)), c);
    }
  }

  lemma CountedKeptByOthers(s: State, step: Step, c: nat)
    requires Threads(s) && Admission(s) && |s.requests| == |s.verdicts| && Counted(s, c) && Enabled(s, step) && !OfWorker(step)
    ensures Counted(Apply(s, step), c)
  {
    hide RefusalResponse, Respond, Invocations, Wellformed, Faulty, AsksFor;
    if step.RefusalBegin? { CountedKeptByRefusal(s, step.id, c); }
  }

  lemma CountedKeptByRefusal(s: State, id: nat, c: nat)
    requires Counted(s, c) && Enabled(s, RefusalBegin(id))
    ensures Counted(Apply(s, RefusalBegin(id)), c)
  {
    hide RefusalResponse, Respond, Invocations, Wellformed, Faulty, AsksFor;
    InvocationsExtend(s.log, Delivery(id, RefusalResponse(s.verdicts[id].refusal)), c);
  }

  lemma JobsKept(s: State, step: Step)
    requires Threads(s) && |s.requests| == |s.verdicts| && Jobs(s) && Enabled(s, step)
    ensures Jobs(Apply(s, step))
  {
    if OfWorker(step) { JobsKeptByWorker(s, step); } else { JobsKeptByOthers(s, step); }
  }

  lemma JobsKeptByWorker(s: State, step: Step)
    requires Threads(s) && Jobs(s) && Enabled(s, step) && OfWorker(step)
    ensures Jobs(Apply(s, step))
  {
    hide RefusalResponse, Respond, Wellformed, Faulty, AsksFor;
  }

  lemma JobsKeptByOthers(s: State, step: Step)
    requires Threads(s) && |s.requests| == |s.verdicts| && Jobs(s) && Enabled(s, step) && !OfWorker(step)
    ensures Jobs(Apply(s, step))
  {
    hide RefusalResponse, Respond, Wellformed, Faulty, AsksFor;
  }

  lemma BegunKept(s: State, step: Step)
    requires Threads(s) && Begun(s) && Enabled(s, step)
    ensures Begun(Apply(s, step))
  {
    hide RefusalResponse, Respond, Invocations, Wellformed, Faulty, AsksFor;
    match step
    case RefusalBegin(id) =>
      if Current(s).InCallback? { InvocationsExtend(s.log, Delivery(id, RefusalResponse(s.verdicts[id].refusal)), Current(s).job.id); }
    case CallbackBegin(t) =>
      InvocationsExtend(s.log, Delivery(s.workers[t].job.id, Respond(s.workers[t].outcome)), s.workers[t].job.id);
    case _ =>
  }

  lemma OutcomesKept(s: State, step: Step)
    requires Threads(s) && |s.requests| == |s.verdicts| && Jobs(s) && Outcomes(s) && Enabled(s, step)
    ensures Outcomes(Apply(s, step))
  {
    hide RefusalResponse, Respond, Wellformed, Faulty, AsksFor;
    if step.Parse? || step.Generate? { OutcomesKeptByProcess(s, step); }
    else if OfWorker(step) { OutcomesKeptByWorker(s, step); }
    else { OutcomesKeptByOthers(s, step); }
  }

  lemma OutcomesKeptByProcess(s: State, step: Step)
    requires Threads(s) && Jobs(s) && Outcomes(s) && Enabled(s, step) && (step.Parse? || step.Generate?)
    ensures Outcomes(Apply(s, step))
  {
    hide RefusalResponse, Respond, Wellformed, Faulty, AsksFor;
    var next := Apply(s, step);
    forall c | c in next.outcomes ensures FitsOwn(next, c) {
      if c in s.outcomes { assert FitsOwn(s, c); }
    }
  }

  lemma OutcomesKeptByWorker(s: State, step: Step)
    requires Threads(s) && Outcomes(s) && Enabled(s, step) && OfWorker(step) && !step.Parse? && !step.Generate?
    ensures Outcomes(Apply(s, step))
  {
    hide RefusalResponse, Respond, Wellformed, Faulty, AsksFor, Fits;
    forall c | c in s.outcomes ensures FitsOwn(Apply(s, step), c) { assert FitsOwn(s, c); }
  }

  lemma OutcomesKeptByOthers(s: State, step: Step)
    requires Threads(s) && Outcomes(s) && Enabled(s, step) && !OfWorker(step)
    ensures Outcomes(Apply(s, step))
  {
    hide RefusalResponse, Respond, Wellformed, Faulty, AsksFor, Fits;
    forall c | c in s.outcomes ensures FitsOwn(Apply(s, step), c) { assert FitsOwn(s, c); }
  }

  lemma RefusalsKept(s: State, step: Step)
    requires |s.requests| == |s.verdicts| && Refusals(s) && Enabled(s, step)
    ensures Refusals(Apply(s, step))
  {
    hide RefusalResponse, Respond, Wellformed, Faulty, AsksFor;
  }

  /** A call whose callback is in the log has been invoked. */
  lemma {:induction false} InLog(log: seq<Delivery>, i: nat)
    requires i < |log|
    ensures Invocations(log, log[i].id) >= 1
    decreases |log|
  {
    if i < |log| - 1 {
      InLog(log[..|log| - 1], i);
    }
  }

  /** A job in hand has not been called back yet. */
  lemma HandIsNew(s: State, t: nat, i: nat)
    requires Threads(s) && Ledger(s) && Deliveries(s) && i < |s.log| && t < |s.workers|
    requires s.workers[t].Processing? || s.workers[t].Generating?
    ensures s.log[i].id != s.workers[t].job.id
  {
    hide RefusalResponse, Respond, Invocations, Wellformed, Faulty, AsksFor;
    var d := s.log[i];
    assert Faithful(s, d);
    InLog(s.log, i);
    assert Counted(s, d.id);
  }

  lemma DeliveriesKept(s: State, step: Step, i: nat)
    requires Inv(s) && Enabled(s, step) && i < |Apply(s, step).log|
    ensures Faithful(Apply(s, step), Apply(s, step).log[i])
  {
    hide RefusalResponse, Respond, Invocations, Admission, Order, Ledger, Wellformed, Faulty, AsksFor;
    if i < |s.log| {
      assert Faithful(s, s.log[i]);
      if step.Parse? || step.Generate? { HandIsNew(s, step.t, i); }
    }
  }

  lemma LedgerKept(s: State, step: Step)
    requires Inv(s) && Enabled(s, step)
    ensures Ledger(Apply(s, step))
  {
    hide Apply, Enabled, Places, Counted;
    RequestsKept(s, step);
    forall c: nat ensures Counted(Apply(s, step), c) {
      CountedKept(s, step, c);
    }
  }

  lemma RequestsKept(s: State, step: Step)
    requires |s.requests| == |s.verdicts| && Enabled(s, step)
    ensures |Apply(s, step).requests| == |Apply(s, step).verdicts|
  {
    hide RefusalResponse, Respond, Wellformed, Faulty, AsksFor;
  }

  lemma InvKept(s: State, step: Step)
    requires Inv(s) && Enabled(s, step)
    ensures Inv(Apply(s, step))
  {
    hide Apply, Enabled, Threads, Admission, Order, Counted, Jobs, Refusals, Faithful, Begun, Outcomes;
    ThreadsKept(s, step);
    AdmissionKept(s, step);
    OrderKept(s, step);
    LedgerKept(s, step);
    JobsKept(s, step);
    RefusalsKept(s, step);
    BegunKept(s, step);
    OutcomesKept(s, step);
    forall i | 0 <= i < |Apply(s, step).log| ensures Faithful(Apply(s, step), Apply(s, step).log[i]) {
      DeliveriesKept(s, step, i);
    }
  }

  lemma StartHolds()
    ensures Inv(START)
  {
    forall c: nat ensures Counted(START, c) {}
  }

  lemma {:induction false} RunKeeps(run: seq<Step>, s: State, end: State)
    requires Inv(s) && IsRun(run, s, end)
    ensures Inv(end)
    decreases |run|
  {
    hide Apply, Enabled, Inv;
    if run != [] {
      InvKept(s, run[0]);
      RunKeeps(run[1..], Apply(s, run[0]), end);
    }
  }

  lemma ReachableHolds(s: State)
    requires Reachable(s)
    ensures Inv(s)
  {
    hide Inv, IsRun;
    var run :| IsRun(run, START, s);
    StartHolds();
    RunKeeps(run, START, s);
  }
}
