/** What the facade promises in every reachable state, over whole runs, and while it shuts down. */
module FacadeTheorems {
  import opened ByteStrings
  import opened JsonGrammar
  import opened Messages
  import opened Facade
  import opened FacadeRuns
  import JsonSpec
  import CompletionRoundTrip
  import RoundTrip

  // ---- Exactly once ----

  /** No callback runs twice, and none runs for a call that was not made. */
  lemma AtMostOnce(s: State, c: nat)
    requires Reachable(s)
    ensures Invocations(s.log, c) <= (if c < |s.verdicts| then 1 else 0)
  {
    hide Invocations, Threads, Admission, Order, Jobs, Refusals, Deliveries, Reachable;
    ReachableHolds(s);
    assert Counted(s, c);
  }

  /** Once Shutdown has returned and no refusal is being delivered, every call has had its callback. */
  lemma ExactlyOnceAtRest(s: State, c: nat)
    requires Reachable(s) && s.core.worker.None? && s.shutdown.NotStopping? && s.refusing == {}
    ensures Invocations(s.log, c) == if c < |s.verdicts| then 1 else 0
  {
    hide Invocations, Order, Jobs, Refusals, Deliveries, Reachable;
    ReachableHolds(s);
    assert Counted(s, c);
  }

  /** The callback of a call was given the refusal of that call, or what processing its own request ended with. */
  lemma OwnResponse(s: State, i: nat)
    requires Reachable(s) && i < |s.log|
    ensures var d := s.log[i];
            && d.id < |s.verdicts|
            && match s.verdicts[d.id]
               case Refused(refusal) => d.response == RefusalResponse(refusal)
               case Accepted => d.id in s.outcomes && d.response == Respond(s.outcomes[d.id])
  {
    hide Invocations, Threads, Admission, Order, Ledger, Jobs, Refusals, Reachable, RefusalResponse, Respond, Wellformed, Faulty, AsksFor;
    ReachableHolds(s);
    assert Faithful(s, s.log[i]);
  }

  /** Only a generation that succeeded is answered with a 2xx status. */
  lemma SuccessExactly(o: Outcome)
    ensures 200 <= Respond(o).statusCode < 300 <==> o.Returned? && o.result.status.Ok?
  {
    hide ErrorDetail, ChoiceText, UsageText;
  }

  lemma RefusalFails(refusal: Refusal)
    ensures RefusalResponse(refusal).statusCode >= 400
  {
    hide ErrorDetail;
  }

  lemma OutcomeFits(s: State, c: nat)
    requires Reachable(s) && c in s.outcomes
    ensures c < |s.requests| && Fits(s.requests[c], s.outcomes[c])
  {
    hide Reachable, Threads, Admission, Order, Ledger, Jobs, Refusals, Deliveries, Begun, Fits;
    ReachableHolds(s);
    assert FitsOwn(s, c);
  }

  /** A request that no rounding makes complete, such as one that is no JSON, is answered with 400 or 500, never as if it
      had been processed. */
  lemma MalformedIsRefused(s: State, i: nat)
    requires Reachable(s) && i < |s.log| && s.log[i].id < |s.verdicts| && s.verdicts[s.log[i].id].Accepted?
    requires s.log[i].id < |s.requests| && !Wellformed(s.requests[s.log[i].id])
    ensures s.log[i].response.statusCode == 400 || s.log[i].response.statusCode == 500
  {
    hide Reachable, RefusalResponse, Respond, Wellformed, Faulty, AsksFor, IsError, CompletionRoundTrip.IsCompletion, JsonSpec.ReadText;
    AcceptedAnswer(s, i);
    OutcomeFits(s, s.log[i].id);
  }

  /** A callback given a 2xx response belongs to an accepted call whose generation succeeded, and the body parses to that
      generation's completion; the call's own request was well formed and asked for that model. */
  lemma SuccessIsACompletion(s: State, i: nat)
    requires Reachable(s) && i < |s.log| && 200 <= s.log[i].response.statusCode < 300
    ensures var c := s.log[i].id;
            && c < |s.verdicts| && s.verdicts[c].Accepted? && c in s.outcomes && s.outcomes[c].Returned? && s.outcomes[c].result.status.Ok?
            && var o := s.outcomes[c];
               var r := JsonSpec.ReadText(s.log[i].response.body);
            r.Got? && CompletionRoundTrip.IsCompletion(r.value, o.model, o.result, o.serial, o.created)
    ensures var c := s.log[i].id; c < |s.requests| && Wellformed(s.requests[c]) && AsksFor(s.requests[c], s.outcomes[c].model)
  {
    hide Wellformed, AsksFor, Inv, IsRun;
    hide Reachable, RefusalResponse, CompletionResponse, RuntimeErrorResponse, ErrorResponse, JsonSpec.ReadText, CompletionRoundTrip.IsCompletion;
    OwnResponse(s, i);
    var c := s.log[i].id;
    match s.verdicts[c]
    case Refused(refusal) => RefusalFails(refusal);
    case Accepted =>
      SuccessExactly(s.outcomes[c]);
      var o := s.outcomes[c];
      CompletionRoundTrip.ParseCompletion(o.model, o.result, o.serial, o.created);
      OutcomeFits(s, c);
  }

  /** The body parses to an error object with this code and this message. */
  predicate IsError(body: bytes, code: bytes, message: bytes) {
    var r := JsonSpec.ReadText(body);
    && r.Got? && r.value.Find(Ascii("error")).Some?
    && RoundTrip.HasText(r.value.Find(Ascii("error")).value, "code", code)
    && RoundTrip.HasText(r.value.Find(Ascii("error")).value, "message", message)
  }

  /** What a client reads for each way processing can end. */
  ghost predicate Answered(o: Outcome, status: int, body: bytes) {
    match o
    case Invalid(error) => status == 400 && IsError(body, Ascii("invalid_request"), error)
    case Threw(what) => status == 500 && IsError(body, Ascii("internal_error"), what)
    case ThrewUnknown => status == 500 && IsError(body, Ascii("internal_error"), Ascii("unknown generation failure"))
    case Returned(model, result, serial, created) =>
      var message := if result.error == [] then Ascii("inference failed") else result.error;
      match result.status
      case Ok =>
        var r := JsonSpec.ReadText(body);
        status == 200 && r.Got? && CompletionRoundTrip.IsCompletion(r.value, model, result, serial, created)
      case InvalidArgument => status == 400 && IsError(body, Ascii("invalid_argument"), message)
      case ContextTooLong => status == 400 && IsError(body, Ascii("context_too_long"), message)
      case OutOfMemory => status == 503 && IsError(body, Ascii("out_of_memory"), message)
      case InternalError => status == 500 && IsError(body, Ascii("internal_error"), message)
  }

  lemma ErrorIs(status: int32, code: bytes, message: bytes)
    ensures IsError(ErrorResponse(status, code, message).body, code, message) && ErrorResponse(status, code, message).statusCode == status
  {
    hide JsonSpec.ReadText, Ascii, RoundTrip.HasText, LiteLlmErrorMessage, ErrorDetail;
    RoundTrip.ParseErrorResponse(status, code, message);
  }

  lemma RespondAnswers(o: Outcome)
    ensures Answered(o, Respond(o).statusCode, Respond(o).body)
  {
    hide Ascii, IsError, ErrorResponse, CompletionRoundTrip.IsCompletion, JsonSpec.ReadText;
    match o
    case Invalid(error) => ErrorIs(400, Ascii("invalid_request"), error);
    case Threw(what) => ErrorIs(500, Ascii("internal_error"), what);
    case ThrewUnknown => ErrorIs(500, Ascii("internal_error"), Ascii("unknown generation failure"));
    case Returned(model, result, serial, created) =>
      var message := if result.error == [] then Ascii("inference failed") else result.error;
      match result.status
      case Ok => CompletionRoundTrip.ParseCompletion(model, result, serial, created);
      case InvalidArgument => ErrorIs(400, Ascii("invalid_argument"), message);
      case ContextTooLong => ErrorIs(400, Ascii("context_too_long"), message);
      case OutOfMemory => ErrorIs(503, Ascii("out_of_memory"), message);
      case InternalError => ErrorIs(500, Ascii("internal_error"), message);
  }

  /** In every reachable state, each callback of an accepted call was given what its outcome calls for: status, and the
      code and message, or the completion, that its body parses to. */
  lemma AcceptedAnswer(s: State, i: nat)
    requires Reachable(s) && i < |s.log| && s.log[i].id < |s.verdicts| && s.verdicts[s.log[i].id].Accepted?
    ensures s.log[i].id in s.outcomes
    ensures var o, response := s.outcomes[s.log[i].id], s.log[i].response;
            && Answered(o, response.statusCode, response.body)
            && (response.statusCode == 400 <==>
                  o.Invalid? || (o.Returned? && (o.result.status.InvalidArgument? || o.result.status.ContextTooLong?)))
  {
    hide Reachable, RefusalResponse, Respond, IsError, CompletionRoundTrip.IsCompletion, JsonSpec.ReadText, Wellformed, Faulty, AsksFor;
    OwnResponse(s, i);
    RespondAnswers(s.outcomes[s.log[i].id]);
  }

  /** Neither reset of Shutdown drops a job: the slot is empty whenever one runs. */
  lemma ResetDropsNothing(s: State)
    requires Reachable(s)
    ensures s.shutdown.Finishing? ==> s.core.job.None? && !s.core.busy
    ensures s.shutdown.NotStopping? && s.core.worker.None? ==> s.core.job.None? && !s.core.busy && !s.core.stopping
  {
    hide Invocations, Order, Ledger, Jobs, Refusals, Deliveries, Reachable;
    ReachableHolds(s);
  }

  // ---- Admission ----

  lemma BusyExactly(s: State)
    requires Reachable(s)
    ensures s.core.busy <==> s.core.job.Some? || exists t :: 0 <= t < |s.workers| && Working(s.workers[t])
  {
    hide Invocations, Order, Ledger, Jobs, Refusals, Deliveries, Reachable;
    ReachableHolds(s);
    if s.core.busy && s.core.job.None? {
      assert Working(s.workers[|s.workers| - 1]);
    }
  }

  /** An accepted call finds the slot empty. */
  lemma AcceptNeverOverwrites(s: State, request: bytes)
    requires Reachable(s) && Admit(s.core, NewCall(s, request)).1.Accepted?
    ensures s.core.job.None? && Admit(s.core, NewCall(s, request)).0.job == Some(NewCall(s, request))
  {
    hide Invocations, Order, Ledger, Jobs, Refusals, Deliveries, Reachable;
    ReachableHolds(s);
  }

  /** The verdict on a call: accepted exactly when the worker handle is there and no accepted job is pending or being
      processed; the `busy_` flag itself need not be looked at. */
  lemma VerdictExactly(s: State, request: bytes)
    requires Reachable(s)
    ensures Admit(s.core, NewCall(s, request)).1 ==
              if s.core.worker.None? then Refused(NotReady)
              else if s.core.job.Some? || Working(Current(s)) then Refused(Busy)
              else Accepted
  {
    hide Invocations, Order, Ledger, Jobs, Refusals, Deliveries, Reachable;
    ReachableHolds(s);
  }

  /** What a refused caller reads: the status, and the code and message of the refusal. */
  lemma RefusalParses(refusal: Refusal)
    ensures var response := RefusalResponse(refusal);
            match refusal
            case NotReady => response.statusCode == 503 && IsError(response.body, Ascii("not_ready"), Ascii("LiteLlm is not initialized"))
            case ShuttingDown => response.statusCode == 503 && IsError(response.body, Ascii("shutting_down"), Ascii("LiteLlm is shutting down"))
            case Busy => response.statusCode == 409 && IsError(response.body, Ascii("busy"), Ascii("another generation is already active"))
  {
    hide Ascii, IsError, ErrorResponse;
    match refusal
    case NotReady => ErrorIs(503, Ascii("not_ready"), Ascii("LiteLlm is not initialized"));
    case ShuttingDown => ErrorIs(503, Ascii("shutting_down"), Ascii("LiteLlm is shutting down"));
    case Busy => ErrorIs(409, Ascii("busy"), Ascii("another generation is already active"));
  }

  /** Accepted calls whose callback has not returned. */
  function Outstanding(s: State): nat {
    |Hand(Current(s))| + |Slot(s.core)| + if Current(s).InCallback? then 1 else 0
  }

  lemma AcceptanceOrder(s: State)
    requires Reachable(s)
    ensures s.begun <= s.accepted
    ensures |s.accepted| == |s.begun| - (if Current(s).InCallback? then 1 else 0) + Outstanding(s)
    ensures Outstanding(s) <= 2
  {
    hide Invocations, Ledger, Jobs, Refusals, Deliveries, Reachable;
    ReachableHolds(s);
  }

  // ---- The runtime ----

  /** Processing always finds a runtime, it stays the same object throughout Generate, and Generate calls never overlap. */
  lemma RuntimeSafety(s: State, t: nat, u: nat)
    requires Reachable(s) && t < |s.workers| && u < |s.workers|
    ensures s.workers[t].Processing? ==> s.core.runtime.Some?
    ensures s.workers[t].Generating? ==> s.core.runtime == Some(s.workers[t].runtime)
    ensures s.workers[t].Generating? && s.workers[u].Generating? ==> t == u
    ensures !s.workers[t].Exited? && !s.workers[u].Exited? ==> t == u
  {
    hide Invocations, Order, Ledger, Jobs, Refusals, Deliveries, Reachable;
    ReachableHolds(s);
  }

  /** While stopping there is no joinable worker, so every call is refused with 503 and `not_ready`; `shutting_down` is never answered. */
  lemma RefusedWhileStopping(s: State, request: bytes)
    requires Reachable(s)
    ensures s.core.stopping ==> s.core.worker.None?
    ensures s.core.stopping ==> Admit(s.core, NewCall(s, request)).1 == Refused(NotReady)
    ensures Admit(s.core, NewCall(s, request)).1 != Refused(ShuttingDown)
    ensures RefusalResponse(NotReady).statusCode == 503
  {
    hide Invocations, Order, Ledger, Jobs, Refusals, Deliveries, Reachable;
    ReachableHolds(s);
  }

  // ---- No lost wakeup ----

  lemma NoLostWakeup(s: State, t: nat)
    requires Reachable(s) && t < |s.workers| && s.workers[t].Blocked?
    ensures !s.core.stopping && s.core.job.None?
  {
    hide Invocations, Order, Ledger, Jobs, Refusals, Deliveries, Reachable;
    ReachableHolds(s);
  }

  // ---- Progress of the worker ----

  /** Worker steps until the thread can take the next job or leave. */
  function Ahead(pc: WorkerPc): nat {
    match pc
    case Exited => 0
    case Checking => 1
    case Blocked => 2
    case Rechecking => 2
    case InCallback(_) => 3
    case Calling(_, _) => 4
    case Clearing(_, _) => 5
    case Generating(_, _) => 6
    case Processing(_) => 7
  }

  /** Worker steps until the thread has left, once the facade is stopping. */
  function StopRank(s: State): nat { Ahead(Current(s)) + if s.core.job.Some? then 7 else 0 }

  lemma StopRankFalls(s: State, step: Step)
    requires Inv(s) && s.core.stopping && Enabled(s, step) && !step.ShutdownEnd?
    ensures var next := Apply(s, step);
            && next.core.stopping && next.accepted == s.accepted
            && (if OfWorker(step) then StopRank(next) < StopRank(s) else StopRank(next) == StopRank(s))
  {
    hide Invocations, Order, Ledger, Jobs, Refusals, Deliveries, RefusalResponse, Respond, Wellformed, Faulty, AsksFor;
  }

  /** Whatever the worker is waiting for ends, so one of its steps is possible, or the join is. */
  lemma StopNeverStuck(s: State)
    requires Inv(s) && s.shutdown.Joining?
    ensures exists step :: Enabled(s, step) && (step.ShutdownJoin? || OfWorker(step))
  {
    hide Invocations, Order, Ledger, Jobs, Refusals, Deliveries, RefusalResponse, Respond, Wellformed, Faulty, AsksFor;
    if Current(s).Exited? {
      assert Enabled(s, ShutdownJoin);
    } else {
      WorkerStep(s);
    }
  }

  /** A live thread that is not blocked has a step. */
  lemma WorkerStep(s: State)
    requires Threads(s) && !Current(s).Exited? && !Current(s).Blocked?
    ensures exists step :: Enabled(s, step) && OfWorker(step)
  {
    hide RefusalResponse, Respond, Wellformed, Faulty, AsksFor;
    var t := |s.workers| - 1;
    match Current(s)
    case Checking => assert Enabled(s, Check(t));
    case Processing(job) => ParseStep(s, t, job);
    case Generating(_, _) => assert Enabled(s, Generate(t, ThrewUnknown));
    case Clearing(_, _) => assert Enabled(s, Clear(t));
    case Calling(_, _) => assert Enabled(s, CallbackBegin(t));
    case InCallback(_) => assert Enabled(s, CallbackEnd(t));
    case Rechecking => assert Enabled(s, Recheck(t));
  }

  /** Whatever the request, it is accepted or refused. */
  lemma ParseStep(s: State, t: nat, job: Job)
    requires t < |s.workers| && s.workers[t] == Processing(job) && s.core.runtime.Some?
    ensures exists step :: Enabled(s, step) && OfWorker(step)
  {
    var double: Decimal -> real := d => 0.0;
    if Accepts(job.request, double) {
      assert Wellformed(job.request);
      assert Enabled(s, Parse(t, None));
    } else {
      assert Faulty(job.request);
      assert Enabled(s, Parse(t, Some(Invalid([]))));
    }
  }

  function WorkerSteps(run: seq<Step>): nat {
    if run == [] then 0 else (if OfWorker(run[0]) then 1 else 0) + WorkerSteps(run[1..])
  }

  predicate Finishes(run: seq<Step>) { exists i :: 0 <= i < |run| && run[i].ShutdownEnd? }

  lemma VerdictStays(s: State, step: Step)
    requires Enabled(s, step)
    ensures s.verdicts <= Apply(s, step).verdicts && s.begun <= Apply(s, step).begun
  {
    hide RefusalResponse, Respond, Wellformed, Faulty, AsksFor;
  }

  /** Until Shutdown finishes, no call is admitted and the worker takes a bounded number of steps. */
  lemma {:induction false} StopBounded(run: seq<Step>, s: State, end: State)
    requires Inv(s) && s.core.stopping && IsRun(run, s, end) && !Finishes(run)
    ensures WorkerSteps(run) + StopRank(end) <= StopRank(s)
    ensures end.accepted == s.accepted && s.begun <= end.begun && end.core.stopping
    decreases |run|
  {
    hide Inv, Apply, Enabled, StopRank;
    if run != [] {
      assert !run[0].ShutdownEnd?;
      assert !Finishes(run[1..]) by {
        forall i | 0 <= i < |run[1..]| ensures !run[1..][i].ShutdownEnd? { assert run[i + 1] == run[1..][i]; }
      }
      InvKept(s, run[0]);
      StopRankFalls(s, run[0]);
      VerdictStays(s, run[0]);
      StopBounded(run[1..], Apply(s, run[0]), end);
    }
  }

  /** Shutdown: from the moment it takes the handle, at most eleven worker steps happen before the thread has left,
      and at most the job in hand and the one in the slot are completed. */
  lemma ShutdownTerminates(run: seq<Step>, s: State, end: State)
    requires Reachable(s) && s.core.stopping && IsRun(run, s, end) && !Finishes(run)
    ensures WorkerSteps(run) <= 11
    ensures WorkerSteps(run) == StopRank(s) ==> Current(end).Exited?
    ensures end.accepted == s.accepted && |end.begun| <= |s.begun| + 2
    ensures s.begun <= end.begun
  {
    hide Reachable, IsRun, Invocations, Ledger, Jobs, Refusals, Deliveries, WorkerSteps, Finishes;
    ReachableHolds(s);
    StopBounded(run, s, end);
    RunKeeps(run, s, end);
    assert StopRank(s) <= 11;
  }

  // ---- Progress of one call ----

  /** Worker steps until the callback of call `c` has returned; 0 when it has, or was refused. */
  function Distance(s: State, c: nat): nat {
    var pc := Current(s);
    if HasJob(pc) && pc.job.id == c then Ahead(pc) - 2
    else if Slot(s.core) == [c] then 5 + Ahead(pc)
    else 0
  }

  predicate Served(s: State, c: nat) { Invocations(s.log, c) == 1 && Distance(s, c) == 0 }

  /** A call in the hand, or in its callback, is not pending as well. */
  lemma HandOrSlot(s: State, c: nat)
    requires Inv(s) && HasJob(Current(s)) && Current(s).job.id == c
    ensures Slot(s.core) != [c]
  {
    hide Invocations, Threads, Admission, Order, Jobs, Refusals, Deliveries;
    assert Counted(s, c);
  }

  lemma DistanceFalls(s: State, step: Step, c: nat)
    requires Inv(s) && Enabled(s, step) && c < |s.verdicts|
    ensures if Distance(s, c) > 0 && OfWorker(step) then Distance(Apply(s, step), c) < Distance(s, c)
            else Distance(Apply(s, step), c) == Distance(s, c)
  {
    if HasJob(Current(s)) && Current(s).job.id == c { HandOrSlot(s, c); }
    if OfWorker(step) { DistanceFallsByWorker(s, step, c); } else { DistanceStays(s, step, c); }
  }

  lemma DistanceFallsByWorker(s: State, step: Step, c: nat)
    requires Threads(s) && Admission(s) && Enabled(s, step) && OfWorker(step)
    requires HasJob(Current(s)) && Current(s).job.id == c ==> Slot(s.core) != [c]
    ensures if Distance(s, c) > 0 then Distance(Apply(s, step), c) < Distance(s, c) else Distance(Apply(s, step), c) == 0
  {
    hide Invocations, RefusalResponse, Respond, Wellformed, Faulty, AsksFor;
  }

  lemma DistanceStays(s: State, step: Step, c: nat)
    requires Threads(s) && Admission(s) && Enabled(s, step) && !OfWorker(step) && c < |s.verdicts| == |s.requests|
    ensures Distance(Apply(s, step), c) == Distance(s, c)
  {
    hide Invocations, RefusalResponse, Respond, Wellformed, Faulty, AsksFor;
  }

  lemma {:induction false} DistanceBounded(run: seq<Step>, s: State, end: State, c: nat)
    requires Inv(s) && IsRun(run, s, end) && c < |s.verdicts|
    ensures Distance(end, c) > 0 ==> WorkerSteps(run) + Distance(end, c) <= Distance(s, c)
    ensures s.verdicts <= end.verdicts
    decreases |run|
  {
    hide Inv, Apply, Enabled, Distance;
    if run != [] {
      InvKept(s, run[0]);
      DistanceFalls(s, run[0], c);
      VerdictStays(s, run[0]);
      DistanceBounded(run[1..], Apply(s, run[0]), end, c);
    }
  }

  /** Every accepted call is served: after nine worker steps its callback has been invoked exactly once and has returned,
      whatever callers, Shutdown and Initialize do meanwhile. */
  lemma AcceptedIsServed(run: seq<Step>, s: State, end: State, c: nat)
    requires Reachable(s) && IsRun(run, s, end) && c < |s.verdicts| && s.verdicts[c].Accepted? && WorkerSteps(run) >= 9
    ensures Served(end, c)
  {
    hide Reachable, IsRun, Invocations, Order, Jobs, Deliveries, WorkerSteps;
    ReachableHolds(s);
    assert Distance(s, c) <= 9;
    DistanceBounded(run, s, end, c);
    RunKeeps(run, s, end);
    assert Counted(end, c);
  }

  /** Until then the worker always has a step to take. */
  lemma UnservedHasStep(s: State, c: nat)
    requires Reachable(s) && c < |s.verdicts| && s.verdicts[c].Accepted? && !Served(s, c)
    ensures exists step :: Enabled(s, step) && OfWorker(step)
  {
    hide Reachable, Invocations, Order, Jobs, Deliveries;
    ReachableHolds(s);
    assert Counted(s, c);
    WorkerStep(s);
  }

  // ---- Tight bounds and needed assumptions ----

  lemma {:induction false} RunExtends(run: seq<Step>, s: State, mid: State, step: Step)
    requires IsRun(run, s, mid) && Enabled(mid, step)
    ensures IsRun(run + [step], s, Apply(mid, step))
    decreases |run|
  {
    hide Apply, Enabled;
    if run == [] {
      assert ([step])[1..] == [];
      assert IsRun([], Apply(mid, step), Apply(mid, step));
      assert run + [step] == [step];
    } else {
      RunExtends(run[1..], Apply(s, run[0]), mid, step);
      assert (run + [step])[1..] == run[1..] + [step];
    }
  }

  lemma ReachStep(s: State, step: Step)
    requires Reachable(s) && Enabled(s, step)
    ensures Reachable(Apply(s, step))
  {
    hide Apply, Enabled, IsRun;
    var run :| IsRun(run, START, s);
    RunExtends(run, START, s, step);
  }

  lemma StartIsReachable()
    ensures Reachable(START)
  {
    assert IsRun([], START, START);
  }

  /** A facade that generates, with runtime 0 and worker 0, for the first call. */
  predicate FirstGeneration(s: State) {
    && s.core == Core(Some(0), None, Some(0), true, false) && |s.workers| == 1 && s.workers[0].Generating?
    && s.shutdown.NotStopping? && s.initialize.NotInitializing? && |s.accepted| == 1
  }

  /** A request with one message, and nothing else. */
  lemma ExampleRequest() returns (request: bytes)
    ensures Wellformed(request)
  {
    hide Text, Denote, Good, Depth, Ascii, Request.Complete, MembersText, GoodMembers, DenoteMembers, MembersDepth, TextLeaf, Field, LastField, OneElement;
    ExamplePlains();
    QuotedLeafIs("user");
    TextLeafIs([]);
    var m2 := LastField("content", TextLeaf([]));
    LastFieldIs("content", TextLeaf([]));
    var m1 := Field("role", TextLeaf(Ascii("user")), m2);
    FieldIs("role", TextLeaf(Ascii("user")), m2);
    var list := OneElement(ObjectTree(m1));
    CompletionRoundTrip.OneObjectIs(m1, [OPEN_BRACE] + MembersText(m1));
    var root := LastField("messages", list);
    LastFieldIs("messages", list);
    var v := ObjectTree(root);
    ObjectIs(root, [OPEN_BRACE] + MembersText(root));
    request := Text(v);
    assert [] + Text(v) + [] == request;
    assert Spells([], v, [], request);
    var double: Decimal -> real := d => 0.0;
    ExampleComplete(double);
    assert Accepts(request, double);
  }

  lemma ExamplePlains()
    ensures PlainLiteral("role") && PlainLiteral("content") && PlainLiteral("messages") && PlainLiteral("user")
  {
  }

  function ExampleMessage(): Json { Object(map[Ascii("role") := String(Ascii("user"))] + map[Ascii("content") := String([])]) }

  lemma ExampleComplete(double: Decimal -> real)
    ensures Request.Complete(Object(map[Ascii("messages") := Array([ExampleMessage()])]), double)
  {
    hide Ascii, Request.IsRoleValid;
    var message := ExampleMessage();
    var root := Object(map[Ascii("messages") := Array([message])]);
    ExampleKeys();
    assert [message][..0] == [];
    assert Request.SectionsOf([]) == Request.Success([]);
    assert Request.SectionOf(message).Success?;
    assert Request.SectionsOf([message]).Success?;
    assert Request.MessagesOf(root) == Request.Success([message]);
  }

  lemma ExampleKeys()
    ensures Ascii("messages") != Ascii("model") && Ascii("messages") != Ascii("temperature") && Ascii("messages") != Ascii("lite_llm")
    ensures Ascii("messages") != Ascii("max_completion_tokens") && Ascii("messages") != Ascii("max_tokens")
    ensures Ascii("role") != Ascii("content") && Request.IsRoleValid(Ascii("user"))
  {
    assert Ascii("messages")[1] != Ascii("lite_llm")[1];
    assert |Ascii("max_tokens")| == 10;
    assert Ascii("user")[0] == 0x75 && Ascii("user")[1] == 0x73 && Ascii("user")[2] == 0x65 && Ascii("user")[3] == 0x72;
  }

  lemma FirstGenerationReached() returns (s: State)
    ensures Reachable(s) && FirstGeneration(s)
  {
    hide RefusalResponse, Respond, Reachable, Wellformed, Faulty, AsksFor;
    StartIsReachable();
    var request := ExampleRequest();
    ReachStep(START, InitializeBegin);
    var s1 := Apply(START, InitializeBegin);
    ReachStep(s1, InitializeCreate(true));
    var s2 := Apply(s1, InitializeCreate(true));
    ReachStep(s2, InitializeInstall(true));
    var s3 := Apply(s2, InitializeInstall(true));
    ReachStep(s3, Call(request, None));
    var s4 := Apply(s3, Call(request, None));
    ReachStep(s4, Check(0));
    var s5 := Apply(s4, Check(0));
    ReachStep(s5, Parse(0, None));
    s := Apply(s5, Parse(0, None));
  }

  /** The bound of two is reached: `busy_` is cleared before the first callback runs, so a second call is accepted meanwhile. */
  lemma TwoOutstanding() returns (s: State)
    ensures Reachable(s) && Outstanding(s) == 2 && Current(s).InCallback? && s.core.job.Some?
  {
    hide RefusalResponse, Respond, Reachable, Wellformed, Faulty, AsksFor;
    var s0 := FirstGenerationReached();
    ReachStep(s0, Generate(0, ThrewUnknown));
    var s1 := Apply(s0, Generate(0, ThrewUnknown));
    ReachStep(s1, Clear(0));
    var s2 := Apply(s1, Clear(0));
    ReachStep(s2, CallbackBegin(0));
    var s3 := Apply(s2, CallbackBegin(0));
    ReachStep(s3, Call([], None));
    s := Apply(s3, Call([], None));
  }

  /** Shutdown calls must not overlap: the early return of a second one takes the runtime away from a running Generate
      and forgets that the facade is stopping. */
  lemma OverlappingShutdownUnsafe() returns (s: State)
    ensures Reachable(s) && s.shutdown.Joining? && Current(s).Generating?
    ensures var core := ResetIdle(s.core);
            s.core.worker.None? && core.runtime != Some(Current(s).runtime) && !core.stopping
  {
    hide RefusalResponse, Respond, Reachable, Wellformed, Faulty, AsksFor;
    var s0 := FirstGenerationReached();
    ReachStep(s0, ShutdownBegin(None));
    s := Apply(s0, ShutdownBegin(None));
  }
}
