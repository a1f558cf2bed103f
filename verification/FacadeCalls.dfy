/** The life of one call of the facade, as its caller sees it. */
module FacadeCalls {
  import opened ByteStrings
  import opened Messages
  import opened Facade
  import opened FacadeRuns
  import opened FacadeTheorems

  datatype Status = Unknown | Waiting | Running | Done

  function CallStatus(s: State, c: nat): Status {
    if c >= |s.verdicts| then Unknown
    else if Invocations(s.log, c) == 0 then Waiting
    else if c in s.refused || (Current(s).InCallback? && Current(s).job.id == c) then Running
    else Done
  }

  /** The step begins the callback of call `c`. */
  predicate Begins(s: State, step: Step, c: nat) {
    || step == RefusalBegin(c)
    || (step.CallbackBegin? && step.t < |s.workers| && s.workers[step.t].Calling? && s.workers[step.t].job.id == c)
  }

  /** The step is the return of the callback of call `c`. */
  predicate Ends(s: State, step: Step, c: nat) {
    || step == RefusalEnd(c)
    || (step.CallbackEnd? && step.t < |s.workers| && s.workers[step.t].InCallback? && s.workers[step.t].job.id == c)
  }

  /** The response a beginning callback is given. */
  function Given(s: State, step: Step, c: nat): GenerateResponse
    requires Enabled(s, step) && Begins(s, step, c)
  {
    if step.RefusalBegin? then RefusalResponse(s.verdicts[c].refusal) else Respond(s.workers[step.t].outcome)
  }

  ghost predicate Delivered(s: State, c: nat, response: GenerateResponse) {
    exists i :: 0 <= i < |s.log| && s.log[i] == Delivery(c, response)
  }

  /** A call goes from waiting to running to done, once each, and nothing else moves it. */
  lemma CallStatusStep(s: State, step: Step, c: nat)
    requires Inv(s) && Enabled(s, step)
    ensures var before, after := CallStatus(s, c), CallStatus(Apply(s, step), c);
            if Begins(s, step, c) then before.Waiting? && after.Running?
            else if Ends(s, step, c) then after.Done? || after == before
            else if step.Call? && c == |s.requests| then before.Unknown? && after.Waiting?
            else after == before
  {
    assert Counted(s, c) && Counted(Apply(s, step), c) by { CountedKept(s, step, c); }
    if step.RefusalBegin? || step.CallbackBegin? { StatusAtBegin(s, step, c); }
    else if OfWorker(step) { StatusByWorker(s, step, c); }
    else { StatusByOthers(s, step, c); }
  }

  lemma StatusAtBegin(s: State, step: Step, c: nat)
    requires Inv(s) && Enabled(s, step) && (step.RefusalBegin? || step.CallbackBegin?)
    ensures var before, after := CallStatus(s, c), CallStatus(Apply(s, step), c);
            if Begins(s, step, c) then before.Waiting? && after.Running? else after == before
  {
    hide RefusalResponse, Respond, Invocations, Order, Admission, Deliveries, Wellformed, Faulty, AsksFor;
    assert Counted(s, c);
    if step.RefusalBegin? {
      InvocationsExtend(s.log, Delivery(step.id, RefusalResponse(s.verdicts[step.id].refusal)), c);
    } else {
      InvocationsExtend(s.log, Delivery(s.workers[step.t].job.id, Respond(s.workers[step.t].outcome)), c);
    }
  }

  lemma StatusByWorker(s: State, step: Step, c: nat)
    requires Threads(s) && Enabled(s, step) && OfWorker(step) && !step.CallbackBegin?
    ensures var before, after := CallStatus(s, c), CallStatus(Apply(s, step), c);
            if Ends(s, step, c) then after.Done? || after == before else after == before
  {
    hide RefusalResponse, Respond, Invocations, Wellformed, Faulty, AsksFor;
  }

  lemma StatusByOthers(s: State, step: Step, c: nat)
    requires Threads(s) && |s.requests| == |s.verdicts| && Enabled(s, step) && !OfWorker(step) && !step.RefusalBegin? && Counted(s, c)
    ensures var before, after := CallStatus(s, c), CallStatus(Apply(s, step), c);
            if Ends(s, step, c) then after.Done? || after == before
            else if step.Call? && c == |s.requests| then before.Unknown? && after.Waiting?
            else after == before
  {
    hide RefusalResponse, Respond, Invocations, Wellformed, Faulty, AsksFor;
  }

  lemma DeliveredStays(s: State, step: Step, c: nat, response: GenerateResponse)
    requires Enabled(s, step)
    ensures Delivered(s, c, response) ==> Delivered(Apply(s, step), c, response)
    ensures Begins(s, step, c) ==> Delivered(Apply(s, step), c, Given(s, step, c))
  {
    hide RefusalResponse, Respond, Wellformed, Faulty, AsksFor;
    var next := Apply(s, step);
    assert s.log <= next.log;
    if Delivered(s, c, response) {
      var i :| 0 <= i < |s.log| && s.log[i] == Delivery(c, response);
      assert next.log[i] == Delivery(c, response);
    }
    if Begins(s, step, c) {
      assert next.log[|s.log|] == Delivery(c, Given(s, step, c));
    }
  }

  /** The accepted call whose callback the worker runs. */
  function RunningCall(s: State): Option<nat> { if Current(s).InCallback? then Some(Current(s).job.id) else None }

  lemma RunningCallStep(s: State, step: Step)
    requires Threads(s) && Enabled(s, step)
    ensures if step.CallbackBegin? then RunningCall(s).None? && RunningCall(Apply(s, step)) == Some(s.workers[step.t].job.id)
            else if step.CallbackEnd? then Ends(s, step, s.workers[step.t].job.id) && RunningCall(s) == Some(s.workers[step.t].job.id) && RunningCall(Apply(s, step)).None?
            else RunningCall(Apply(s, step)) == RunningCall(s)
  {
    hide RefusalResponse, Respond, Wellformed, Faulty, AsksFor;
  }

  lemma RunningIsRunning(s: State, c: nat)
    requires Inv(s) && RunningCall(s) == Some(c)
    ensures CallStatus(s, c).Running?
  {
    hide Invocations;
  }
}
