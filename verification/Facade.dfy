/** The asynchronous facade: its mutex-protected state, its critical sections, and the class that runs them. */
module Facade {
  import opened ByteStrings
  import opened Messages

  /** A queued request. `id` numbers the call, and so stands for its completion callback. */
  datatype Job = Job(id: nat, request: bytes)

  /** The fields the mutex protects. A runtime is known by its number, a thread by its index. */
  datatype Core = Core(runtime: Option<nat>, job: Option<Job>, worker: Option<nat>, busy: bool, stopping: bool)

  datatype Refusal = NotReady | ShuttingDown | Busy

  datatype Verdict = Accepted | Refused(refusal: Refusal)

  datatype InitializeResult = InitializeResult(ok: bool, error: string)

  function RefusalResponse(refusal: Refusal): GenerateResponse {
    match refusal
    case NotReady => ErrorResponse(503, Ascii("not_ready"), Ascii("LiteLlm is not initialized"))
    case ShuttingDown => ErrorResponse(503, Ascii("shutting_down"), Ascii("LiteLlm is shutting down"))
    case Busy => ErrorResponse(409, Ascii("busy"), Ascii("another generation is already active"))
  }

  const INITIAL := Core(None, None, None, false, false)

  // ---- Critical sections, as functions of the protected fields ----

  function Admit(c: Core, job: Job): (Core, Verdict) {
    if c.runtime.None? || c.worker.None? then (c, Refused(NotReady))
    else if c.stopping then (c, Refused(ShuttingDown))
    else if c.busy then (c, Refused(Busy))
    else (c.(busy := true, job := Some(job)), Accepted)
  }

  predicate Initialized(c: Core) { c.runtime.Some? || c.worker.Some? }

  /** The new runtime is installed; `thread` is the started worker, or absent when its creation threw. */
  function Install(c: Core, runtime: nat, thread: Option<nat>): Core {
    c.(runtime := Some(runtime), stopping := false, worker := if thread.Some? then thread else c.worker)
  }

  function DropRuntime(c: Core): Core { c.(runtime := None) }

  /** Shutdown without a worker resets everything at once. */
  function ResetIdle(c: Core): Core { c.(runtime := None, stopping := false, busy := false, job := None) }

  /** Shutdown with a worker moves the handle away. */
  function BeginStop(c: Core): Core { c.(stopping := true, worker := None) }

  function FinishStop(c: Core): Core { c.(runtime := None, job := None, stopping := false, busy := false) }

  /** The predicate the worker waits for. */
  predicate Awake(c: Core) { c.stopping || c.job.Some? }

  function Take(c: Core): Core { c.(job := None) }

  function ClearBusy(c: Core): Core { c.(busy := false) }

  predicate Leaves(c: Core) { c.stopping && c.job.None? }

  /** What every critical section keeps: a pending job is busy, and a stopping facade has handed its worker away. */
  predicate Consistent(c: Core) { (c.job.Some? ==> c.busy) && (c.stopping ==> c.worker.None?) }

  // ---- The class ----

  /** Each method is one stretch of `LiteLlm::Impl` that runs with the mutex held. */
  class Impl {
    var runtime: Option<nat>
    var job: Option<Job>
    var worker: Option<nat>
    var busy: bool
    var stopping: bool

    function View(): Core
      reads this
    {
      Core(runtime, job, worker, busy, stopping)
    }

    constructor ()
      ensures View() == INITIAL
    {
      runtime, job, worker, busy, stopping := None, None, None, false, false;
    }

    /** The section of `GenerateAsync`; `notify` tells that the condition variable is notified. */
    method GenerateAsync(request: Job) returns (verdict: Verdict, notify: bool)
      modifies this
      ensures (View(), verdict) == Admit(old(View()), request)
      ensures notify <==> verdict.Accepted?
      ensures Consistent(old(View())) ==> Consistent(View()) && verdict != Refused(ShuttingDown)
      ensures Consistent(old(View())) && verdict.Accepted? ==> old(job) == None && job == Some(request) && !old(busy)
    {
      notify := false;
      if runtime == None || worker == None {
        verdict := Refused(NotReady);
      } else if stopping {
        verdict := Refused(ShuttingDown);
      } else if busy {
        verdict := Refused(Busy);
      } else {
        busy := true;
        job := Some(request);
        notify := true;
        verdict := Accepted;
      }
    }

    /** The first section of `Initialize`. */
    method CheckUninitialized() returns (result: Option<InitializeResult>)
      ensures result.Some? <==> Initialized(View())
      ensures result.Some? ==> !result.value.ok
    {
      if runtime != None || worker != None {
        return Some(InitializeResult(false, "LiteLlm is already initialized"));
      }
      return None;
    }

    /** The second section of `Initialize`; starting the thread may throw. */
    method InstallRuntime(created: nat, thread: Option<nat>) returns (started: bool)
      modifies this
      ensures View() == Install(old(View()), created, thread)
      ensures Consistent(old(View())) ==> Consistent(View())
      ensures started <==> thread.Some?
    {
      runtime := Some(created);
      stopping := false;
      if thread == None {
        return false;
      }
      worker := thread;
      return true;
    }

    /** The section of either exception handler of `Initialize`. */
    method AbandonRuntime()
      modifies this
      ensures View() == DropRuntime(old(View()))
      ensures Consistent(old(View())) ==> Consistent(View())
    {
      runtime := None;
    }

    /** The first section of `Shutdown`; `moved` is the thread to join, absent on the early return. */
    method BeginShutdown() returns (moved: Option<nat>, notify: bool)
      modifies this
      ensures moved == old(worker) && notify == moved.Some?
      ensures View() == if moved.Some? then BeginStop(old(View())) else ResetIdle(old(View()))
      ensures Consistent(old(View())) ==> Consistent(View())
    {
      if worker == None {
        runtime := None;
        stopping := false;
        busy := false;
        job := None;
        return None, false;
      }
      stopping := true;
      notify := true;
      moved, worker := worker, None;
    }

    /** The last section of `Shutdown`. */
    method FinishShutdown()
      modifies this
      ensures View() == FinishStop(old(View()))
      ensures Consistent(old(View())) ==> Consistent(View())
    {
      runtime := None;
      job := None;
      stopping := false;
      busy := false;
    }

    /** One evaluation of the worker's wait: block, leave, or take the job. */
    method TakeJob() returns (awake: bool, taken: Option<Job>)
      modifies this
      ensures awake == Awake(old(View())) && taken == old(job)
      ensures View() == if taken.Some? then Take(old(View())) else old(View())
      ensures Consistent(old(View())) ==> Consistent(View())
    {
      awake := stopping || job != None;
      taken := job;
      if taken != None {
        job := None;
      }
    }

    method ClearBusyFlag()
      modifies this
      ensures View() == ClearBusy(old(View()))
    {
      busy := false;
    }

    method ShouldLeave() returns (leave: bool)
      ensures leave == Leaves(View())
    {
      leave := stopping && job == None;
    }
  }
}
