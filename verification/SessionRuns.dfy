/** The reverse client on top of the facade: every interleaving of its own thread, the callbacks of its requests,
    and whatever else happens to the facade. */
module SessionRuns {
  import opened ByteStrings
  import opened Messages
  import opened Session
  import opened FacadeCalls
  import Facade
  import F = FacadeRuns

  // ---- States ----

  /** A chat request, from the moment it is counted. The callback runs from `Entered` to `Returned`. */
  datatype RequestPc =
    | Bodiless
    | Counted
    | Issued(call: nat)
    | Entered(call: nat, response: GenerateResponse)
    | Sending(call: nat, response: GenerateResponse)
    | Failed(call: nat)
    | Marked(call: nat)
    | Leaving(call: nat)
    | Notifying(call: nat)
    | Returned(call: nat)

  datatype Request = Request(session: nat, id: bytes, body: bytes, pc: RequestPc)

  /** The thread that runs `Run`; a request it handles is known by its index. */
  datatype ClientPc =
    | Disconnected
    | Starting
    | Receiving
    | Delivering(r: nat)
    | InGenerate(r: nat)
    | Closing
    | CloseBlocked
    | CloseChecking
    | Closed

  /** A chat_response or error frame that was sent for request `r`. */
  datatype Answer = Answer(r: nat, payload: bytes)

  /** `owner` maps calls of the facade to the requests they were made for. */
  datatype State = State(
    facade: F.State, sessions: seq<Session>, client: ClientPc, requests: seq<Request>, owner: map<nat, nat>, sent: seq<Answer>)

  const START := State(F.START, [], Disconnected, [], map[], [])

  // ---- Steps ----

  /** `ok` tells whether the frame was sent; `Outside` is any step of the facade that is not the client's own call. */
  datatype Step =
    | Outside(step: F.Step)
    | Connect
    | Ready(ok: bool)
    | Receive(payload: bytes, ok: bool)
    | Hangup
    | ClientCall(woken: Option<nat>)
    | ClientReturn
    | BeginClose
    | CheckClose
    | WakeClose
    | CloseDescriptor
    | TestClosing(r: nat)
    | Send(r: nat, ok: bool)
    | MarkClosing(r: nat)
    | Cut(r: nat)
    | Finish(r: nat)
    | NotifyAll(r: nat)

  function BeginningCall(f: F.State, step: F.Step): Option<nat> {
    if step.RefusalBegin? then Some(step.id)
    else if step.CallbackBegin? && step.t < |f.workers| && f.workers[step.t].Calling? then Some(f.workers[step.t].job.id)
    else None
  }

  function EndingCall(f: F.State, step: F.Step): Option<nat> {
    if step.RefusalEnd? then Some(step.id)
    else if step.CallbackEnd? && step.t < |f.workers| && f.workers[step.t].InCallback? then Some(f.workers[step.t].job.id)
    else None
  }

  /** The callback of the call is the body of this request's completion callback. */
  predicate Owned(s: State, call: Option<nat>) { call.Some? && call.value in s.owner && s.owner[call.value] < |s.requests| }

  function RequestOf(s: State, call: Option<nat>): nat
    requires Owned(s, call)
  {
    s.owner[call.value]
  }

  function Last(s: State): nat { if s.sessions == [] then 0 else |s.sessions| - 1 }

  predicate Live(s: State) { s.sessions != [] }

  predicate InRange(s: State, r: nat) { r < |s.requests| && s.requests[r].session < |s.sessions| }

  ghost predicate Enabled(s: State, step: Step) {
    match step
    case Outside(f) =>
      && F.Enabled(s.facade, f)
      && (Owned(s, EndingCall(s.facade, f)) ==> s.requests[RequestOf(s, EndingCall(s.facade, f))].pc.Returned?)
    case Connect => s.client.Disconnected?
    case Ready(_) => s.client.Starting? && Live(s)
    case Receive(_, _) => s.client.Receiving? && Live(s)
    case Hangup => s.client.Receiving?
    case ClientCall(woken) =>
      && s.client.Delivering? && s.client.r < |s.requests|
      && F.Enabled(s.facade, F.Call(s.requests[s.client.r].body, woken))
    case ClientReturn =>
      && s.client.InGenerate? && s.client.r < |s.requests|
      && HasCall(s.requests[s.client.r].pc)
      && s.requests[s.client.r].pc.call !in s.facade.refusing && s.requests[s.client.r].pc.call !in s.facade.refused
    case BeginClose => s.client.Closing? && Live(s)
    case CheckClose => s.client.CloseChecking? && Live(s)
    case WakeClose => s.client.CloseBlocked?
    case CloseDescriptor => s.client.Closed? && Live(s)
    case TestClosing(r) => InRange(s, r) && s.requests[r].pc.Entered?
    case Send(r, _) => InRange(s, r) && s.requests[r].pc.Sending?
    case MarkClosing(r) => InRange(s, r) && s.requests[r].pc.Failed?
    case Cut(r) => InRange(s, r) && s.requests[r].pc.Marked?
    case Finish(r) => InRange(s, r) && s.requests[r].pc.Leaving?
    case NotifyAll(r) => InRange(s, r) && s.requests[r].pc.Notifying?
  }

  function Move(s: State, r: nat, pc: RequestPc): State
    requires r < |s.requests|
  {
    s.(requests := s.requests[r := s.requests[r].(pc := pc)])
  }

  function SetSession(s: State, k: nat, session: Session): State
    requires k < |s.sessions|
  {
    s.(sessions := s.sessions[k := session])
  }

  function ChatResponse(id: bytes, response: GenerateResponse): bytes {
    BuildChatResponse(id, response.statusCode, Ascii("application/json; charset=utf-8"), response.body)
  }

  function NoBody(id: bytes): bytes { BuildError(id, 400, Ascii("chat request has no body")) }

  /** A facade step; when it begins the callback of one of the client's requests, that request enters its callback. */
  function ApplyOutside(s: State, f: F.Step): State
    requires F.Enabled(s.facade, f)
  {
    var moved := s.(facade := F.Apply(s.facade, f));
    var call := BeginningCall(s.facade, f);
    if Owned(s, call) && Begins(s.facade, f, call.value)
    then Move(moved, RequestOf(s, call), Entered(call.value, Given(s.facade, f, call.value)))
    else moved
  }

  function ApplyReceive(s: State, payload: bytes, ok: bool): State
    requires Live(s)
  {
    var k := Last(s);
    match React(payload)
    case AnswerPing => if ok then s else s.(client := Closing)
    case Ignore => s
    case Reject => s.(client := Closing)
    case AnswerNoBody(id) =>
      var received := s.(requests := s.requests + [Request(k, id, [], Bodiless)]);
      if ok then received.(sent := s.sent + [Answer(|s.requests|, NoBody(id))]) else received.(client := Closing)
    case Chat(id, body) =>
      var (session, counted) := CountRequest(s.sessions[k]);
      if counted then
        SetSession(s, k, session).(requests := s.requests + [Request(k, id, body, Counted)], client := Delivering(|s.requests|))
      else s.(client := Closing)
  }

  function Apply(s: State, step: Step): State
    requires Enabled(s, step)
  {
    match step
    case Outside(f) => ApplyOutside(s, f)
    case Connect => s.(sessions := s.sessions + [FRESH], client := Starting)
    case Ready(ok) => s.(client := if ok then Receiving else Closed)
    case Receive(payload, ok) => ApplyReceive(s, payload, ok)
    case Hangup => s.(client := Closing)
    case ClientCall(woken) =>
      var r, call := s.client.r, |s.facade.requests|;
      Move(s, r, Issued(call)).(facade := F.Apply(s.facade, F.Call(s.requests[r].body, woken)), owner := s.owner[call := r],
                                client := InGenerate(r))
    case ClientReturn => s.(client := Receiving)
    case BeginClose =>
      var session := s.sessions[Last(s)];
      SetSession(s, Last(s), Mark(session)).(client := if session.pending == 0 then Closed else CloseBlocked)
    case CheckClose => s.(client := if s.sessions[Last(s)].pending == 0 then Closed else CloseBlocked)
    case WakeClose => s.(client := CloseChecking)
    case CloseDescriptor => SetSession(s, Last(s), s.sessions[Last(s)].(open := false)).(client := Disconnected)
    case TestClosing(r) =>
      var pc := s.requests[r].pc;
      Move(s, r, if s.sessions[s.requests[r].session].closing then Leaving(pc.call) else Sending(pc.call, pc.response))
    case Send(r, ok) =>
      var pc := s.requests[r].pc;
      if ok then Move(s, r, Leaving(pc.call)).(sent := s.sent + [Answer(r, ChatResponse(s.requests[r].id, pc.response))])
      else Move(s, r, Failed(pc.call))
    case MarkClosing(r) =>
      var k := s.requests[r].session;
      SetSession(Move(s, r, Marked(s.requests[r].pc.call)), k, Mark(s.sessions[k]))
    case Cut(r) => Move(s, r, Leaving(s.requests[r].pc.call))
    case Finish(r) =>
      var k := s.requests[r].session;
      SetSession(Move(s, r, Notifying(s.requests[r].pc.call)), k, Uncount(s.sessions[k]))
    case NotifyAll(r) =>
      var moved := Move(s, r, Returned(s.requests[r].pc.call));
      if s.client.CloseBlocked? && s.requests[r].session == Last(s) then moved.(client := CloseChecking) else moved
  }

  ghost predicate IsRun(run: seq<Step>, s: State, end: State)
    decreases |run|
  {
    if run == [] then s == end
    else Enabled(s, run[0]) && IsRun(run[1..], Apply(s, run[0]), end)
  }

  ghost predicate Reachable(s: State) { exists run :: IsRun(run, START, s) }

  // ---- The counter ----

  /** Counted, and its callback has not yet passed the decrement. */
  predicate Pending(pc: RequestPc) { !pc.Bodiless? && !pc.Notifying? && !pc.Returned? }

  predicate PendingIn(request: Request, k: nat) { request.session == k && Pending(request.pc) }

  function CountPending(requests: seq<Request>, k: nat): nat {
    if requests == [] then 0
    else CountPending(requests[..|requests| - 1], k) + if PendingIn(requests[|requests| - 1], k) then 1 else 0
  }

  /** `pending_callbacks` is the number of chat requests counted whose callback has not passed the decrement. */
  predicate Counter(s: State, k: nat) { k < |s.sessions| ==> s.sessions[k].pending == CountPending(s.requests, k) }

  /** Only the current session is open or has callbacks to wait for. */
  predicate OldSession(s: State, k: nat) {
    k < |s.sessions| ==> (k < Last(s) || s.client.Disconnected? ==> s.sessions[k].pending == 0)
  }

  predicate Descriptor(s: State, k: nat) { k < |s.sessions| ==> (s.sessions[k].open <==> k == Last(s) && !s.client.Disconnected?) }

  predicate Client(s: State) {
    && (!s.client.Disconnected? ==> Live(s))
    && (s.client.Starting? || s.client.Closed? ==> Live(s) && s.sessions[Last(s)].pending == 0)
    && (s.client.CloseBlocked? || s.client.CloseChecking? ==> s.sessions[Last(s)].closing)
    && (s.client.Delivering? ==> InRange(s, s.client.r) && s.requests[s.client.r].pc.Counted? && s.requests[s.client.r].session == Last(s))
    && (s.client.InGenerate? ==> InRange(s, s.client.r) && HasCall(s.requests[s.client.r].pc))
  }

  predicate HasCall(pc: RequestPc) { !pc.Bodiless? && !pc.Counted? }

  /** The request and the call of the facade made for it agree on where the callback stands. */
  predicate Agrees(s: State, r: nat) {
    r < |s.requests| ==>
      var request := s.requests[r];
      && request.session < |s.sessions|
      && (request.pc.Counted? ==> s.client == Delivering(r))
      && (HasCall(request.pc) ==>
            && request.pc.call in s.owner && s.owner[request.pc.call] == r
            && request.pc.call < |s.facade.requests| && s.facade.requests[request.pc.call] == request.body
            && match CallStatus(s.facade, request.pc.call)
               case Unknown => false
               case Waiting => request.pc.Issued?
               case Running => !request.pc.Issued?
               case Done => request.pc.Returned?)
  }

  predicate Owners(s: State) { forall c :: c in s.owner ==> Owns(s, c) }

  predicate Owns(s: State, c: nat) {
    c in s.owner && s.owner[c] < |s.requests| && HasCall(s.requests[s.owner[c]].pc) && s.requests[s.owner[c]].pc.call == c
  }

  predicate NotifyingIn(s: State, k: nat, r: nat) {
    r < |s.requests| && s.requests[r].session == k && s.requests[r].pc.Notifying?
  }

  /** A client that waits for the last callback has one that is about to notify it. */
  ghost predicate Notified(s: State) {
    s.client.CloseBlocked? && s.sessions != [] && s.sessions[Last(s)].pending == 0 ==> exists r: nat :: NotifyingIn(s, Last(s), r)
  }

  ghost predicate Inv(s: State) {
    && F.Inv(s.facade) && Client(s) && Owners(s) && Notified(s)
    && (forall k: nat :: Counter(s, k)) && (forall k: nat :: OldSession(s, k)) && (forall k: nat :: Descriptor(s, k))
    && (forall r: nat :: Agrees(s, r))
  }

  // ---- Counting ----

  lemma {:induction false} CountUpdate(requests: seq<Request>, r: nat, request: Request, k: nat)
    requires r < |requests|
    ensures CountPending(requests[r := request], k)
         == CountPending(requests, k) - (if PendingIn(requests[r], k) then 1 else 0) + (if PendingIn(request, k) then 1 else 0)
    decreases |requests|
  {
    hide PendingIn;
    var n, after := |requests| - 1, requests[r := request];
    if r == n {
      assert after[..n] == requests[..n];
    } else {
      CountUpdate(requests[..n], r, request, k);
      assert after[..n] == requests[..n][r := request];
    }
  }

  lemma CountAppend(requests: seq<Request>, request: Request, k: nat)
    ensures CountPending(requests + [request], k) == CountPending(requests, k) + if PendingIn(request, k) then 1 else 0
  {
    assert (requests + [request])[..|requests|] == requests;
  }

  lemma {:induction false} CountsOne(requests: seq<Request>, r: nat)
    requires r < |requests| && Pending(requests[r].pc)
    ensures CountPending(requests, requests[r].session) >= 1
    decreases |requests|
  {
    if r < |requests| - 1 { CountsOne(requests[..|requests| - 1], r); }
  }

  lemma {:induction false} CountsNone(requests: seq<Request>, k: nat)
    requires forall r :: 0 <= r < |requests| ==> requests[r].session != k
    ensures CountPending(requests, k) == 0
    decreases |requests|
  {
    if requests != [] { CountsNone(requests[..|requests| - 1], k); }
  }

  // ---- The invariant is kept ----

  /** A callback that begins belongs to a request that was waiting for it. */
  lemma BeginsIssued(s: State, f: F.Step)
    requires Inv(s) && F.Enabled(s.facade, f) && Owned(s, BeginningCall(s.facade, f))
    ensures var call := BeginningCall(s.facade, f);
            && Begins(s.facade, f, call.value) && RequestOf(s, call) < |s.requests|
            && s.requests[RequestOf(s, call)].pc == Issued(call.value)
  {
    hide F.Inv, F.Apply, Counter, OldSession, Descriptor, Client, CallStatus;
    var call := BeginningCall(s.facade, f).value;
    assert Owns(s, call);
    assert Agrees(s, s.owner[call]);
    CallStatusStep(s.facade, f, call);
  }

  /** The steps of a completion callback. */
  predicate OfCallback(step: Step) {
    step.TestClosing? || step.Send? || step.MarkClosing? || step.Cut? || step.Finish? || step.NotifyAll?
  }

  lemma CounterKept(s: State, step: Step, k: nat)
    requires Inv(s) && Enabled(s, step)
    ensures Counter(Apply(s, step), k)
  {
    hide F.Inv, F.Apply, F.Enabled, OldSession, Descriptor, Counter, Client, Owners, Notified, Agrees;
    assert Counter(s, k);
    if step.Outside? { CounterKeptOutside(s, step.step, k); }
    else if OfCallback(step) { CounterKeptByCallback(s, step, k); }
    else { CounterKeptByClient(s, step, k); }
  }

  lemma CounterKeptOutside(s: State, f: F.Step, k: nat)
    requires Inv(s) && Enabled(s, Outside(f))
    ensures Counter(Apply(s, Outside(f)), k)
  {
    hide F.Inv, F.Apply, F.Enabled, OldSession, Descriptor, CountPending, Begins, Given, BeginningCall, EndingCall, Client, Owners, Notified;
    assert Counter(s, k);
    if Owned(s, BeginningCall(s.facade, f)) {
      BeginsIssued(s, f);
      var r := RequestOf(s, BeginningCall(s.facade, f));
      CountUpdate(s.requests, r, Apply(s, Outside(f)).requests[r], k);
    }
  }

  lemma CounterKeptByCallback(s: State, step: Step, k: nat)
    requires Counter(s, k) && Enabled(s, step) && OfCallback(step)
    ensures Counter(Apply(s, step), k)
  {
    hide F.Apply, F.Enabled, Begins, Given, BeginningCall, EndingCall, React, NoBody, ChatResponse, CountRequest, CountPending;
    CountUpdate(s.requests, step.r, Apply(s, step).requests[step.r], k);
  }

  lemma CounterKeptByClient(s: State, step: Step, k: nat)
    requires Inv(s) && Enabled(s, step) && !step.Outside? && !OfCallback(step)
    ensures Counter(Apply(s, step), k)
  {
    hide F.Inv, F.Apply, F.Enabled, OldSession, Descriptor, CountPending, React, ChatResponse, NoBody, Owners, Notified;
    assert Counter(s, k);
    match step
    case Connect => FreshCount(s, k);
    case Receive(payload, ok) =>
      if |Apply(s, step).requests| > |s.requests| {
        CountAppend(s.requests, Apply(s, step).requests[|s.requests|], k);
      }
    case ClientCall(_) => CountUpdate(s.requests, s.client.r, Apply(s, step).requests[s.client.r], k);
    case _ =>
  }

  lemma FreshCount(s: State, k: nat)
    requires Inv(s)
    ensures k == |s.sessions| ==> CountPending(s.requests, k) == 0
  {
    hide F.Inv, OldSession, Descriptor, Counter;
    if k == |s.sessions| {
      forall r | 0 <= r < |s.requests| ensures s.requests[r].session != k { assert Agrees(s, r); }
      CountsNone(s.requests, k);
    }
  }

  lemma SessionsKept(s: State, step: Step, k: nat)
    requires Inv(s) && Enabled(s, step)
    ensures OldSession(Apply(s, step), k) && Descriptor(Apply(s, step), k)
  {
    hide F.Inv, F.Apply, F.Enabled, CountPending, Begins, Given, BeginningCall, EndingCall, React, ChatResponse, NoBody, Owners, Notified;
    assert Counter(s, k) && OldSession(s, k) && Descriptor(s, k) && Counter(s, Last(s));
    if step.Finish? { CountsOne(s.requests, step.r); assert Counter(s, s.requests[step.r].session); }
  }

  lemma ClientKept(s: State, step: Step)
    requires Inv(s) && Enabled(s, step)
    ensures Client(Apply(s, step))
  {
    hide F.Inv, Client, Owners, Notified, Counter, OldSession, Descriptor, Agrees, F.Apply, F.Enabled;
    if step.Outside? { ClientKeptOutside(s, step.step); }
    else if OfCallback(step) { ClientKeptByCallback(s, step); }
    else { ClientKeptByClient(s, step); }
  }

  lemma ClientKeptOutside(s: State, f: F.Step)
    requires Inv(s) && Enabled(s, Outside(f))
    ensures Client(Apply(s, Outside(f)))
  {
    hide F.Inv, F.Apply, F.Enabled, CountPending, Begins, Given, BeginningCall, EndingCall, Owners, Notified, Counter, OldSession, Descriptor;
    if Owned(s, BeginningCall(s.facade, f)) { BeginsIssued(s, f); }
  }

  /** What a callback step leaves alone. */
  lemma CallbackMoves(s: State, step: Step)
    requires Enabled(s, step) && OfCallback(step)
    ensures var next, r := Apply(s, step), step.r;
            && |next.requests| == |s.requests| && |next.sessions| == |s.sessions|
            && next.requests[r].session == s.requests[r].session && HasCall(next.requests[r].pc)
            && (forall q: nat :: q < |s.requests| && q != r ==> next.requests[q] == s.requests[q])
            && (next.client == s.client || (s.client.CloseBlocked? && next.client.CloseChecking?))
            && (forall k: nat :: k < |s.sessions| ==>
                  && (s.sessions[k].closing ==> next.sessions[k].closing)
                  && (next.sessions[k].pending == s.sessions[k].pending || (step.Finish? && k == s.requests[r].session)))
  {
    hide F.Apply, F.Enabled, Begins, Given, BeginningCall, EndingCall, React, NoBody, ChatResponse, CountRequest;
  }

  lemma ClientKeptByCallback(s: State, step: Step)
    requires Inv(s) && Enabled(s, step) && OfCallback(step)
    ensures Client(Apply(s, step))
  {
    hide F.Inv, CountPending, Owners, Notified, OldSession, Descriptor, Agrees, Apply;
    CallbackMoves(s, step);
    assert Counter(s, Last(s));
    if step.Finish? { CountsOne(s.requests, step.r); assert Counter(s, s.requests[step.r].session); }
  }

  lemma ClientKeptByClient(s: State, step: Step)
    requires Inv(s) && Enabled(s, step) && !step.Outside? && !OfCallback(step)
    ensures Client(Apply(s, step))
  {
    hide F.Inv, F.Apply, F.Enabled, CountPending, React, NoBody, Owners, Notified, OldSession, Descriptor, Agrees;
    assert Counter(s, Last(s));
  }

  lemma OwnersKept(s: State, step: Step)
    requires Inv(s) && Enabled(s, step)
    ensures Owners(Apply(s, step))
  {
    hide F.Inv, F.Apply, F.Enabled, CountPending, Begins, Given, BeginningCall, EndingCall, React, ChatResponse, NoBody, Notified;
    if step.Outside? && Owned(s, BeginningCall(s.facade, step.step)) { BeginsIssued(s, step.step); }
  }

  lemma NotifiedKept(s: State, step: Step)
    requires Inv(s) && Enabled(s, step)
    ensures Notified(Apply(s, step))
  {
    hide F.Inv, F.Apply, F.Enabled, CountPending, Begins, Given, BeginningCall, EndingCall, React, ChatResponse, NoBody, Owners;
    if step.Outside? && Owned(s, BeginningCall(s.facade, step.step)) { BeginsIssued(s, step.step); }
    if step.Finish? { assert NotifyingIn(Apply(s, step), s.requests[step.r].session, step.r); }
    if r: nat :| NotifyingIn(s, Last(s), r) { assert step == NotifyAll(r) || NotifyingIn(Apply(s, step), Last(s), r); }
  }

  lemma AgreesKept(s: State, step: Step, r: nat)
    requires Inv(s) && Enabled(s, step)
    ensures Agrees(Apply(s, step), r)
  {
    hide F.Inv, F.Apply, F.Enabled, Client, Owners, Agrees, Notified, CountPending, CallStatus;
    if step.Outside? { AgreesKeptOutside(s, step.step, r); }
    else if OfCallback(step) { AgreesKeptByCallback(s, step, r); }
    else if step.ClientCall? { AgreesKeptByCall(s, step.woken, r); }
    else { AgreesKeptByClient(s, step, r); }
  }

  lemma RequestsGrow(f: F.State, step: F.Step)
    requires F.Enabled(f, step)
    ensures f.requests <= F.Apply(f, step).requests
    ensures step.Call? ==> F.Apply(f, step).requests == f.requests + [step.request]
  {
    hide Facade.RefusalResponse, F.Respond;
  }

  lemma AgreesKeptOutside(s: State, f: F.Step, r: nat)
    requires Inv(s) && Enabled(s, Outside(f))
    ensures Agrees(Apply(s, Outside(f)), r)
  {
    hide F.Inv, F.Apply, F.Enabled, CountPending, Given, Client, Owners, Notified, CallStatus, OldSession, Descriptor, Counter;
    assert Agrees(s, r);
    RequestsGrow(s.facade, f);
    if Owned(s, BeginningCall(s.facade, f)) { BeginsIssued(s, f); }
    if r < |s.requests| && HasCall(s.requests[r].pc) { CallStatusStep(s.facade, f, s.requests[r].pc.call); }
  }

  lemma AgreesKeptByCallback(s: State, step: Step, r: nat)
    requires Agrees(s, r) && Enabled(s, step) && OfCallback(step) && Agrees(s, step.r)
    ensures Agrees(Apply(s, step), r)
  {
    hide F.Apply, F.Enabled, Begins, Given, BeginningCall, EndingCall, React, NoBody, ChatResponse, CountRequest, CallStatus;
  }

  lemma AgreesKeptByCall(s: State, woken: Option<nat>, r: nat)
    requires Inv(s) && Enabled(s, ClientCall(woken))
    ensures Agrees(Apply(s, ClientCall(woken)), r)
  {
    hide F.Inv, F.Apply, F.Enabled, CountPending, Given, Owners, Notified, CallStatus, OldSession, Descriptor, Counter, Begins, Ends;
    assert Agrees(s, r) && Agrees(s, s.client.r);
    var call := F.Call(s.requests[s.client.r].body, woken);
    RequestsGrow(s.facade, call);
    NewCallWaits(s.facade, s.requests[s.client.r].body, woken);
    if r < |s.requests| && HasCall(s.requests[r].pc) { OldCallStays(s.facade, call, s.requests[r].pc.call); }
  }

  lemma NewCallWaits(f: F.State, request: bytes, woken: Option<nat>)
    requires F.Inv(f) && F.Enabled(f, F.Call(request, woken))
    ensures CallStatus(F.Apply(f, F.Call(request, woken)), |f.requests|).Waiting?
  {
    hide F.Inv, F.Apply, F.Enabled, CallStatus;
    CallStatusStep(f, F.Call(request, woken), |f.requests|);
  }

  lemma OldCallStays(f: F.State, call: F.Step, c: nat)
    requires F.Inv(f) && call.Call? && F.Enabled(f, call) && c < |f.requests|
    ensures CallStatus(F.Apply(f, call), c) == CallStatus(f, c)
  {
    hide F.Inv, F.Apply, F.Enabled, CallStatus;
    CallStatusStep(f, call, c);
  }

  lemma AgreesKeptByClient(s: State, step: Step, r: nat)
    requires Inv(s) && Enabled(s, step) && !step.Outside? && !OfCallback(step) && !step.ClientCall?
    ensures Agrees(Apply(s, step), r)
  {
    hide F.Inv, F.Apply, F.Enabled, CountPending, Given, Owners, Notified, CallStatus, OldSession, Descriptor, Counter, React, NoBody;
    assert Agrees(s, r);
  }

  // ---- Answers ----

  function Answers(sent: seq<Answer>, r: nat): nat {
    if sent == [] then 0 else Answers(sent[..|sent| - 1], r) + if sent[|sent| - 1].r == r then 1 else 0
  }

  lemma AnswersExtend(sent: seq<Answer>, a: Answer, r: nat)
    ensures Answers(sent + [a], r) == Answers(sent, r) + if a.r == r then 1 else 0
  {
    assert (sent + [a])[..|sent|] == sent;
  }

  /** A request is answered at most once, and only past the point where its frame is sent; the response in hand is the facade's. */
  ghost predicate AnsweredOnce(s: State, r: nat) {
    if r >= |s.requests| then Answers(s.sent, r) == 0
    else
      var pc := s.requests[r].pc;
      && Answers(s.sent, r) <= (if pc.Bodiless? || pc.Leaving? || pc.Notifying? || pc.Returned? then 1 else 0)
      && (pc.Entered? || pc.Sending? ==> Delivered(s.facade, pc.call, pc.response))
  }

  /** The frame answers the request with this response, which the facade produced for its call. */
  ghost predicate AnswersWith(s: State, a: Answer, response: GenerateResponse) {
    && a.r < |s.requests| && HasCall(s.requests[a.r].pc)
    && Delivered(s.facade, s.requests[a.r].pc.call, response) && a.payload == ChatResponse(s.requests[a.r].id, response)
  }

  /** The frame carries the request's identifier and what the facade produced for the request's body. */
  ghost predicate RightPayload(s: State, a: Answer) {
    && a.r < |s.requests|
    && if s.requests[a.r].pc.Bodiless? then a.payload == NoBody(s.requests[a.r].id) else exists response :: AnswersWith(s, a, response)
  }

  ghost predicate AnswersHold(s: State) {
    (forall r: nat :: AnsweredOnce(s, r)) && (forall i :: 0 <= i < |s.sent| ==> RightPayload(s, s.sent[i]))
  }

  lemma AnsweredOnceKept(s: State, step: Step, r: nat)
    requires Inv(s) && AnswersHold(s) && Enabled(s, step)
    ensures AnsweredOnce(Apply(s, step), r)
  {
    hide F.Inv, F.Apply, F.Enabled, Client, Owners, Agrees, Notified, CountPending, CallStatus, OldSession, Descriptor, Counter;
    assert AnsweredOnce(s, r);
    if step.Outside? { AnsweredOnceOutside(s, step.step, r); }
    else if step.ClientCall? { AnsweredOnceByCall(s, step.woken, r); }
    else { AnsweredOnceOtherwise(s, step, r); }
  }

  lemma AnsweredOnceOutside(s: State, f: F.Step, r: nat)
    requires Inv(s) && AnsweredOnce(s, r) && Enabled(s, Outside(f))
    ensures AnsweredOnce(Apply(s, Outside(f)), r)
  {
    hide F.Inv, F.Apply, F.Enabled, CountPending, Given, Client, Owners, Notified, CallStatus, OldSession, Descriptor, Counter;
    hide Answers, Begins, Ends, Delivered;
    if Owned(s, BeginningCall(s.facade, f)) {
      BeginsIssued(s, f);
      var call := BeginningCall(s.facade, f).value;
      DeliveredStays(s.facade, f, call, Given(s.facade, f, call));
    }
    if r < |s.requests| && (s.requests[r].pc.Entered? || s.requests[r].pc.Sending?) {
      DeliveredStays(s.facade, f, s.requests[r].pc.call, s.requests[r].pc.response);
    }
  }

  lemma AnsweredOnceByCall(s: State, woken: Option<nat>, r: nat)
    requires Inv(s) && AnsweredOnce(s, r) && Enabled(s, ClientCall(woken))
    ensures AnsweredOnce(Apply(s, ClientCall(woken)), r)
  {
    hide F.Inv, F.Apply, F.Enabled, CountPending, Given, Owners, Notified, CallStatus, OldSession, Descriptor, Counter;
    hide Answers, Delivered;
    if r < |s.requests| && (s.requests[r].pc.Entered? || s.requests[r].pc.Sending?) {
      DeliveredStays(s.facade, F.Call(s.requests[s.client.r].body, woken), s.requests[r].pc.call, s.requests[r].pc.response);
    }
  }

  lemma AnsweredOnceOtherwise(s: State, step: Step, r: nat)
    requires AnsweredOnce(s, r) && Enabled(s, step) && !step.Outside? && !step.ClientCall?
    requires AnsweredOnce(s, |s.requests|)
    ensures AnsweredOnce(Apply(s, step), r)
  {
    hide F.Inv, F.Apply, F.Enabled, CallStatus, Answers, Delivered, React, NoBody, ChatResponse;
    if |Apply(s, step).sent| > |s.sent| {
      AnswersExtend(s.sent, Apply(s, step).sent[|s.sent|], r);
    }
  }

  /** A request keeps what it was made of, and its call. */
  predicate Continues(before: Request, after: Request) {
    && after.id == before.id && after.body == before.body && after.session == before.session
    && (after.pc.Bodiless? <==> before.pc.Bodiless?)
    && (HasCall(before.pc) ==> HasCall(after.pc) && after.pc.call == before.pc.call)
    && (before.pc.Returned? ==> after.pc.Returned?)
  }

  lemma RequestStays(s: State, step: Step, r: nat)
    requires Inv(s) && Enabled(s, step) && r < |s.requests|
    ensures r < |Apply(s, step).requests| && Continues(s.requests[r], Apply(s, step).requests[r])
  {
    hide F.Inv, F.Apply, F.Enabled, Owners, Notified, CountPending, CallStatus, OldSession, Descriptor, Counter;
    hide Begins, Ends, Given, React, NoBody, ChatResponse, BeginningCall, EndingCall;
    if step.Outside? && Owned(s, BeginningCall(s.facade, step.step)) { BeginsIssued(s, step.step); }
  }

  lemma FacadeStays(s: State, step: Step, c: nat, response: GenerateResponse)
    requires Enabled(s, step)
    ensures Delivered(s.facade, c, response) ==> Delivered(Apply(s, step).facade, c, response)
  {
    hide F.Apply, F.Enabled, Delivered, React, NoBody, ChatResponse, Begins, Given, CountRequest;
    match step
    case Outside(f) => DeliveredStays(s.facade, f, c, response);
    case ClientCall(woken) => DeliveredStays(s.facade, F.Call(s.requests[s.client.r].body, woken), c, response);
    case _ =>
  }

  lemma RightPayloadKept(s: State, step: Step, i: nat)
    requires Inv(s) && AnswersHold(s) && Enabled(s, step) && i < |Apply(s, step).sent|
    ensures RightPayload(Apply(s, step), Apply(s, step).sent[i])
  {
    hide Inv, AnswersHold, Apply, Enabled, RightPayload;
    if i < |s.sent| { RightPayloadStays(s, step, i); } else { RightPayloadNew(s, step); }
  }

  lemma RightPayloadStays(s: State, step: Step, i: nat)
    requires Inv(s) && AnswersHold(s) && Enabled(s, step) && i < |s.sent|
    ensures i < |Apply(s, step).sent| && Apply(s, step).sent[i] == s.sent[i]
    ensures RightPayload(Apply(s, step), s.sent[i])
  {
    hide Inv, F.Apply, F.Enabled, AnsweredOnce, Delivered, Apply, Enabled, ChatResponse;
    SentGrows(s, step);
    var a := s.sent[i];
    assert RightPayload(s, a);
    RequestStays(s, step, a.r);
    if !s.requests[a.r].pc.Bodiless? {
      var response :| AnswersWith(s, a, response);
      FacadeStays(s, step, s.requests[a.r].pc.call, response);
      assert AnswersWith(Apply(s, step), a, response);
    }
  }

  lemma SentGrows(s: State, step: Step)
    requires Enabled(s, step)
    ensures s.sent <= Apply(s, step).sent
  {
    hide F.Apply, F.Enabled, React, NoBody, ChatResponse, Begins, Given, CountRequest;
  }

  lemma RightPayloadNew(s: State, step: Step)
    requires Inv(s) && AnswersHold(s) && Enabled(s, step) && |s.sent| < |Apply(s, step).sent|
    ensures |Apply(s, step).sent| == |s.sent| + 1 && RightPayload(Apply(s, step), Apply(s, step).sent[|s.sent|])
  {
    hide F.Inv, F.Apply, F.Enabled, Client, Owners, Agrees, Notified, CountPending, CallStatus, OldSession, Descriptor, Counter, Delivered, Answers;
    hide React, NoBody, ChatResponse, Begins, Ends, Given;
    if step.Send? {
      var pc := s.requests[step.r].pc;
      assert AnsweredOnce(s, step.r);
      assert AnswersWith(Apply(s, step), Apply(s, step).sent[|s.sent|], pc.response);
    }
  }
}
