/** What the reverse client promises in every reachable state of client and facade together, and over whole runs. */
module SessionTheorems {
  import opened ByteStrings
  import opened Messages
  import opened Session
  import opened FacadeCalls
  import opened SessionRuns
  import Facade
  import F = FacadeRuns
  import T = FacadeTheorems
  import JsonSpec
  import RoundTrip

  /** A refused call runs its callback inside `GenerateAsync`, on the client's own thread. */
  predicate RefusedInside(s: State, r: nat) {
    r < |s.requests| && HasCall(s.requests[r].pc) && F.IsRefused(s.facade, s.requests[r].pc.call) && !s.requests[r].pc.Returned?
    ==> s.client == InGenerate(r)
  }

  predicate Over(pc: RequestPc) { pc.Leaving? || pc.Notifying? || pc.Returned? }

  /** A request is left without an answer only in a session that is closing. */
  predicate LeftOnlyWhenClosing(s: State, r: nat) {
    InRange(s, r) && (s.requests[r].pc.Marked? || (Over(s.requests[r].pc) && Answers(s.sent, r) == 0))
    ==> s.sessions[s.requests[r].session].closing
  }

  ghost predicate Holds(s: State) {
    Inv(s) && AnswersHold(s) && (forall r: nat :: RefusedInside(s, r)) && forall r: nat :: LeftOnlyWhenClosing(s, r)
  }

  // ---- The invariant over runs ----

  lemma InvKept(s: State, step: Step)
    requires Inv(s) && Enabled(s, step)
    ensures Inv(Apply(s, step))
  {
    hide Apply, Enabled, F.Inv, Client, Owners, Notified, Counter, OldSession, Descriptor, Agrees;
    FacadeKept(s, step);
    ClientKept(s, step);
    OwnersKept(s, step);
    NotifiedKept(s, step);
    forall k: nat ensures Counter(Apply(s, step), k) { CounterKept(s, step, k); }
    forall k: nat ensures OldSession(Apply(s, step), k) { SessionsKept(s, step, k); }
    forall k: nat ensures Descriptor(Apply(s, step), k) { SessionsKept(s, step, k); }
    forall r: nat ensures Agrees(Apply(s, step), r) { AgreesKept(s, step, r); }
  }

  lemma FacadeKept(s: State, step: Step)
    requires F.Inv(s.facade) && Enabled(s, step)
    ensures F.Inv(Apply(s, step).facade)
  {
    hide F.Inv, F.Apply, F.Enabled, React, NoBody, ChatResponse, Begins, Given, CountRequest;
    match step
    case Outside(f) => F.InvKept(s.facade, f);
    case ClientCall(woken) => F.InvKept(s.facade, F.Call(s.requests[s.client.r].body, woken));
    case _ =>
  }

  /** A refused call is being refused, or is over. */
  lemma RefusedWaits(f: F.State, c: nat)
    requires F.Inv(f) && F.IsRefused(f, c)
    ensures CallStatus(f, c).Waiting? ==> c in f.refusing
    ensures CallStatus(f, c).Running? ==> c in f.refused
  {
    hide F.Invocations, F.Threads, F.Admission, F.Order, F.Deliveries;
    assert F.Counted(f, c);
  }

  lemma VerdictKept(s: State, step: Step)
    requires Enabled(s, step)
    ensures s.facade.verdicts <= Apply(s, step).facade.verdicts
  {
    hide F.Apply, F.Enabled, React, NoBody, ChatResponse, Begins, Given, CountRequest;
    match step
    case Outside(f) => T.VerdictStays(s.facade, f);
    case ClientCall(woken) => T.VerdictStays(s.facade, F.Call(s.requests[s.client.r].body, woken));
    case _ =>
  }

  /** A call keeps its verdict. */
  lemma StillRefused(s: State, step: Step, c: nat)
    requires F.Inv(s.facade) && Enabled(s, step) && c < |s.facade.requests|
    ensures F.IsRefused(Apply(s, step).facade, c) <==> F.IsRefused(s.facade, c)
  {
    hide Apply, Enabled, F.Threads, F.Admission, F.Order, F.Jobs, F.Refusals, F.Deliveries, F.Begun;
    VerdictKept(s, step);
  }

  lemma RefusedInsideKept(s: State, step: Step, r: nat)
    requires Holds(s) && Enabled(s, step)
    ensures RefusedInside(Apply(s, step), r)
  {
    hide F.Inv, F.Apply, F.Enabled, F.IsRefused, AnswersHold, Owners, Notified, CountPending, CallStatus, OldSession, Descriptor, Counter;
    hide Begins, Ends, Given, React, NoBody, ChatResponse, BeginningCall, EndingCall;
    assert RefusedInside(s, r) && Agrees(s, r);
    if step.Outside? && Owned(s, BeginningCall(s.facade, step.step)) { BeginsIssued(s, step.step); }
    if r < |s.requests| {
      RequestStays(s, step, r);
      if HasCall(s.requests[r].pc) {
        var c := s.requests[r].pc.call;
        StillRefused(s, step, c);
        if F.IsRefused(s.facade, c) { RefusedWaits(s.facade, c); }
      }
    }
  }

  /** A session that is closing stays so, and sessions stay. */
  lemma ClosingStays(s: State, step: Step, k: nat)
    requires Enabled(s, step) && k < |s.sessions|
    ensures k < |Apply(s, step).sessions| && (s.sessions[k].closing ==> Apply(s, step).sessions[k].closing)
  {
    hide F.Apply, F.Enabled, React, NoBody, ChatResponse, Begins, Given, BeginningCall, EndingCall;
  }

  lemma LeftOnlyWhenClosingKept(s: State, step: Step, r: nat)
    requires Holds(s) && Enabled(s, step)
    ensures LeftOnlyWhenClosing(Apply(s, step), r)
  {
    hide Holds, Enabled, Apply, LeftOnlyWhenClosing;
    if OfCallback(step) { LeftOnlyKeptByCallback(s, step, r); } else { LeftOnlyKeptByOthers(s, step, r); }
  }

  lemma LeftOnlyKeptByCallback(s: State, step: Step, r: nat)
    requires Holds(s) && Enabled(s, step) && OfCallback(step)
    ensures LeftOnlyWhenClosing(Apply(s, step), r)
  {
    hide F.Inv, F.Apply, F.Enabled, Owners, Notified, CountPending, CallStatus, OldSession, Descriptor, Counter, AnsweredOnce, RightPayload, RefusedInside;
    hide Begins, Ends, Given, React, NoBody, ChatResponse, BeginningCall, EndingCall, Answers, Client;
    hide Inv;
    assert LeftOnlyWhenClosing(s, r);
    if |Apply(s, step).sent| > |s.sent| { AnswersExtend(s.sent, Apply(s, step).sent[|s.sent|], r); }
    if InRange(s, r) { ClosingStays(s, step, s.requests[r].session); }
  }

  lemma LeftOnlyKeptByOthers(s: State, step: Step, r: nat)
    requires Holds(s) && Enabled(s, step) && !OfCallback(step)
    ensures LeftOnlyWhenClosing(Apply(s, step), r)
  {
    hide F.Inv, F.Apply, F.Enabled, Owners, Notified, CountPending, CallStatus, OldSession, Descriptor, Counter, AnsweredOnce, RightPayload, RefusedInside;
    hide Begins, Ends, Given, React, NoBody, ChatResponse, BeginningCall, EndingCall, Answers, Client;
    assert LeftOnlyWhenClosing(s, r) && Agrees(s, r);
    if step.Outside? && Owned(s, BeginningCall(s.facade, step.step)) { BeginsIssued(s, step.step); }
    if |Apply(s, step).sent| > |s.sent| { AnswersExtend(s.sent, Apply(s, step).sent[|s.sent|], r); }
    if InRange(s, r) { ClosingStays(s, step, s.requests[r].session); }
  }

  lemma HoldsKept(s: State, step: Step)
    requires Holds(s) && Enabled(s, step)
    ensures Holds(Apply(s, step))
  {
    hide Apply, Enabled, Inv, AnsweredOnce, RightPayload, RefusedInside, LeftOnlyWhenClosing;
    InvKept(s, step);
    forall r: nat ensures AnsweredOnce(Apply(s, step), r) { AnsweredOnceKept(s, step, r); }
    forall i | 0 <= i < |Apply(s, step).sent| ensures RightPayload(Apply(s, step), Apply(s, step).sent[i]) {
      RightPayloadKept(s, step, i);
    }
    forall r: nat ensures RefusedInside(Apply(s, step), r) { RefusedInsideKept(s, step, r); }
    forall r: nat ensures LeftOnlyWhenClosing(Apply(s, step), r) { LeftOnlyWhenClosingKept(s, step, r); }
  }

  lemma StartHolds()
    ensures Holds(START)
  {
    hide F.Inv;
    F.StartHolds();
    forall k: nat ensures Counter(START, k) && OldSession(START, k) && Descriptor(START, k) {}
    forall r: nat ensures Agrees(START, r) && AnsweredOnce(START, r) && RefusedInside(START, r) && LeftOnlyWhenClosing(START, r) {}
  }

  lemma {:induction false} RunKeeps(run: seq<Step>, s: State, end: State)
    requires Holds(s) && IsRun(run, s, end)
    ensures Holds(end)
    decreases |run|
  {
    hide Apply, Enabled, Holds;
    if run != [] {
      HoldsKept(s, run[0]);
      RunKeeps(run[1..], Apply(s, run[0]), end);
    }
  }

  lemma ReachableHolds(s: State)
    requires Reachable(s)
    ensures Holds(s)
  {
    hide Holds, IsRun;
    var run :| IsRun(run, START, s);
    StartHolds();
    RunKeeps(run, START, s);
  }

  // ---- The counter and the descriptor ----

  /** `pending_callbacks` of every session is the number of its requests between the increment and the decrement;
      the decrement never meets zero, and `CloseSession` returns, like every other end of a session, only at zero. */
  lemma CounterIsExact(s: State, k: nat, r: nat)
    requires Reachable(s) && k < |s.sessions|
    ensures s.sessions[k].pending == CountPending(s.requests, k) >= 0
    ensures InRange(s, r) && s.requests[r].pc.Leaving? ==> s.sessions[s.requests[r].session].pending >= 1
    ensures s.client.Closed? || s.client.Disconnected? ==> s.sessions[Last(s)].pending == 0
  {
    hide Reachable, F.Inv, Owners, Notified, AnswersHold, CountPending, OldSession, Descriptor, Agrees;
    ReachableHolds(s);
    assert Counter(s, k) && Counter(s, Last(s));
    if InRange(s, r) && s.requests[r].pc.Leaving? {
      CountsOne(s.requests, r);
      assert Counter(s, s.requests[r].session);
    }
    if s.client.Disconnected? { assert OldSession(s, Last(s)) by { hide Counter; } OldSessionIsZero(s); }
  }

  lemma OldSessionIsZero(s: State)
    requires OldSession(s, Last(s)) && s.client.Disconnected? && s.sessions != []
    ensures s.sessions[Last(s)].pending == 0
  {
  }

  lemma PendingIsOpen(s: State, k: nat)
    requires k < |s.sessions| && CountPending(s.requests, k) >= 1 && Counter(s, k) && OldSession(s, k) && Descriptor(s, k)
    ensures s.sessions[k].open
  {
    hide CountPending;
  }

  lemma ClientIsOpen(s: State)
    requires Inv(s)
    ensures s.client.Starting? || s.client.Receiving? ==> Live(s) && s.sessions[Last(s)].open
  {
    hide F.Inv, Owners, Notified, CountPending, Agrees, Counter, OldSession;
    assert Descriptor(s, Last(s));
  }

  /** No callback sends on, or shuts down, a descriptor that `Run` has closed; nor does the client itself. */
  lemma DescriptorIsOpen(s: State, r: nat)
    requires Reachable(s)
    ensures InRange(s, r) && Pending(s.requests[r].pc) ==> s.sessions[s.requests[r].session].open
    ensures InRange(s, r) && (s.requests[r].pc.Sending? || s.requests[r].pc.Marked?) ==> s.sessions[s.requests[r].session].open
    ensures s.client.Starting? || s.client.Receiving? ==> Live(s) && s.sessions[Last(s)].open
  {
    hide Reachable, F.Inv, Client, Owners, Notified, AnswersHold, CountPending, Agrees, Counter, OldSession, Descriptor, RefusedInside, LeftOnlyWhenClosing;
    ReachableHolds(s);
    if InRange(s, r) && Pending(s.requests[r].pc) {
      var k := s.requests[r].session;
      CountsOne(s.requests, r);
      assert Counter(s, k) && OldSession(s, k) && Descriptor(s, k);
      PendingIsOpen(s, k);
    }
    ClientIsOpen(s);
  }

  lemma NotifyWakes(s: State, r: nat)
    requires s.client.CloseBlocked? && InRange(s, r) && NotifyingIn(s, Last(s), r)
    ensures Enabled(s, NotifyAll(r)) && Apply(s, NotifyAll(r)).client.CloseChecking?
  {
  }

  /** A `CloseSession` that is blocked at zero has a callback that is about to notify it. */
  lemma NoLostNotification(s: State)
    requires Reachable(s) && s.client.CloseBlocked? && Live(s) && s.sessions[Last(s)].pending == 0
    ensures exists r: nat :: Enabled(s, NotifyAll(r)) && Apply(s, NotifyAll(r)).client.CloseChecking?
  {
    hide Reachable, F.Inv, Owners, AnswersHold, Counter, OldSession, Descriptor, RefusedInside, CallStatus, F.Apply, F.Enabled, CountPending;
    ReachableHolds(s);
    var r: nat :| NotifyingIn(s, Last(s), r);
    assert Agrees(s, r);
    NotifyWakes(s, r);
  }

  // ---- Correlation ----

  predicate Asks(request: Request, k: nat, id: bytes) { request.session == k && request.id == id }

  /** Frames sent in session `k` that answer requests with this identifier, among the first `m` requests. */
  function AnswersFor(sent: seq<Answer>, requests: seq<Request>, m: nat, k: nat, id: bytes): nat
    requires m <= |requests|
  {
    if sent == [] then 0
    else
      var a := sent[|sent| - 1];
      AnswersFor(sent[..|sent| - 1], requests, m, k, id) + if a.r < m && Asks(requests[a.r], k, id) then 1 else 0
  }

  /** Chat requests received in session `k` with this identifier, among the first `m`. */
  function RequestsFor(requests: seq<Request>, m: nat, k: nat, id: bytes): nat
    requires m <= |requests|
  {
    if m == 0 then 0 else RequestsFor(requests, m - 1, k, id) + if Asks(requests[m - 1], k, id) then 1 else 0
  }

  lemma {:induction false} AnswersForNext(sent: seq<Answer>, requests: seq<Request>, m: nat, k: nat, id: bytes)
    requires m < |requests|
    ensures AnswersFor(sent, requests, m + 1, k, id)
         == AnswersFor(sent, requests, m, k, id) + if Asks(requests[m], k, id) then Answers(sent, m) else 0
    decreases |sent|
  {
    hide Asks;
    if sent != [] { AnswersForNext(sent[..|sent| - 1], requests, m, k, id); }
  }

  lemma {:induction false} AnswersForNone(sent: seq<Answer>, requests: seq<Request>, k: nat, id: bytes)
    ensures AnswersFor(sent, requests, 0, k, id) == 0
    decreases |sent|
  {
    if sent != [] { AnswersForNone(sent[..|sent| - 1], requests, k, id); }
  }

  lemma {:induction false} AtMostAsMany(sent: seq<Answer>, requests: seq<Request>, m: nat, k: nat, id: bytes)
    requires m <= |requests| && forall r: nat :: r < |requests| ==> Answers(sent, r) <= 1
    ensures AnswersFor(sent, requests, m, k, id) <= RequestsFor(requests, m, k, id)
    decreases m
  {
    if m == 0 {
      AnswersForNone(sent, requests, k, id);
    } else {
      AtMostAsMany(sent, requests, m - 1, k, id);
      AnswersForNext(sent, requests, m - 1, k, id);
    }
  }

  /** In every session and for every identifier, chat_response and error frames never outnumber the chat requests received;
      in particular nothing is sent for an identifier not received. */
  lemma ResponseCorrelation(s: State, k: nat, id: bytes)
    requires Reachable(s)
    ensures AnswersFor(s.sent, s.requests, |s.requests|, k, id) <= RequestsFor(s.requests, |s.requests|, k, id)
    ensures forall i :: 0 <= i < |s.sent| ==> s.sent[i].r < |s.requests|
  {
    hide Reachable, Inv, Answers, AnswersFor, RequestsFor, RefusedInside;
    ReachableHolds(s);
    forall r: nat | r < |s.requests| ensures Answers(s.sent, r) <= 1 { assert AnsweredOnce(s, r); }
    AtMostAsMany(s.sent, s.requests, |s.requests|, k, id);
    forall i | 0 <= i < |s.sent| ensures s.sent[i].r < |s.requests| { assert RightPayload(s, s.sent[i]); }
  }

  /** Every chat_response carries its request's identifier and the response the facade gave the call made with the request's body. */
  lemma ResponseIsTheFacades(s: State, i: nat)
    requires Reachable(s) && i < |s.sent| && s.sent[i].r < |s.requests| && !s.requests[s.sent[i].r].pc.Bodiless?
    ensures var request := s.requests[s.sent[i].r];
            exists call: nat, response ::
              && call < |s.facade.requests| && s.facade.requests[call] == request.body && call in s.owner && s.owner[call] == s.sent[i].r
              && Delivered(s.facade, call, response) && s.sent[i].payload == ChatResponse(request.id, response)
  {
    hide Reachable, F.Inv, Owners, Client, Counter, OldSession, Descriptor, AnsweredOnce, RefusedInside, Delivered, ChatResponse, CallStatus;
    ReachableHolds(s);
    var a := s.sent[i];
    assert RightPayload(s, a);
    var response :| AnswersWith(s, a, response);
    assert Agrees(s, a.r);
    var call := s.requests[a.r].pc.call;
    assert call < |s.facade.requests| && s.facade.requests[call] == s.requests[a.r].body && call in s.owner && s.owner[call] == a.r
        && Delivered(s.facade, call, response) && a.payload == ChatResponse(s.requests[a.r].id, response);
  }

  /** In a session that is not closing, every chat request whose callback is over has been answered, exactly once. */
  lemma AnsweredUnlessClosing(s: State, r: nat)
    requires Reachable(s) && InRange(s, r) && Over(s.requests[r].pc)
    ensures Answers(s.sent, r) == 1 || (Answers(s.sent, r) == 0 && s.sessions[s.requests[r].session].closing)
  {
    hide Reachable, Inv, Answers, RefusedInside, RightPayload, Delivered;
    ReachableHolds(s);
    assert AnsweredOnce(s, r) && LeftOnlyWhenClosing(s, r);
  }

  /** Closing is final for a callback that has not yet looked at the flag: its request is never answered. */
  predicate Silent(s: State, r: nat) {
    && InRange(s, r) && s.sessions[s.requests[r].session].closing && Answers(s.sent, r) == 0
    && (s.requests[r].pc.Counted? || s.requests[r].pc.Issued? || s.requests[r].pc.Entered? || Over(s.requests[r].pc))
  }

  lemma SilentStays(s: State, step: Step, r: nat)
    requires Inv(s) && Enabled(s, step) && Silent(s, r)
    ensures Silent(Apply(s, step), r)
  {
    hide F.Inv, F.Apply, F.Enabled, Owners, Notified, CountPending, CallStatus, OldSession, Descriptor, Counter;
    hide Begins, Ends, Given, React, NoBody, ChatResponse, BeginningCall, EndingCall, Answers;
    if step.Outside? && Owned(s, BeginningCall(s.facade, step.step)) { BeginsIssued(s, step.step); }
    if |Apply(s, step).sent| > |s.sent| { AnswersExtend(s.sent, Apply(s, step).sent[|s.sent|], r); }
    ClosingStays(s, step, s.requests[r].session);
  }

  lemma {:induction false} ClosingSilences(run: seq<Step>, s: State, end: State, r: nat)
    requires Inv(s) && IsRun(run, s, end) && Silent(s, r)
    ensures Silent(end, r)
    decreases |run|
  {
    hide Apply, Enabled, Inv, Silent;
    if run != [] {
      InvKept(s, run[0]);
      SilentStays(s, run[0], r);
      ClosingSilences(run[1..], Apply(s, run[0]), end, r);
    }
  }

  /** What the proxy reads from such a frame: the request's identifier, and the facade's status and body. */
  lemma AnswerParses(s: State, i: nat)
    requires Reachable(s) && i < |s.sent| && s.sent[i].r < |s.requests| && !s.requests[s.sent[i].r].pc.Bodiless?
    ensures var request, frame := s.requests[s.sent[i].r], JsonSpec.ReadText(s.sent[i].payload);
            && frame.Got? && RoundTrip.HasText(frame.value, "type", Ascii("chat_response")) && RoundTrip.HasText(frame.value, "id", request.id)
            && RoundTrip.HasText(frame.value, "content_type", Ascii("application/json; charset=utf-8"))
            && exists call: nat, response ::
                 && call in s.owner && s.owner[call] == s.sent[i].r && Delivered(s.facade, call, response)
                 && RoundTrip.HasInt(frame.value, "status", response.statusCode) && RoundTrip.HasText(frame.value, "body", response.body)
  {
    hide Reachable, Delivered, JsonSpec.ReadText, RoundTrip.HasText, RoundTrip.HasInt, BuildChatResponse;
    ResponseIsTheFacades(s, i);
    var request := s.requests[s.sent[i].r];
    var call: nat, response :|
      && call < |s.facade.requests| && s.facade.requests[call] == request.body && call in s.owner && s.owner[call] == s.sent[i].r
      && Delivered(s.facade, call, response) && s.sent[i].payload == ChatResponse(request.id, response);
    RoundTrip.ParseChatResponse(request.id, response.statusCode, Ascii("application/json; charset=utf-8"), response.body);
  }

  /** A chat request without a body is answered with an error frame that says so, for its own identifier. */
  lemma BodilessAnswerParses(s: State, i: nat)
    requires Reachable(s) && i < |s.sent| && s.sent[i].r < |s.requests| && s.requests[s.sent[i].r].pc.Bodiless?
    ensures var request, frame := s.requests[s.sent[i].r], JsonSpec.ReadText(s.sent[i].payload);
            && frame.Got? && RoundTrip.HasText(frame.value, "type", Ascii("error")) && RoundTrip.HasText(frame.value, "id", request.id)
            && RoundTrip.HasInt(frame.value, "status", 400)
            && RoundTrip.HasText(frame.value, "message", Ascii("chat request has no body"))
  {
    hide Reachable, Inv, AnsweredOnce, RefusedInside, LeftOnlyWhenClosing, JsonSpec.ReadText, RoundTrip.HasText, RoundTrip.HasInt, BuildError;
    ReachableHolds(s);
    assert RightPayload(s, s.sent[i]);
    RoundTrip.ParseError(s.requests[s.sent[i].r].id, 400, Ascii("chat request has no body"));
  }

  // ---- Closing terminates ----

  function CallbackRank(pc: RequestPc): nat {
    match pc
    case Entered(_, _) => 6
    case Sending(_, _) => 5
    case Failed(_) => 4
    case Marked(_) => 3
    case Leaving(_) => 2
    case Notifying(_) => 1
    case _ => 0
  }

  /** What is left of the request's callback that the facade's worker runs now. */
  function WorkerCallback(s: State): nat {
    var call := RunningCall(s.facade);
    if Owned(s, call) then CallbackRank(s.requests[RequestOf(s, call)].pc) else 0
  }

  /** A step of the worker thread, inside the facade or inside the callback it runs. */
  predicate OfService(s: State, step: Step) {
    || (step.Outside? && F.OfWorker(step.step))
    || (OfCallback(step) && step.r < |s.requests| && HasCall(s.requests[step.r].pc)
        && RunningCall(s.facade) == Some(s.requests[step.r].pc.call))
  }

  /** Service steps until the callback of the request has returned. */
  function ServiceRank(s: State, r: nat): nat
    requires r < |s.requests| && HasCall(s.requests[r].pc)
  {
    7 * T.Distance(s.facade, s.requests[r].pc.call) + WorkerCallback(s)
  }

  /** The request is accepted and its callback has not returned. */
  predicate InService(s: State, r: nat) {
    && r < |s.requests| && HasCall(s.requests[r].pc) && s.requests[r].pc.call < |s.facade.verdicts|
    && s.facade.verdicts[s.requests[r].pc.call].Accepted? && T.Distance(s.facade, s.requests[r].pc.call) > 0
  }

  /** A facade step moves no request that is past waiting for its callback. */
  lemma OutsideMovesIssued(s: State, f: F.Step)
    requires Inv(s) && Enabled(s, Outside(f))
    ensures var next := Apply(s, Outside(f));
            && next.facade == F.Apply(s.facade, f) && next.owner == s.owner && |next.requests| == |s.requests|
            && forall r: nat :: r < |s.requests| && !s.requests[r].pc.Issued? ==> next.requests[r] == s.requests[r]
  {
    hide F.Inv, F.Apply, F.Enabled, Client, Notified, Counter, OldSession, Descriptor, CallStatus, Given, Begins, Ends, Agrees, Owners;
    if Owned(s, BeginningCall(s.facade, f)) { BeginsIssued(s, f); }
  }

  /** The request whose callback the worker runs is past waiting. */
  lemma RunningIsEntered(s: State)
    requires Inv(s) && Owned(s, RunningCall(s.facade))
    ensures !s.requests[RequestOf(s, RunningCall(s.facade))].pc.Issued?
  {
    hide F.Inv, Client, Notified, Counter, OldSession, Descriptor, CallStatus, RunningCall;
    var running := RunningCall(s.facade);
    RunningIsRunning(s.facade, running.value);
    assert Agrees(s, RequestOf(s, running)) && Owns(s, running.value);
  }

  lemma SessionThreads(s: State)
    requires Inv(s)
    ensures F.Threads(s.facade)
  {
    hide F.Inv;
    ThreadsHold(s.facade);
  }

  lemma RankAtMostSix(pc: RequestPc)
    ensures CallbackRank(pc) <= 6
  {
  }

  /** A facade step leaves the worker's callback where it is, unless it begins it. */
  lemma WorkerCallbackOutside(s: State, f: F.Step)
    requires Inv(s) && Enabled(s, Outside(f))
    ensures WorkerCallback(Apply(s, Outside(f))) <= if f.CallbackBegin? then WorkerCallback(s) + 6 else WorkerCallback(s)
  {
    hide Inv, F.Apply, F.Enabled, RunningCall, CallbackRank, Apply;
    SessionThreads(s);
    RunningCallStep(s.facade, f);
    OutsideMovesIssued(s, f);
    var next := Apply(s, Outside(f));
    if Owned(s, RunningCall(s.facade)) { RunningIsEntered(s); }
    if Owned(next, RunningCall(next.facade)) { RankAtMostSix(next.requests[RequestOf(next, RunningCall(next.facade))].pc); }
  }

  lemma ThreadsHold(f: F.State)
    requires F.Inv(f)
    ensures F.Threads(f)
  {
    hide F.Threads;
  }

  lemma WorkerCallbackByCall(s: State, woken: Option<nat>)
    requires Inv(s) && Enabled(s, ClientCall(woken))
    ensures WorkerCallback(Apply(s, ClientCall(woken))) == WorkerCallback(s)
  {
    hide F.Inv, F.Apply, F.Enabled, Notified, Counter, OldSession, Descriptor, CallStatus, Given, RunningCall;
    ThreadsHold(s.facade);
    RunningCallStep(s.facade, F.Call(s.requests[s.client.r].body, woken));
    var running := RunningCall(s.facade);
    RunningIsOld(s);
    if Owned(s, running) {
      assert Owns(s, running.value);
    }
  }

  lemma RunningIsOld(s: State)
    requires Inv(s)
    ensures RunningCall(s.facade).Some? ==> RunningCall(s.facade).value < |s.facade.requests|
  {
    hide F.Threads, F.Admission, F.Order, F.Refusals, F.Deliveries, F.Begun;
  }

  /** A callback step moves its own request towards the return, and nothing else. */
  lemma CallbackStep(s: State, step: Step)
    requires Enabled(s, step) && OfCallback(step)
    ensures var next := Apply(s, step);
            && next.facade == s.facade && next.owner == s.owner && |next.requests| == |s.requests|
            && CallbackRank(next.requests[step.r].pc) < CallbackRank(s.requests[step.r].pc)
            && forall q: nat :: q < |s.requests| && q != step.r ==> next.requests[q] == s.requests[q]
  {
    hide F.Apply, F.Enabled, Begins, Given, BeginningCall, EndingCall, React, NoBody, ChatResponse, CountRequest;
  }

  /** Requests and calls point at each other. */
  lemma CallbackOwner(s: State, r: nat)
    requires Inv(s) && r < |s.requests| && HasCall(s.requests[r].pc)
    ensures s.requests[r].pc.call in s.owner && s.owner[s.requests[r].pc.call] == r
  {
    hide F.Inv, Client, Owners, Notified, Counter, OldSession, Descriptor, CallStatus;
    assert Agrees(s, r);
  }

  lemma RunningOwner(s: State)
    requires Inv(s) && Owned(s, RunningCall(s.facade))
    ensures var running := RunningCall(s.facade); var r := RequestOf(s, running);
            HasCall(s.requests[r].pc) && s.requests[r].pc.call == running.value
  {
    hide F.Inv, Client, Agrees, Notified, Counter, OldSession, Descriptor, RunningCall;
    assert Owns(s, RunningCall(s.facade).value);
  }

  /** A callback step lowers what is left of the worker's callback, or is another callback's. */
  lemma WorkerCallbackByCallback(s: State, step: Step)
    requires Inv(s) && Enabled(s, step) && OfCallback(step)
    ensures var after := WorkerCallback(Apply(s, step));
            if OfService(s, step) then after < WorkerCallback(s) else after == WorkerCallback(s)
  {
    hide Inv, RunningCall, Apply, CallbackRank, F.Apply, F.Enabled;
    assert step.r < |s.requests| && HasCall(s.requests[step.r].pc);
    CallbackOwner(s, step.r);
    CallbackStep(s, step);
    if Owned(s, RunningCall(s.facade)) { RunningOwner(s); }
  }

  lemma ServiceFalls(s: State, step: Step, r: nat)
    requires Inv(s) && Enabled(s, step) && InService(s, r)
    ensures r < |Apply(s, step).requests| && HasCall(Apply(s, step).requests[r].pc)
    ensures Apply(s, step).requests[r].pc.call == s.requests[r].pc.call
    ensures var after := ServiceRank(Apply(s, step), r);
            if OfService(s, step) then after < ServiceRank(s, r) else after <= ServiceRank(s, r)
  {
    hide Inv, Enabled, Apply, T.Distance, WorkerCallback, F.OfWorker, RunningCall;
    RequestStays(s, step, r);
    DistanceMoves(s, step, s.requests[r].pc.call);
    WorkerCallbackMoves(s, step);
    BeginIsWorkers(step);
  }

  lemma BeginIsWorkers(step: Step)
    ensures step.Outside? && step.step.CallbackBegin? ==> F.OfWorker(step.step)
  {
  }

  lemma DistanceMoves(s: State, step: Step, call: nat)
    requires Inv(s) && Enabled(s, step)
    requires call < |s.facade.verdicts| && s.facade.verdicts[call].Accepted? && T.Distance(s.facade, call) > 0
    ensures var after := T.Distance(Apply(s, step).facade, call);
            if step.Outside? && F.OfWorker(step.step) then after < T.Distance(s.facade, call) else after <= T.Distance(s.facade, call)
  {
    hide Inv, F.Inv, Enabled, F.Apply, F.Enabled, T.Distance, Apply;
    FacadeStep(s, step);
    SessionFacade(s);
    match step
    case Outside(f) => T.DistanceFalls(s.facade, f, call);
    case ClientCall(woken) => T.DistanceFalls(s.facade, F.Call(s.requests[s.client.r].body, woken), call);
    case _ =>
  }

  /** Only the begin of a callback makes the worker's callback longer; its own steps make it shorter. */
  lemma WorkerCallbackMoves(s: State, step: Step)
    requires Inv(s) && Enabled(s, step)
    ensures var after := WorkerCallback(Apply(s, step));
            && (if step.Outside? && step.step.CallbackBegin? then after <= WorkerCallback(s) + 6 else after <= WorkerCallback(s))
            && (OfService(s, step) && !step.Outside? ==> after < WorkerCallback(s))
  {
    hide Inv, Enabled, Apply, WorkerCallback, F.OfWorker, RunningCall;
    match step
    case Outside(f) => WorkerCallbackOutside(s, f);
    case ClientCall(woken) => WorkerCallbackByCall(s, woken);
    case Receive(_, _) => WorkerCallbackByReceive(s, step);
    case _ => if OfCallback(step) { WorkerCallbackByCallback(s, step); } else { WorkerCallbackByOthers(s, step); }
  }

  lemma SessionFacade(s: State)
    requires Inv(s)
    ensures F.Inv(s.facade)
  {
  }

  lemma FacadeStep(s: State, step: Step)
    requires Enabled(s, step)
    ensures match step
            case Outside(f) => F.Enabled(s.facade, f) && Apply(s, step).facade == F.Apply(s.facade, f)
            case ClientCall(woken) =>
              && s.client.Delivering? && s.client.r < |s.requests| && F.Enabled(s.facade, F.Call(s.requests[s.client.r].body, woken))
              && Apply(s, step).facade == F.Apply(s.facade, F.Call(s.requests[s.client.r].body, woken))
            case _ => Apply(s, step).facade == s.facade
  {
    hide F.Apply, F.Enabled, React, NoBody, ChatResponse, BeginningCall, EndingCall, Given, Begins, Ends;
  }

  lemma WorkerCallbackByOthers(s: State, step: Step)
    requires Enabled(s, step) && !step.Outside? && !step.ClientCall? && !step.Receive? && !OfCallback(step)
    ensures WorkerCallback(Apply(s, step)) == WorkerCallback(s)
  {
    hide F.Apply, F.Enabled, RunningCall, CallbackRank, React;
  }

  lemma WorkerCallbackByReceive(s: State, step: Step)
    requires Inv(s) && Enabled(s, step) && step.Receive?
    ensures WorkerCallback(Apply(s, step)) == WorkerCallback(s)
  {
    hide WorkerCallback, Owners;
    hide F.Inv, Client, Agrees, Notified, Counter, OldSession, Descriptor, React, NoBody;
    MoreRequests(s, Apply(s, step));
  }

  lemma MoreRequests(s: State, t: State)
    requires Owners(s) && s.facade == t.facade && s.owner == t.owner && s.requests <= t.requests
    ensures WorkerCallback(t) == WorkerCallback(s)
  {
    hide RunningCall;
    var running := RunningCall(s.facade);
    assert running.Some? && running.value in s.owner ==> Owns(s, running.value);
  }

  predicate Waiting(client: ClientPc) { client.CloseBlocked? || client.CloseChecking? || client.Closed? }

  lemma {:induction false} CountWitness(requests: seq<Request>, k: nat) returns (r: nat)
    requires CountPending(requests, k) > 0
    ensures r < |requests| && PendingIn(requests[r], k)
    decreases |requests|
  {
    r := |requests| - 1;
    if !PendingIn(requests[r], k) { r := CountWitness(requests[..r], k); }
  }

  /** An accepted call that has not been called back, or is being called back, is ahead of the worker. */
  lemma AcceptedDistance(f: F.State, c: nat)
    requires F.Inv(f) && c < |f.verdicts| && f.verdicts[c].Accepted? && (CallStatus(f, c).Waiting? || CallStatus(f, c).Running?)
    ensures T.Distance(f, c) > 0
  {
    hide F.Invocations, F.Threads, F.Order, F.Deliveries;
    assert F.Counted(f, c);
  }

  /** While the client waits to close, every request it waits for is in the hands of the worker. */
  lemma PendingInService(s: State, r: nat)
    requires Holds(s) && Waiting(s.client) && r < |s.requests| && Pending(s.requests[r].pc)
    ensures InService(s, r)
  {
    hide F.Inv, AnswersHold, Owners, Notified, Counter, OldSession, Descriptor, T.Distance;
    assert Agrees(s, r) && RefusedInside(s, r);
    var call := s.requests[r].pc.call;
    assert call < |s.facade.verdicts|;
    AcceptedDistance(s.facade, call);
  }

  lemma AheadIsLive(f: F.State, c: nat)
    requires F.Inv(f) && T.Distance(f, c) > 0
    ensures F.Threads(f) && !F.Current(f).Exited? && !F.Current(f).Blocked?
  {
    hide F.Threads, F.Order, F.Ledger, F.Jobs, F.Refusals, F.Deliveries, F.Begun;
  }

  /** A worker that serves a request has a step, in the facade or in the callback it runs. */
  lemma ServiceHasStep(s: State, r: nat)
    requires Inv(s) && InService(s, r)
    ensures exists step :: Enabled(s, step) && OfService(s, step)
  {
    hide F.Inv, F.Enabled, Client, Notified, Counter, OldSession, Descriptor, CallStatus, T.Distance;
    AheadIsLive(s.facade, s.requests[r].pc.call);
    var running := RunningCall(s.facade);
    if Owned(s, running) && !s.requests[RequestOf(s, running)].pc.Returned? {
      CallbackHasStep(s, RequestOf(s, running));
    } else {
      FacadeHasStep(s);
    }
  }

  lemma CallbackHasStep(s: State, r: nat)
    requires Inv(s) && r < |s.requests| && Owned(s, RunningCall(s.facade)) && r == RequestOf(s, RunningCall(s.facade))
    requires !s.requests[r].pc.Returned?
    ensures exists step :: Enabled(s, step) && OfService(s, step)
  {
    hide F.Inv, F.Enabled, Client, Notified, Counter, OldSession, Descriptor, CallStatus;
    var running := RunningCall(s.facade).value;
    RunningIsRunning(s.facade, running);
    assert Owns(s, running) && Agrees(s, r);
    match s.requests[r].pc
    case Entered(_, _) => assert Enabled(s, TestClosing(r)) && OfService(s, TestClosing(r));
    case Sending(_, _) => assert Enabled(s, Send(r, true)) && OfService(s, Send(r, true));
    case Failed(_) => assert Enabled(s, MarkClosing(r)) && OfService(s, MarkClosing(r));
    case Marked(_) => assert Enabled(s, Cut(r)) && OfService(s, Cut(r));
    case Leaving(_) => assert Enabled(s, Finish(r)) && OfService(s, Finish(r));
    case Notifying(_) => assert Enabled(s, NotifyAll(r)) && OfService(s, NotifyAll(r));
  }

  lemma FacadeHasStep(s: State)
    requires Inv(s) && F.Threads(s.facade) && !F.Current(s.facade).Exited? && !F.Current(s.facade).Blocked?
    requires Owned(s, RunningCall(s.facade)) ==> s.requests[RequestOf(s, RunningCall(s.facade))].pc.Returned?
    ensures exists step :: Enabled(s, step) && OfService(s, step)
  {
    hide Inv;
    T.WorkerStep(s.facade);
    var f :| F.Enabled(s.facade, f) && F.OfWorker(f);
    assert Enabled(s, Outside(f)) && OfService(s, Outside(f));
  }

  /** A client that waits to close is never stuck: it can go on itself, or the worker has a step. */
  lemma CloseNeverStuck(s: State)
    requires Reachable(s) && Waiting(s.client)
    ensures Live(s) && (s.sessions[Last(s)].pending == 0 || exists step :: Enabled(s, step) && OfService(s, step))
  {
    hide Reachable, AnswersHold, F.Inv, Owners, Notified, OldSession, Descriptor, Agrees, RefusedInside, CountPending, InService, OfService, Enabled;
    ReachableHolds(s);
    assert Counter(s, Last(s));
    if s.sessions[Last(s)].pending != 0 {
      var r := CountWitness(s.requests, Last(s));
      PendingInService(s, r);
      ServiceHasStep(s, r);
    }
  }

  // ---- Closing over a run ----

  ghost function ServiceSteps(run: seq<Step>, s: State): nat {
    if run == [] || !Enabled(s, run[0]) then 0
    else (if OfService(s, run[0]) then 1 else 0) + ServiceSteps(run[1..], Apply(s, run[0]))
  }

  predicate Disconnects(run: seq<Step>) { CloseDescriptor in run }

  lemma WaitingStep(s: State, step: Step)
    requires Enabled(s, step) && Waiting(s.client) && step != CloseDescriptor
    ensures var next := Apply(s, step); Waiting(next.client) && |next.requests| == |s.requests| && |next.sessions| == |s.sessions|
  {
    hide F.Apply, F.Enabled, Begins, Given, React;
  }

  lemma {:induction false} WaitingStays(run: seq<Step>, s: State, end: State)
    requires IsRun(run, s, end) && Waiting(s.client) && !Disconnects(run)
    ensures Waiting(end.client) && |end.requests| == |s.requests| && |end.sessions| == |s.sessions|
    decreases |run|
  {
    hide Apply, Enabled, Waiting;
    if run != [] {
      WaitingStep(s, run[0]);
      WaitingStays(run[1..], Apply(s, run[0]), end);
    }
  }

  lemma DistanceStep(s: State, step: Step, c: nat)
    requires Inv(s) && Enabled(s, step) && c < |s.facade.verdicts|
    ensures T.Distance(Apply(s, step).facade, c) <= T.Distance(s.facade, c)
  {
    hide F.Inv, F.Apply, F.Enabled, Client, Owners, Agrees, Notified, Counter, OldSession, Descriptor, T.Distance, React, NoBody, Begins, Given;
    match step
    case Outside(f) => T.DistanceFalls(s.facade, f, c);
    case ClientCall(woken) => T.DistanceFalls(s.facade, F.Call(s.requests[s.client.r].body, woken), c);
    case _ =>
  }

  lemma {:induction false} ServiceBounded(run: seq<Step>, s: State, end: State, r: nat)
    requires Inv(s) && IsRun(run, s, end) && r < |s.requests| && HasCall(s.requests[r].pc)
    requires s.requests[r].pc.call < |s.facade.verdicts| && s.facade.verdicts[s.requests[r].pc.call].Accepted?
    ensures r < |end.requests| && HasCall(end.requests[r].pc) && end.requests[r].pc.call == s.requests[r].pc.call
    ensures T.Distance(end.facade, s.requests[r].pc.call) > 0 ==>
              InService(s, r) && ServiceSteps(run, s) + ServiceRank(end, r) <= ServiceRank(s, r)
    decreases |run|
  {
    hide Inv, Apply, Enabled, T.Distance, OfService, ServiceRank;
    if run != [] {
      var next := Apply(s, run[0]);
      InvKept(s, run[0]);
      VerdictKept(s, run[0]);
      RequestStays(s, run[0], r);
      ServiceBounded(run[1..], next, end, r);
      DistanceStep(s, run[0], s.requests[r].pc.call);
      if InService(s, r) { ServiceFalls(s, run[0], r); }
    }
  }

  /** Closing terminates because the facade makes progress: from the moment the client waits in `CloseSession`, the worker
      thread takes at most 62 steps before `pending_callbacks` is zero, whatever anyone else does meanwhile. */
  lemma CloseTerminates(run: seq<Step>, s: State, end: State)
    requires Reachable(s) && Waiting(s.client) && IsRun(run, s, end) && !Disconnects(run)
    ensures Live(end) && (end.sessions[Last(end)].pending == 0 || ServiceSteps(run, s) <= 62)
  {
    hide Reachable, IsRun, AnswersHold, F.Inv, Owners, Notified, OldSession, Descriptor, RefusedInside, CountPending;
    hide ServiceSteps, T.Distance, CallStatus;
    ReachableHolds(s);
    RunKeeps(run, s, end);
    WaitingStays(run, s, end);
    assert Counter(end, Last(end));
    if end.sessions[Last(end)].pending != 0 {
      var r := CountWitness(end.requests, Last(end));
      PendingInService(end, r);
      StillServed(run, s, end, r);
    }
  }

  lemma RankAtMost(s: State, r: nat)
    requires F.Inv(s.facade) && r < |s.requests| && HasCall(s.requests[r].pc)
    ensures ServiceRank(s, r) <= 69
  {
    hide F.Threads, F.Order, F.Ledger, F.Jobs, F.Refusals, F.Deliveries, F.Begun, RunningCall;
  }

  lemma StillServed(run: seq<Step>, s: State, end: State, r: nat)
    requires Reachable(s) && Waiting(s.client) && IsRun(run, s, end) && r < |s.requests| && InService(end, r)
    ensures ServiceSteps(run, s) <= 62
  {
    ReachableHolds(s);
    hide Reachable, IsRun, AnswersHold, Notified, Counter, OldSession, Descriptor, CountPending, ServiceSteps, CallStatus;
    hide F.Threads, F.Admission, F.Order, F.Jobs, F.Refusals, F.Deliveries, F.Begun;
    assert Agrees(s, r) && RefusedInside(s, r);
    RunContinues(run, s, end, r);
    VerdictsContinue(run, s, end);
    ServiceBounded(run, s, end, r);
    RankAtMost(s, r);
  }

  lemma {:induction false} RunContinues(run: seq<Step>, s: State, end: State, r: nat)
    requires Inv(s) && IsRun(run, s, end) && r < |s.requests|
    ensures r < |end.requests| && Continues(s.requests[r], end.requests[r])
    decreases |run|
  {
    hide Inv, Apply, Enabled;
    if run != [] {
      InvKept(s, run[0]);
      RequestStays(s, run[0], r);
      RunContinues(run[1..], Apply(s, run[0]), end, r);
    }
  }

  lemma {:induction false} VerdictsContinue(run: seq<Step>, s: State, end: State)
    requires IsRun(run, s, end)
    ensures s.facade.verdicts <= end.facade.verdicts
    decreases |run|
  {
    hide Apply, Enabled;
    if run != [] {
      VerdictKept(s, run[0]);
      VerdictsContinue(run[1..], Apply(s, run[0]), end);
    }
  }
}
