/** The interactive chat tool: its prompts, its history, and why the runtime may reuse a session's prefix. */
module Chat {
  import opened ByteStrings

  datatype Message = Message(role: bytes, content: bytes)

  const USER := Ascii("user")
  const ASSISTANT := Ascii("assistant")

  // ---- Prompts ----

  function Turn(m: Message): bytes {
    Ascii("<|im_start|>") + m.role + Ascii("\n") + m.content + Ascii("<|im_end|>\n")
  }

  function Turns(history: seq<Message>): bytes {
    if history == [] then [] else Turns(history[..|history| - 1]) + Turn(history[|history| - 1])
  }

  const OPEN_TURN := Ascii("<|im_start|>assistant\n")

  function Prompt(history: seq<Message>): bytes { Turns(history) + OPEN_TURN }

  method BuildQwen3Prompt(messages: seq<Message>) returns (prompt: bytes)
    ensures prompt == Prompt(messages)
  {
    prompt := [];
    for i := 0 to |messages|
      invariant prompt == Turns(messages[..i])
    {
      assert messages[..i + 1][..i] == messages[..i];
      prompt := prompt + Turn(messages[i]);
    }
    assert messages[..|messages|] == messages;
    prompt := prompt + OPEN_TURN;
  }

  // ---- Where the prompt holds what ----

  /** The bytes in front of turn `i`: the template adds 24 to every turn's role and content. */
  function Before(history: seq<Message>, i: nat): nat
    requires i <= |history|
  {
    if i == 0 then 0 else Before(history, i - 1) + |history[i - 1].role| + |history[i - 1].content| + 24
  }

  lemma {:induction false} BeforeFront(history: seq<Message>, i: nat)
    requires i < |history|
    ensures Before(history[..|history| - 1], i) == Before(history, i)
    decreases i
  {
    if i > 0 { BeforeFront(history, i - 1); }
  }

  lemma {:induction false} TurnsAt(t: bytes, history: seq<Message>, i: nat)
    requires At(t, 0, Turns(history))
    ensures |Turns(history)| == Before(history, |history|)
    ensures i < |history| ==>
              At(t, Before(history, i), Ascii("<|im_start|>") + history[i].role + Ascii("\n") + history[i].content + Ascii("<|im_end|>\n"))
    decreases |history|
  {
    hide At, Ascii;
    if history != [] {
      var n := |history| - 1;
      var front, last := history[..n], history[n];
      AtConcat(t, 0, Turns(front), Turn(last));
      TurnsAt(t, front, if i < n then i else 0);
      BeforeFront(history, n);
      if i < n { BeforeFront(history, i); }
    }
  }

  /** The prompt holds every turn, of either role, at a position computed from lengths alone, and then opens the assistant's. */
  lemma PromptHolds(history: seq<Message>, i: nat)
    ensures var prompt := Prompt(history);
            && |prompt| == Before(history, |history|) + 22
            && At(prompt, Before(history, |history|), Ascii("<|im_start|>assistant\n"))
            && (i < |history| ==>
                  At(prompt, Before(history, i), Ascii("<|im_start|>") + history[i].role + Ascii("\n") + history[i].content + Ascii("<|im_end|>\n")))
  {
    hide At, Ascii, Turns;
    var prompt := Prompt(history);
    AtEquals(prompt, 0, prompt);
    AtConcat(prompt, 0, Turns(history), OPEN_TURN);
    TurnsAt(prompt, history, i);
  }

  lemma {:induction false} TurnsPrefix(a: seq<Message>, b: seq<Message>)
    requires a <= b
    ensures Turns(a) <= Turns(b)
    decreases |b|
  {
    if |a| < |b| {
      TurnsPrefix(a, b[..|b| - 1]);
    } else {
      assert a == b;
    }
  }

  /** The prompt of a turn, followed by its answer, begins the text of every history that continues with that answer. */
  lemma AnsweredPromptBegins(history: seq<Message>, response: bytes, later: seq<Message>)
    requires history + [Message(ASSISTANT, response)] <= later
    ensures Prompt(history) + response <= Turns(later)
  {
    var answered := history + [Message(ASSISTANT, response)];
    assert answered[..|history|] == history;
    TurnsPrefix(answered, later);
    AnswerTurn(response);
    assert Turns(answered) == Turns(history) + Turn(Message(ASSISTANT, response));
    assert Prompt(history) + response + Ascii("<|im_end|>\n") == Turns(answered);
  }

  lemma AnswerTurn(response: bytes)
    ensures Turn(Message(ASSISTANT, response)) == OPEN_TURN + response + Ascii("<|im_end|>\n")
  {
    assert "<|im_start|>" + "assistant" + "\n" == "<|im_start|>assistant\n";
    assert Ascii("<|im_start|>") + ASSISTANT + Ascii("\n") == OPEN_TURN;
  }

  // ---- Reading a prompt ----

  datatype Ending = Quit | Clear | Send | Closed

  function EndingOf(line: bytes): Option<Ending> {
    if line == Ascii("/quit") then Some(Quit)
    else if line == Ascii("/clear") then Some(Clear)
    else if line == Ascii("/send") then Some(Send)
    else None
  }

  /** The commands are different lines, so their order of comparison does not matter. */
  lemma Commands(line: bytes)
    ensures line == Ascii("/quit") ==> EndingOf(line) == Some(Quit)
    ensures line == Ascii("/clear") ==> EndingOf(line) == Some(Clear)
    ensures line == Ascii("/send") ==> EndingOf(line) == Some(Send)
    ensures EndingOf(line).Some? ==> EndingOf(line).value != Closed && (line == Ascii("/quit") || line == Ascii("/clear") || line == Ascii("/send"))
  {
    if line == Ascii("/send") || line == Ascii("/clear") { assert line[1] != Ascii("/quit")[1]; }
  }

  /** The first command line at or behind `from`, or the end of the input. */
  function NextCommand(lines: seq<bytes>, from: nat): (at: nat)
    requires from <= |lines|
    ensures from <= at <= |lines| && (at < |lines| ==> EndingOf(lines[at]).Some?)
    ensures forall i :: from <= i < at ==> EndingOf(lines[i]).None?
    decreases |lines| - from
  {
    if from == |lines| || EndingOf(lines[from]).Some? then from else NextCommand(lines, from + 1)
  }

  lemma {:induction false} CommandIsNext(lines: seq<bytes>, from: nat, at: nat)
    requires from <= at <= |lines| && (forall i :: from <= i < at ==> EndingOf(lines[i]).None?)
    requires at < |lines| ==> EndingOf(lines[at]).Some?
    ensures NextCommand(lines, from) == at
    decreases at - from
  {
    if from < at { CommandIsNext(lines, from + 1, at); }
  }

  lemma JoinedNext(lines: seq<bytes>, from: nat, next: nat)
    requires from <= next < |lines|
    ensures Joined(lines[from..next + 1]) == if next == from then lines[next] else Joined(lines[from..next]) + [0x0A] + lines[next]
  {
    assert lines[from..next + 1][..next - from] == lines[from..next];
  }

  /** Reads up to the first command line, or to the end of the input. */
  method ReadPrompt(lines: seq<bytes>, from: nat) returns (prompt: bytes, hasLine: bool, ending: Ending, next: nat)
    requires from <= |lines|
    ensures var at := NextCommand(lines, from);
            && prompt == Joined(lines[from..at]) && hasLine == (at > from)
            && next == (if at == |lines| then at else at + 1)
            && ending == (if at == |lines| then Closed else EndingOf(lines[at]).value) && (ending.Closed? <==> at == |lines|)
  {
    hide Joined, EndingOf;
    prompt, hasLine, next := [], false, from;
    assert lines[from..from] == [];
    while next < |lines|
      invariant from <= next <= |lines|
      invariant prompt == Joined(lines[from..next]) && hasLine == (next > from)
      invariant forall i :: from <= i < next ==> EndingOf(lines[i]).None?
    {
      var line := lines[next];
      next := next + 1;
      if line == Ascii("/quit") {
        assert EndingOf(line) == Some(Quit) by { Commands(line); }
        CommandIsNext(lines, from, next - 1);
        return prompt, hasLine, Quit, next;
      }
      if line == Ascii("/clear") {
        assert EndingOf(line) == Some(Clear) by { Commands(line); }
        CommandIsNext(lines, from, next - 1);
        return prompt, hasLine, Clear, next;
      }
      if line == Ascii("/send") {
        assert EndingOf(line) == Some(Send) by { Commands(line); }
        CommandIsNext(lines, from, next - 1);
        return prompt, hasLine, Send, next;
      }
      Commands(line);
      JoinedNext(lines, from, next - 1);
      if hasLine {
        prompt := prompt + [0x0A];
      }
      prompt := prompt + line;
      hasLine := true;
    }
    CommandIsNext(lines, from, next);
    ending := Closed;
  }

  // ---- What the lines ask ----

  datatype Question = Question(conversation: nat, content: bytes)

  /** Every non-empty block of lines is asked, in the conversation that is open; /clear opens the next one and drops its block. */
  function Questions(lines: seq<bytes>, from: nat, conversation: nat): seq<Question>
    requires from <= |lines|
    decreases |lines| - from
  {
    var at := NextCommand(lines, from);
    var asked := if at > from then [Question(conversation, Joined(lines[from..at]))] else [];
    if at == |lines| then asked
    else
      match EndingOf(lines[at]).value
      case Quit => []
      case Clear => Questions(lines, at + 1, conversation + 1)
      case _ => asked + Questions(lines, at + 1, conversation)
  }

  /** The input ends, without /quit, behind lines that are still to be asked. */
  predicate EndsAsking(lines: seq<bytes>, from: nat)
    requires from <= |lines|
    decreases |lines| - from
  {
    var at := NextCommand(lines, from);
    if at == |lines| then at > from else EndingOf(lines[at]).value != Quit && EndsAsking(lines, at + 1)
  }

  /** What one block of lines contributes. */
  lemma OneBlock(lines: seq<bytes>, from: nat, conversation: nat)
    requires from <= |lines|
    ensures var at := NextCommand(lines, from);
            var asked := if at > from then [Question(conversation, Joined(lines[from..at]))] else [];
            && at <= |lines|
            && Questions(lines, from, conversation) ==
               (if at == |lines| then asked
                else match EndingOf(lines[at]).value
                     case Quit => []
                     case Clear => Questions(lines, at + 1, conversation + 1)
                     case _ => asked + Questions(lines, at + 1, conversation))
            && EndsAsking(lines, from) == if at == |lines| then at > from else EndingOf(lines[at]).value != Quit && EndsAsking(lines, at + 1)
  {
  }

  // ---- The conversation ----

  datatype Reply = Answered(text: bytes) | Failed

  /** One call of the runtime. */
  datatype Call = Call(session: bytes, history: seq<Message>, prompt: bytes, reply: Reply)

  function SessionId(conversation: nat): bytes { Ascii("lite-llm-chat-") + NatText(conversation) }

  lemma SessionIdInjective(a: nat, b: nat)
    requires SessionId(a) == SessionId(b)
    ensures a == b
  {
    var head := Ascii("lite-llm-chat-");
    assert NatText(a) == SessionId(a)[|head|..] && NatText(b) == SessionId(b)[|head|..];
    assert a == DigitsValue(NatText(a)) && b == DigitsValue(NatText(b));
  }

  /** User and assistant take turns, and every question is answered. */
  predicate Alternates(history: seq<Message>) {
    |history| % 2 == 0 && forall i :: 0 <= i < |history| ==> history[i].role == if i % 2 == 0 then USER else ASSISTANT
  }

  /** A call whose session is still open was answered by the present history. */
  predicate Continued(call: Call, session: bytes, history: seq<Message>) {
    call.session == session && call.reply.Answered? ==> call.history + [Message(ASSISTANT, call.reply.text)] <= history
  }

  /** A call asks with its own history: answered turns, and one question. */
  predicate Asks(call: Call) {
    && call.prompt == Prompt(call.history) && call.history != []
    && Alternates(call.history[..|call.history| - 1]) && call.history[|call.history| - 1].role == USER
  }

  /** What prefix reuse needs: the earlier prompt and its answer begin the later prompt. */
  predicate Chained(earlier: Call, later: Call) {
    earlier.session == later.session && earlier.reply.Answered? ==> earlier.prompt + earlier.reply.text <= later.prompt
  }

  function LastOf(history: seq<Message>): seq<Message> { if history == [] then [] else [history[|history| - 1]] }

  /** The answered exchanges of a session; failed calls leave no trace. */
  function Exchanges(calls: seq<Call>, session: bytes): seq<Message> {
    if calls == [] then []
    else
      var call := calls[|calls| - 1];
      var before := Exchanges(calls[..|calls| - 1], session);
      if call.session == session && call.reply.Answered? then before + LastOf(call.history) + [Message(ASSISTANT, call.reply.text)] else before
  }

  /** The i-th call asks the i-th question, after the answered exchanges of its session. */
  predicate IsTurn(calls: seq<Call>, i: nat, question: Question)
    requires i < |calls|
  {
    calls[i].session == SessionId(question.conversation) && calls[i].history == Exchanges(calls[..i], calls[i].session) + [Message(USER, question.content)]
  }

  lemma {:induction false} NoExchanges(calls: seq<Call>, conversation: nat)
    requires forall i :: 0 <= i < |calls| ==> OfConversation(calls[i], conversation)
    ensures Exchanges(calls, SessionId(conversation + 1)) == []
    decreases |calls|
  {
    hide SessionId;
    if calls != [] {
      NoExchanges(calls[..|calls| - 1], conversation);
      var n: nat :| n <= conversation && calls[|calls| - 1].session == SessionId(n);
      if SessionId(n) == SessionId(conversation + 1) { SessionIdInjective(n, conversation + 1); }
    }
  }

  ghost predicate OfConversation(call: Call, conversation: nat) { exists n: nat :: n <= conversation && call.session == SessionId(n) }

  lemma NewConversation(call: Call, conversation: nat, history: seq<Message>)
    requires OfConversation(call, conversation)
    ensures OfConversation(call, conversation + 1) && Continued(call, SessionId(conversation + 1), history)
  {
    hide SessionId;
    var n: nat :| n <= conversation && call.session == SessionId(n);
    if call.session == SessionId(conversation + 1) { SessionIdInjective(n, conversation + 1); }
  }

  lemma NewCall(earlier: Call, later: Call)
    requires Continued(earlier, later.session, later.history) && Asks(earlier) && Asks(later)
    ensures Chained(earlier, later)
  {
    if earlier.session == later.session && earlier.reply.Answered? {
      AnsweredPromptBegins(earlier.history, earlier.reply.text, later.history);
    }
  }

  lemma ContinuedGrows(call: Call, session: bytes, a: seq<Message>, b: seq<Message>)
    requires Continued(call, session, a) && a <= b
    ensures Continued(call, session, b)
  {
  }

  /** The next call continues every answered call of its session. */
  lemma NextCall(calls: seq<Call>, call: Call, history: seq<Message>, conversation: nat)
    requires Alternates(history) && |call.history| == |history| + 1 && history <= call.history
    requires call.history[|history|].role == USER
    requires call.prompt == Prompt(call.history) && call.session == SessionId(conversation)
    requires forall i :: 0 <= i < |calls| ==> Asks(calls[i]) && Continued(calls[i], call.session, history)
    ensures Asks(call) && OfConversation(call, conversation)
    ensures forall i :: 0 <= i < |calls| ==> Chained(calls[i], call) && Continued(calls[i], call.session, call.history)
  {
    hide Chained, Continued, Prompt, Alternates, SessionId;
    assert call.history[..|call.history| - 1] == history;
    forall i | 0 <= i < |calls| ensures Chained(calls[i], call) && Continued(calls[i], call.session, call.history) {
      ContinuedGrows(calls[i], call.session, history, call.history);
      NewCall(calls[i], call);
    }
  }

  lemma FailedContinues(call: Call, session: bytes, history: seq<Message>)
    requires call.reply.Failed?
    ensures Continued(call, session, history)
  {
  }

  /** An answer keeps the turns, and continues every call that the question continued. */
  lemma AnswerContinues(calls: seq<Call>, call: Call, history: seq<Message>, answered: seq<Message>)
    requires calls != [] && calls[|calls| - 1] == call && call.reply.Answered? && call.history == history
    requires answered == history + [Message(ASSISTANT, call.reply.text)]
    requires history != [] && Alternates(history[..|history| - 1]) && history[|history| - 1].role == USER
    requires forall i :: 0 <= i < |calls| - 1 ==> Continued(calls[i], call.session, history)
    ensures Alternates(answered) && forall i :: 0 <= i < |calls| ==> Continued(calls[i], call.session, answered)
  {
    forall i | 0 <= i < |calls| ensures Continued(calls[i], call.session, answered) {
      if i < |calls| - 1 { ContinuedGrows(calls[i], call.session, history, answered); }
    }
    forall i | 0 <= i < |answered| ensures answered[i].role == if i % 2 == 0 then USER else ASSISTANT {
      if i < |history| - 1 { assert answered[i] == history[..|history| - 1][i]; }
    }
  }

  /** A turn stays one when calls are added. */
  lemma TurnStays(calls: seq<Call>, more: seq<Call>, i: nat, question: Question)
    requires i < |calls| && IsTurn(calls, i, question)
    ensures i < |calls + more| && IsTurn(calls + more, i, question)
  {
    assert (calls + more)[..i] == calls[..i];
  }

  /** What holds between two prompts: the calls so far, and the history of the open conversation. */
  ghost predicate Going(calls: seq<Call>, replies: seq<Reply>, questions: seq<Question>, history: seq<Message>, conversation: nat) {
    && Alternates(history) && history == Exchanges(calls, SessionId(conversation)) && |calls| <= |questions|
    && (forall i :: 0 <= i < |calls| ==> IsTurn(calls, i, questions[i]))
    && (forall i :: 0 <= i < |calls| ==> Asks(calls[i]) && Continued(calls[i], SessionId(conversation), history) && OfConversation(calls[i], conversation))
    && (forall i :: 0 <= i < |calls| ==> calls[i].reply == ReplyAt(replies, i))
    && (forall i, j :: 0 <= i < j < |calls| ==> Chained(calls[i], calls[j]))
  }

  function ReplyAt(replies: seq<Reply>, i: nat): Reply { if i < |replies| then replies[i] else Failed }

  lemma Starts(replies: seq<Reply>, questions: seq<Question>)
    ensures Going([], replies, questions, [], 1)
  {
    NoHistory();
  }

  /** /clear forgets the history and opens the next conversation. */
  lemma Cleared(calls: seq<Call>, replies: seq<Reply>, questions: seq<Question>, history: seq<Message>, conversation: nat)
    requires Going(calls, replies, questions, history, conversation)
    ensures Going(calls, replies, questions, [], conversation + 1)
  {
    hide Asks, Chained, SessionId, IsTurn, Exchanges, OfConversation, Continued;
    forall i | 0 <= i < |calls| ensures OfConversation(calls[i], conversation + 1) && Continued(calls[i], SessionId(conversation + 1), []) {
      NewConversation(calls[i], conversation, []);
    }
    NoExchanges(calls, conversation);
    NoHistory();
  }

  /** One call: a failed one leaves the history, an answered one extends it. */
  lemma CallMade(calls: seq<Call>, call: Call, replies: seq<Reply>, questions: seq<Question>, history: seq<Message>, conversation: nat)
    requires Going(calls, replies, questions, history, conversation) && |calls| < |questions|
    requires var question := questions[|calls|];
             && question.conversation == conversation && call.session == SessionId(conversation)
             && call.history == history + [Message(USER, question.content)]
    requires call.prompt == Prompt(call.history) && call.reply == ReplyAt(replies, |calls|)
    ensures Going(calls + [call], replies, questions,
                  if call.reply.Answered? then call.history + [Message(ASSISTANT, call.reply.text)] else history, conversation)
  {
    hide Asks, Chained, SessionId, IsTurn, Exchanges, OfConversation, Continued, Prompt, Alternates;
    var more := calls + [call];
    NextCall(calls, call, history, conversation);
    TurnAdded(calls, call, questions);
    assert call.history[..|call.history| - 1] == history;
    if call.reply.Answered? {
      AnswerContinues(more, call, call.history, call.history + [Message(ASSISTANT, call.reply.text)]);
    } else {
      FailedContinues(call, call.session, history);
    }
  }

  /** The whole interactive run: which calls are made, with which sessions, histories and prompts, and how it ends.
      `replies` are the runtime's outcomes in order; a call without one fails. */
  method RunInteractive(lines: seq<bytes>, replies: seq<Reply>) returns (code: nat, calls: seq<Call>)
    ensures |calls| == |Questions(lines, 0, 1)| && forall i :: 0 <= i < |calls| ==> IsTurn(calls, i, Questions(lines, 0, 1)[i])
    ensures forall i :: 0 <= i < |calls| ==> calls[i].session == Ascii("lite-llm-chat-") + NatText(Questions(lines, 0, 1)[i].conversation)
    ensures forall i :: 0 <= i < |calls| ==> Asks(calls[i])
    ensures forall i :: 0 <= i < |calls| ==> calls[i].reply == ReplyAt(replies, i)
    ensures forall i, j :: 0 <= i < j < |calls| ==> Chained(calls[i], calls[j])
    ensures code == if EndsAsking(lines, 0) && calls != [] && calls[|calls| - 1].reply.Failed? then 5 else 0
  {
    hide Asks, Chained, SessionId, IsTurn, Exchanges, OfConversation, Continued, Questions, EndsAsking, Alternates;
    ghost var last;
    code, calls, last := Converse(lines, replies);
    forall i | 0 <= i < |calls| ensures calls[i].session == Ascii("lite-llm-chat-") + NatText(Questions(lines, 0, 1)[i].conversation) {
      TurnSession(calls, i, Questions(lines, 0, 1)[i]);
    }
  }

  lemma TurnSession(calls: seq<Call>, i: nat, question: Question)
    requires i < |calls| && IsTurn(calls, i, question)
    ensures calls[i].session == Ascii("lite-llm-chat-") + NatText(question.conversation)
  {
    hide Exchanges, Ascii, NatText;
  }

  /** The loop over the prompts. */
  method Converse(lines: seq<bytes>, replies: seq<Reply>) returns (code: nat, calls: seq<Call>, ghost last: (seq<Message>, nat))
    ensures |calls| == |Questions(lines, 0, 1)| && Going(calls, replies, Questions(lines, 0, 1), last.0, last.1)
    ensures code == if EndsAsking(lines, 0) && calls != [] && calls[|calls| - 1].reply.Failed? then 5 else 0
  {
    hide Going, SessionId, Prompt, NextCommand, Joined, EndingOf, Questions, EndsAsking;
    var history: seq<Message> := [];
    var conversation: nat := 1;
    var session := SessionId(conversation);
    calls := [];
    var next := 0;
    ghost var questions := Questions(lines, 0, 1);
    Starts(replies, questions);
    while true
      invariant next <= |lines| && session == SessionId(conversation) && Going(calls, replies, questions, history, conversation)
      invariant |calls| <= |questions| && questions[|calls|..] == Questions(lines, next, conversation)
      invariant EndsAsking(lines, 0) == EndsAsking(lines, next)
      decreases |lines| - next
    {
      OneBlock(lines, next, conversation);
      var prompt, hasLine, ending, after := ReadPrompt(lines, next);
      next := after;
      if ending.Quit? {
        return 0, calls, (history, conversation);
      }
      if ending.Clear? {
        Cleared(calls, replies, questions, history, conversation);
        history := [];
        conversation := conversation + 1;
        session := SessionId(conversation);
        continue;
      }
      if !hasLine {
        if ending.Closed? {
          return 0, calls, (history, conversation);
        }
        continue;
      }
      ghost var before := history;
      history := history + [Message(USER, prompt)];
      var text := BuildQwen3Prompt(history);
      var reply := if |calls| < |replies| then replies[|calls|] else Failed;
      var call := Call(session, history, text, reply);
      assert questions[|calls|] == Question(conversation, prompt);
      CallMade(calls, call, replies, questions, before, conversation);
      calls := calls + [call];
      if reply.Failed? {
        history := history[..|history| - 1];
        assert history == before;
        if ending.Closed? {
          return 5, calls, (history, conversation);
        }
        continue;
      }
      history := history + [Message(ASSISTANT, reply.text)];
      if ending.Closed? {
        return 0, calls, (history, conversation);
      }
    }
  }

  lemma NoHistory()
    ensures Alternates([]) && forall session :: Exchanges([], session) == []
  {
  }

  /** The call just made is the next turn. */
  lemma TurnAdded(earlier: seq<Call>, call: Call, questions: seq<Question>)
    requires |earlier| < |questions| && forall i :: 0 <= i < |earlier| ==> IsTurn(earlier, i, questions[i])
    requires call.session == SessionId(questions[|earlier|].conversation)
    requires call.history == Exchanges(earlier, call.session) + [Message(USER, questions[|earlier|].content)]
    ensures var calls := earlier + [call];
            && (forall i :: 0 <= i < |calls| ==> IsTurn(calls, i, questions[i]))
            && Exchanges(calls, call.session) == if call.reply.Answered? then call.history + [Message(ASSISTANT, call.reply.text)]
                                                 else Exchanges(earlier, call.session)
  {
    hide SessionId;
    var calls := earlier + [call];
    assert calls[..|earlier|] == earlier;
    forall i | 0 <= i < |calls| ensures IsTurn(calls, i, questions[i]) {
      if i < |earlier| { TurnStays(earlier, [call], i, questions[i]); }
    }
    assert LastOf(call.history) == [Message(USER, questions[|earlier|].content)];
  }
}
