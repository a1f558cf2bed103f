# LiteLlm verification

A Dafny model of the LiteLlm framework: the asynchronous facade, the reverse client that serves chat requests over
one proxy connection, the JSON text they exchange, and the byte streams, timers and prompts around them. Nothing here
runs the program; every statement below is a contract that the verifier proves about the model.

    dafny verify dfyconfig.toml

## What is modelled

| file | what it models |
|---|---|
| `ByteStrings.dfy` | `std::string` as a sequence of bytes 0..255, occurrences of a string at a position, decimal numerals |
| `Utf8.dfy` | `AppendCodePoint`, and well-formed UTF-8 by the byte table of section 4 of RFC 3629 |
| `JsonGrammar.dfy` | a declarative grammar of JSON text (sections 2 to 7 of RFC 8259) as concrete syntax trees, with their text and value |
| `JsonSpec.dfy`, `JsonParser.dfy` | the recursive-descent parser: as functions of text and cursor, and as the class `Parser` with its mutable cursor and error |
| `JsonComplete.dfy`, `JsonSound.dfy`, `JsonUtf8.dfy` | parser against grammar in both directions; UTF-8 in, UTF-8 out |
| `JsonNumbers.dfy`, `JsonLeaves.dfy` | the real number a numeral spells, digit by digit; independent printers of decimals, escapes and surrogate pairs |
| `JsonEscape.dfy` | the escaper, and the demo runtime's independently written string decoder |
| `Messages.dfy`, `RoundTrip.dfy`, `CompletionRoundTrip.dfy` | the message builders, and what parsing a built message gives back |
| `Facade.dfy` | the class `Impl`: each method is one stretch that runs with the mutex held |
| `FacadeRuns.dfy`, `FacadeTheorems.dfy`, `FacadeCalls.dfy` | every interleaving of callers, workers, `Shutdown` and `Initialize`; the inductive invariant; the theorems |
| `Session.dfy` | the class `SessionState`, and the branches of `HandleMessage` |
| `SessionRuns.dfy`, `SessionTheorems.dfy` | the reverse client composed with the facade, its invariant and theorems |
| `Framing.dfy` | LTS1 frames over partial sends and receives, and one socket shared by many senders |
| `Chunked.dfy` | HTTP chunked decoding, with `strtoul` |
| `Backoff.dfy` | bounded decimal options, reconnect delays, sliced sleeping |
| `Request.dfy` | `ParseRequest`: from the JSON of a chat request to the prompt and the generation settings |
| `Chat.dfy` | the interactive chat tool: input lines, history, sessions, prompts |

The two copies of the JSON parser differ only in their namespace, and the two copies of the escaper only in layout, so
one model serves both.

### How concurrency is modelled

A state of the facade holds the mutex-protected fields (`Core`), one program counter for every worker thread ever started,
one for `Shutdown`, one for `Initialize`, and the history of calls, acceptances and callbacks. A step is one critical
section or one unlocked stretch: parsing the request, `Generate`, the begin and the return of a callback, the join, the
creation of a runtime. `notify_one` wakes some blocked thread if there is one; waits may also return spuriously. The
functions that the steps apply to the protected fields are the ones the methods of `Impl` are proved to compute.
That there is at most one live worker is proved, not assumed. The reverse client's states add its sessions, its own thread,
every request's callback and the frames sent; any facade step may happen between its steps.

Assumptions, which the code needs of its environment:

- Two `Shutdown` calls do not overlap, and `Shutdown` is not called from a callback.
  `FacadeTheorems.OverlappingShutdownUnsafe` gives a run in which a second, overlapping `Shutdown` takes the runtime away
  from a running `Generate`.
- Two `Initialize` calls do not overlap. (`Initialize` and `Shutdown` may overlap each other freely.)
- `Generate` and the callbacks return, and locks are released. The progress theorems count steps of the worker thread;
  they say how many are enough, and that one is always possible.

### Where code and documentation differ

- `lite_server/README.md:122` and `design/chat.md:253` say that concurrent requests are rejected as busy. The code clears
  `busy_` before the callback runs, so a second request is accepted while the first callback is still running: up to two
  accepted calls are outstanding (`FacadeTheorems.AcceptanceOrder`), and two can be (`FacadeTheorems.TwoOutstanding`).
- The error `shutting_down` is never answered: whenever `stopping_` is set the worker handle has been moved away, and
  callers get `not_ready` (`FacadeTheorems.RefusedWhileStopping`).
- `ParseUnsigned` respects its maximum on every text exactly when the maximum is at least 9
  (`Backoff.BoundsHoldFromNine`); every maximum the server uses is far above that.
- `DecodeChunkedBody` refuses the whitespace that RFC 9112 allows in front of a chunk extension (`Chunked.LineAccepted`).

### Conventions

- A JSON number is its exact decimal value; `IsFinite` says that a correctly rounding `strtod` gives a finite double.
  The sign of a zero is not kept.
- Shifts and masks are written as divisions and remainders; `Utf8.BitForms` and `Framing.LowBytes` justify it.
- 32-bit and 64-bit wrap-around is written out where the code relies on it (frame sizes, `maximum - digit`, the doubling of
  the delay, `total_tokens`, `strtoul`).
- String literals of the builders are split at field boundaries (`FirstKey`, `NextKey`, `Quoted`).
- Outcomes of `send`, `recv`, `poll`, `Generate` and thread creation, and the answers of `should_stop_`, are parameters.

## Model

| member | source | states |
|---|---|---|
| Utf8.AppendCodePoint | src/json_value.cpp:15-35 | every value below 0x110000 appends its encoding; any other fails and appends nothing |
| Utf8.BitForms | src/json_value.cpp:20-30 | on 32-bit words the encoder's shifts, masks and ors equal the sums the model uses |
| Utf8.EncodeDecode | src/json_value.cpp:15-35 | the bytes of a Unicode scalar value start with exactly one well-formed character, which decodes to that value whatever follows |
| Utf8.DecodeEncode | src/json_value.cpp:15-35 | conversely, every well-formed character is the encoding of the scalar value it decodes to |
| Utf8.OrderKept | src/json_value.cpp:15-35 | of two scalar values the greater has the encoding that is greater byte by byte |
| JsonSpec.ReadCodePoint | src/json_value.cpp:189-211 | every code point that reaches the encoder is a Unicode scalar value, so its failure arm is unreachable |
| JsonParser.Parser.SkipWhitespace | src/json_value.cpp:72-81 | the loop stops at the first byte that is not space, tab, CR or LF |
| JsonParser.Parser.Fail | src/json_value.cpp:83-89 | records the first error and the offset of the cursor, and nothing later |
| JsonParser.Parser.ConsumeLiteral | src/json_value.cpp:91-99 | succeeds exactly when the literal stands at the cursor, and then steps over it |
| JsonParser.Parser.ParseHexQuad | src/json_value.cpp:221-236 | four hexadecimal digits and their value, or an error behind the first other byte |
| JsonParser.Parser.ParseUnicodeEscape | src/json_value.cpp:188-213 | the code point of a \u escape, surrogates paired, or the error the branch reports |
| JsonParser.Parser.ParseEscape | src/json_value.cpp:163-216 | what one escape appends to the string |
| JsonParser.Parser.ParseString | src/json_value.cpp:143-219 | the loop over a string computes the specified value, cursor and error |
| JsonParser.Parser.ParseNumber | src/json_value.cpp:309-361 | the number reader computes the specified value, cursor and error; the bytes it takes are a numeral, and the decimal returned means the real number its digits spell one by one |
| JsonParser.Parser.ParseArray | src/json_value.cpp:238-267 | the array loop computes the specified items, cursor and error |
| JsonParser.Parser.ParseMember | src/json_value.cpp:280-292 | a key, a colon and a value, or the first error among them |
| JsonParser.Parser.ParseObject | src/json_value.cpp:269-307 | the object loop computes the specified map (a later duplicate key wins), cursor and error |
| JsonParser.Parser.ParseValue | src/json_value.cpp:101-141 | the dispatch on the first byte, with the nesting limit, computes the specified value |
| JsonParser.Parser.Parse | src/json_value.cpp:55-69 | a value with nothing but whitespace around it |
| JsonParser.ParseJson | src/json_value.cpp:454-461 | succeeds exactly when the grammar derives the whole text; the value returned is the only one derived |
| JsonComplete.NumeralComplete | src/json_value.cpp:309-361 | every numeral of the grammar, followed by a delimiter, is read as its exact decimal value |
| JsonComplete.StringComplete | src/json_value.cpp:143-219 | every string of the grammar is read as the bytes it stands for |
| JsonComplete.TreeComplete | src/json_value.cpp:101-307 | every value of the grammar within the nesting limit is read, wherever it stands, with its value and end |
| JsonComplete.Complete | src/json_value.cpp:55-361 | completeness: a derivable text is accepted with the derived value |
| JsonSound.NumeralSound | src/json_value.cpp:309-361 | whatever is read as a number is a numeral of the grammar with that value |
| JsonSound.ValueSound | src/json_value.cpp:101-361 | whatever is read as a value is spelled by a tree of the grammar within the nesting limit, with that value |
| JsonSound.Sound | src/json_value.cpp:55-361 | soundness: an accepted text is derived, with the returned value |
| JsonSound.SoundAndComplete | src/json_value.cpp:55-361 | the parser accepts exactly the derivable texts |
| JsonNumbers.NumeralMeans | src/json_value.cpp:309-361 | a numeral is read as plus or minus (whole digits as an integer + the i-th fraction digit over 10^(i+1)) times ten to its signed exponent |
| JsonNumbers.NumberMeans | src/json_value.cpp:309-361 | whatever is read as a number is a numeral with that meaning, wherever it stands |
| JsonNumbers.FiniteByMeaning | src/json_value.cpp:353-358 | a number is accepted exactly when its meaning stays below the midpoint between the greatest double and 2^1024 |
| JsonNumbers.LimitIsMidpoint | src/json_value.cpp:355-356 | that limit is the midpoint of (2^53 - 1) * 2^971 and 2^1024 |
| JsonNumbers.PrintedReads | src/json_value.cpp:309-361 | round trip with an independent printer of decimals with dot and exponent: read back with the printed meaning, refused exactly when too large |
| JsonLeaves.Literals | src/json_value.cpp:111-122 | null, true and false are read as what they name |
| JsonLeaves.ShortEscapes | src/json_value.cpp:167-187 | each two-byte escape is read as the byte it stands for |
| JsonLeaves.PairCombines | src/json_value.cpp:205 | the surrogate pair of every code point above the basic plane combines to it |
| JsonLeaves.UnicodeReads | src/json_value.cpp:188-236 | any code points written with escapes and surrogate pairs, in either case of hexadecimal letters, are read as their UTF-8 |
| JsonLeaves.InOrder | src/json_value.cpp:248-265 | the i-th element of an array is the value of its i-th item |
| JsonLeaves.LastWins | src/json_value.cpp:293 | of several members with one key the last one counts |
| JsonUtf8.ParsePreservesUtf8 | src/json_value.cpp:143-236 | if the text is well-formed UTF-8, so is every key and every string of the parsed value |
| JsonEscape.WriteEscaped | src/lite_llm.cpp:47-62 | one byte's escape is appended |
| JsonEscape.EscapeJsonString | src/lite_llm.cpp:42-66 | the loop writes the escaped form of the whole string between quotes |
| JsonEscape.EscapeRoundTrip | src/lite_llm.cpp:42-66 | escaping and then reading the string gives the string back, for every byte string and any surroundings, and stops behind the closing quote |
| JsonEscape.EscapeInjective | lite_server/src/protocol_codec.cpp:46-84 | two strings never share their escaped form |
| JsonEscape.ReadHex4 | runtime/mock/lite_llm_mock.cpp:334-344 | the decoder's hexadecimal loop reads four digits or reports failure |
| JsonEscape.DecodeJsonStringAt | runtime/mock/lite_llm_mock.cpp:365-418 | the decoder's loop computes the specified string |
| JsonEscape.DecodersAgree | runtime/mock/lite_llm_mock.cpp:365-418 | the parser reads a string exactly where the demo decoder does and no raw control character stands in it; then both return the same bytes and end at the same place |
| RoundTrip.ParseHello | lite_server/src/protocol_codec.cpp:86-90 | parsing a built hello gives back type, protocol version 1 and the token, for every token |
| RoundTrip.ParseReadyStatus | lite_server/src/protocol_codec.cpp:92-95 | the ready status parses to its two fields |
| RoundTrip.ParsePong | lite_server/src/protocol_codec.cpp:97-100 | the pong parses to its type |
| RoundTrip.ParseChatResponse | lite_server/src/protocol_codec.cpp:102-108 | parsing a built chat_response gives back id, status, content type and body, for all byte strings |
| RoundTrip.ParseError | lite_server/src/protocol_codec.cpp:110-115 | parsing a built error frame gives back id, status and message |
| RoundTrip.ParseErrorResponse | lite_server/src/reverse_client.cpp:39-53 | parsing an error body gives back message, type and code, and the message the client logs for it is the original one |
| CompletionRoundTrip.ParseCompletion | src/lite_llm.cpp:236-255 | parsing a completion body gives back id, creation time, model, text, finish reason and counts; total_tokens is the unbounded sum |
| CompletionRoundTrip.DoubleEncoding | lite_server/src/protocol_codec.cpp:102-108 | a completion nested as a string inside a chat_response comes back whole after parsing twice, for all byte strings |
| RoundTrip.RuntimeErrorParses | src/lite_llm.cpp:257-273 | a failed generation's code and message survive the trip, a missing message is replaced, and the HTTP status tells the caller's mistakes and a lack of memory from everything else |
| Request.ReadMessageContent | src/lite_llm.cpp:88-120 | a string, or the text parts of an array joined by line feeds without the empty ones in front; otherwise the error |
| Request.TextPart | src/lite_llm.cpp:100-117 | a part counts exactly when it is an object whose type is text and whose text is a string, and then with that text |
| Request.ContentReads | src/lite_llm.cpp:88-120 | a string is the content itself; texts written as the parts of an array come back as the lines of the content |
| Request.ReadGenerationConfig | src/lite_llm.cpp:122-166 | succeeds exactly when temperature, token limit and session id are each absent or in range, keeps defaults, and reports the first fault |
| Request.SettingsExactly | src/lite_llm.cpp:122-166 | temperature, token limit and session read are exactly those the object asks for, with bounds and defaults spelled out |
| Request.ModelAndMessagesExactly | src/lite_llm.cpp:187-208 | the model is a string of 1 to 256 bytes or the default, the messages are an array of 1 to 1024 items |
| Request.SectionExactly | src/lite_llm.cpp:210-228 | which messages are accepted: an object with a valid role and a content that can be read, and nothing else |
| Request.ReadMessages | src/lite_llm.cpp:209-231 | the prompt is one section per message in order and the assistant's opening; the first message in error fails the request |
| Request.PromptHolds | src/lite_llm.cpp:209-232 | for every message, of any role, the prompt holds its role in brackets, its content and the line feeds, at a position computed from lengths alone; then the assistant's opening |
| Request.PromptsDiffer | src/lite_llm.cpp:229 | equal roles and equally long contents with a difference give different prompts |
| Request.ReadRequest | src/lite_llm.cpp:177-233 | the branches behind parsing: a complete request, or its first fault |
| Request.ParseRequest | src/lite_llm.cpp:168-234 | succeeds exactly on texts that derive a complete request, returns what it says, and otherwise reports the first fault |
| Request.RequestsChain | src/lite_llm.cpp:209-232 | two requests whose messages continue one another: the earlier prompt and its answer begin the later prompt |
| Facade.Impl.GenerateAsync | src/lite_llm.cpp:329-343 | the admission section: its verdict and new fields; an accept finds the slot empty and fills it, and shutting_down is not answered in a consistent state |
| Facade.Impl.CheckUninitialized | src/lite_llm.cpp:284-289 | refuses exactly when a runtime or a worker exists |
| Facade.Impl.InstallRuntime | src/lite_llm.cpp:303-307 | installs the runtime and clears stopping, even when starting the thread throws |
| Facade.Impl.AbandonRuntime | src/lite_llm.cpp:308-316 | the handlers drop the runtime and nothing else |
| Facade.Impl.BeginShutdown | src/lite_llm.cpp:353-365 | without a worker everything is reset at once; with one, stopping is set and the handle moved away in one section |
| Facade.Impl.FinishShutdown | src/lite_llm.cpp:375-379 | the resets behind the join |
| Facade.Impl.TakeJob | src/lite_llm.cpp:411-420 | one evaluation of the wait: block, leave, or take the job out of the slot |
| Facade.Impl.ClearBusyFlag | src/lite_llm.cpp:423-426 | clears busy and nothing else |
| Facade.Impl.ShouldLeave | src/lite_llm.cpp:429-432 | the worker leaves exactly when stopping with an empty slot |
| FacadeRuns.ThreadsKept | src/lite_llm.cpp:279-380 | every step keeps: all threads but the youngest have exited, and the youngest lives only while the handle or the joining Shutdown owns it, with the runtime in place |
| FacadeRuns.AdmissionKept | src/lite_llm.cpp:329-434 | every step keeps: busy holds exactly while a job is pending or between taking one and clearing the flag |
| FacadeRuns.OrderKept | src/lite_llm.cpp:340-427 | every step keeps: the accepted calls are those begun, then the one in hand, then the one in the slot, in that order |
| FacadeRuns.CountedKept | src/lite_llm.cpp:320-434 | every step keeps: the callback of every call made is in exactly one place, of every other call in none |
| FacadeRuns.DeliveriesKept | src/lite_llm.cpp:345-427 | every step keeps: each callback was given the response of its own call |
| FacadeRuns.OutcomesKept | src/lite_llm.cpp:391-420 | every step keeps: what a job ended with fits its own request |
| FacadeRuns.InvKept | src/lite_llm.cpp:277-443 | the whole invariant is inductive |
| FacadeRuns.ReachableHolds | src/lite_llm.cpp:277-443 | it holds in every reachable state |
| FacadeTheorems.AtMostOnce | include/lite_llm.h:32-34 | no callback runs twice, and none without its call |
| FacadeTheorems.ExactlyOnceAtRest | include/lite_llm.h:32-34 | once Shutdown has returned and no refusal is being delivered, every call has had its callback exactly once |
| FacadeTheorems.OwnResponse | src/lite_llm.cpp:345-427 | a callback gets the refusal of its own call, or the answer to what processing its own request ended with |
| FacadeTheorems.RespondAnswers | src/lite_llm.cpp:391-406 | for every way processing can end: status, and the code and message, or the completion, that the body parses to |
| FacadeTheorems.AcceptedAnswer | src/lite_llm.cpp:391-427 | in every reachable state each callback of an accepted call was given that answer; 400 exactly for an invalid request, an invalid argument or a context too long |
| FacadeTheorems.MalformedIsRefused | src/lite_llm.cpp:395-398 | an accepted call whose request cannot be parsed is answered with 400 or 500 |
| FacadeTheorems.OutcomeFits | src/lite_llm.cpp:391-399 | a request is refused only when parsing refuses it, and generated only when it is well formed, with the model it asks for |
| FacadeTheorems.SuccessExactly | src/lite_llm.cpp:391-406 | a response has a 2xx status exactly when the generation returned and succeeded |
| FacadeTheorems.SuccessIsACompletion | src/lite_llm.cpp:399-427 | a callback given a 2xx response belongs to an accepted call whose request was well formed and whose generation succeeded, and the body parses to that generation's completion, with the model asked for |
| FacadeTheorems.ResetDropsNothing | src/lite_llm.cpp:355-379 | neither reset of Shutdown ever meets a pending job |
| FacadeTheorems.BusyExactly | src/lite_llm.cpp:340-426 | busy holds exactly when a job is pending or some thread is between taking one and clearing the flag |
| FacadeTheorems.VerdictExactly | src/lite_llm.cpp:329-343 | in every reachable state a call is accepted exactly when the worker handle is there and no accepted job is pending or being processed; otherwise it is not ready, or busy |
| FacadeTheorems.RefusalParses | src/lite_llm.cpp:330-338 | what a refused caller reads: status 409 or 503, and the refusal's code and message |
| FacadeTheorems.AcceptNeverOverwrites | src/lite_llm.cpp:339-342 | an accepted call finds the slot empty and fills it |
| FacadeTheorems.AcceptanceOrder | src/lite_llm.cpp:339-427 | callbacks of accepted calls run in acceptance order, and at most two accepted calls await their callback |
| FacadeTheorems.TwoOutstanding | src/lite_llm.cpp:423-427 | the bound of two is reached: a run with a second job pending while the first callback runs |
| FacadeTheorems.RuntimeSafety | src/lite_llm.cpp:391-406 | processing always finds a runtime, it is the same object throughout Generate, Generate calls never overlap, at most one thread is alive |
| FacadeTheorems.RefusedWhileStopping | src/lite_llm.cpp:330-335 | stopping implies no joinable worker, so every call is then refused with 503 not_ready, and shutting_down is never answered |
| FacadeTheorems.NoLostWakeup | src/lite_llm.cpp:340-414 | a worker that is blocked and not notified has nothing to do: not stopping, empty slot |
| FacadeTheorems.StopRankFalls | src/lite_llm.cpp:350-434 | while stopping, every worker step lowers a measure, no other step changes it, and no call is admitted |
| FacadeTheorems.StopNeverStuck | src/lite_llm.cpp:367-434 | while Shutdown joins, a worker step or the join is possible |
| FacadeTheorems.ShutdownTerminates | src/lite_llm.cpp:350-434 | over any run while stopping: at most eleven worker steps, then the thread has left; at most two callbacks begin; none is admitted |
| FacadeTheorems.AcceptedIsServed | include/lite_llm.h:32-34 | over any run: nine worker steps after its acceptance the callback of a call has run exactly once and returned, whatever else happens |
| FacadeTheorems.UnservedHasStep | src/lite_llm.cpp:408-434 | until an accepted call is served the worker has a step to take |
| FacadeTheorems.OverlappingShutdownUnsafe | src/lite_llm.cpp:353-361 | a run in which an overlapping second Shutdown would take the runtime from a running Generate and clear stopping |
| FacadeCalls.CallStatusStep | src/lite_llm.cpp:320-434 | a call goes from waiting to running to done, and only its own callback's begin and return move it |
| Session.SessionState.Count | lite_server/src/reverse_client.cpp:294-301 | a request is counted exactly when the session is not closing |
| Session.SessionState.MarkClosing | lite_server/src/reverse_client.cpp:326-329 | sets closing and nothing else |
| Session.SessionState.Finish | lite_server/src/reverse_client.cpp:336-339 | lowers the counter by one and changes nothing else |
| Session.HandleMessage | lite_server/src/reverse_client.cpp:260-292 | the branches compute the reaction, and the reaction means what the grammar derives from the payload |
| Session.ReactionMeans | lite_server/src/reverse_client.cpp:260-304 | over the grammar: the reaction is a chat, an answer to a ping, nothing, or the answer to a missing body exactly when the payload derives an object with that type, an id of 1 to 128 bytes and that body; every other payload is rejected |
| SessionRuns.CounterKept | lite_server/src/reverse_client.cpp:294-340 | every step of client, callbacks and facade keeps the counter equal to the number of requests between increment and decrement |
| SessionRuns.AgreesKept | lite_server/src/reverse_client.cpp:300-343 | every step keeps each request's callback in step with the life of the facade call made for it |
| SessionRuns.NotifiedKept | lite_server/src/reverse_client.cpp:336-440 | every step keeps: a client blocked at zero has a callback about to notify it |
| SessionRuns.AnsweredOnceKept | lite_server/src/reverse_client.cpp:306-343 | every step keeps: a request is answered at most once, and the response in hand is the facade's |
| SessionTheorems.HoldsKept | lite_server/src/reverse_client.cpp:209-441 | the whole invariant of client and facade together is inductive |
| SessionTheorems.CounterIsExact | lite_server/src/reverse_client.cpp:300-441 | pending_callbacks is exact in every reachable state, the decrement never meets zero, and a session ends only at zero |
| SessionTheorems.DescriptorIsOpen | lite_server/src/reverse_client.cpp:117-118 | no callback sends on or shuts down a descriptor that Run has closed, also on the return that skips CloseSession |
| SessionTheorems.NoLostNotification | lite_server/src/reverse_client.cpp:336-440 | a CloseSession blocked at zero has a callback whose notify is possible and wakes it |
| SessionTheorems.ResponseCorrelation | lite_server/src/reverse_client.cpp:260-343 | per session and identifier, chat_response and error frames never outnumber the chat requests received |
| SessionTheorems.ResponseIsTheFacades | lite_server/src/reverse_client.cpp:305-323 | every chat_response carries its request's id and the response the facade delivered for the call made with its body |
| SessionTheorems.AnsweredUnlessClosing | lite_server/src/reverse_client.cpp:313-335 | in a session that is not closing, every chat request whose callback is over has been answered, exactly once |
| SessionTheorems.ClosingSilences | lite_server/src/reverse_client.cpp:313-317 | over any run: once a session closes, a request whose callback has not yet looked at the flag is never answered |
| SessionTheorems.AnswerParses | lite_server/src/reverse_client.cpp:319-323 | what the proxy parses from such a frame is type, content type, the request's id and the facade's status and body |
| SessionTheorems.BodilessAnswerParses | lite_server/src/reverse_client.cpp:289-292 | the answer to a request without a body parses to an error frame with its id, status 400 and the message |
| SessionTheorems.ServiceFalls | lite_server/src/reverse_client.cpp:306-341 | every step of the worker, in the facade or in a callback, brings each waiting request closer to its decrement, and no other step takes it farther |
| SessionTheorems.CloseNeverStuck | lite_server/src/reverse_client.cpp:434-441 | a client that waits to close can go on, or the worker has a step |
| SessionTheorems.CloseTerminates | lite_server/src/reverse_client.cpp:434-441 | over any run in which the client waits to close, the worker takes at most 62 steps before the counter is zero, whatever anyone else does |
| Framing.EncodeFrame | lite_server/src/protocol_codec.cpp:12-27 | the loops build magic, big-endian size and payload |
| Framing.DecodeFrameHeader | lite_server/src/protocol_codec.cpp:29-44 | accepts exactly headers with the magic, and the size returned is the one whose header they are |
| Framing.HeaderOfFrame | lite_server/src/protocol_codec.cpp:12-44 | the header of a frame announces its payload, for every size below 2^32 |
| Framing.NetworkOrder | lite_server/src/protocol_codec.cpp:19-22 | the four size bytes, most significant first, are the size |
| Framing.Outgoing.SendAll | lite_server/src/reverse_client.cpp:64-83 | for every sequence of send outcomes: how many bytes are written, once and in order, and success exactly when all are |
| Framing.Outgoing.SendFrame | lite_server/src/reverse_client.cpp:345-354 | an empty or oversized payload fails and writes nothing; otherwise the frame is sent as SendAll does |
| Framing.HealthySends | lite_server/src/reverse_client.cpp:64-83 | sends that each transfer something send everything, however little each transfers and however often they are interrupted |
| Framing.SendHasCause | lite_server/src/reverse_client.cpp:64-83 | a failed send was cut short by a send that failed or took nothing, right behind what was written, or by the end of the events |
| Framing.FailedSendEnds | lite_server/src/reverse_client.cpp:76-79 | a send that fails, or takes nothing, while bytes are left ends the sending there |
| Framing.Incoming.ReceiveExact | lite_server/src/reverse_client.cpp:366-411 | the receive loop fills the buffer or fails as specified, for every sequence of poll and recv outcomes |
| Framing.Incoming.ReceiveFrame | lite_server/src/reverse_client.cpp:363-432 | header, size check and payload, composed, with the bytes and events left on every way out |
| Framing.ExactlyTheNext | lite_server/src/reverse_client.cpp:366-411 | a filled buffer holds exactly the next bytes of the stream, however they arrived |
| Framing.FrameReceived | lite_server/src/reverse_client.cpp:363-432 | a frame at the front of the stream is received whole or not at all, never as another payload |
| Framing.ReceivedIsFrame | lite_server/src/reverse_client.cpp:363-432 | for any bytes and events: a received payload has 1 to limit bytes, and its frame stands in front |
| Framing.BadSizeRefused | lite_server/src/reverse_client.cpp:422-425 | a header that announces nothing, or more than the limit, is refused and not one byte behind it is taken |
| Framing.BadMagicRefused | lite_server/src/reverse_client.cpp:418-421 | so is a header with another magic |
| Framing.FailureHasCause | lite_server/src/reverse_client.cpp:366-411 | a wait that fails was stopped, or the last event taken is the one that ends in that failure |
| Framing.FailureTakesNext | lite_server/src/reverse_client.cpp:366-411 | such a wait took the next bytes only, and no more than wanted |
| Framing.CauseFails | lite_server/src/reverse_client.cpp:366-411 | while bytes are wanted, a stop, a timed time-out, a poll or recv error, a hang-up or a recv of nothing ends the wait with its own failure |
| Framing.NoFrameHasCause | lite_server/src/reverse_client.cpp:363-432 | why no frame was received, for any bytes and events: another magic, an announced size of 0 or above the limit, or a wait with its cause |
| Framing.ReceivedInOrder | lite_server/src/reverse_client.cpp:363-432 | from any part of a stream of frames only the payloads, in order, are received |
| Framing.AllReceived | lite_server/src/reverse_client.cpp:363-432 | on a healthy connection exactly the payloads are received |
| Framing.WrittenIsFrames | lite_server/src/reverse_client.cpp:356-361 | with the send mutex and no failed send, whatever interleaving of senders wrote, the bytes are whole frames of the payloads sent |
| Framing.EndToEnd | lite_server/src/reverse_client.cpp:345-432 | any senders, any splitting, any arrived part: the peer receives payloads that were sent, whole and in order |
| Chunked.DecodeChunkedBody | runtime/mock/lite_llm_mock.cpp:264-293 | on every input the loop ends, subtracts within range, reads inside the body and computes the specified result |
| Chunked.DecodesExactly | runtime/mock/lite_llm_mock.cpp:264-293 | a body is decoded to some bytes exactly when it starts with well-formed chunks that hold those bytes |
| Chunked.LineAccepted | runtime/mock/lite_llm_mock.cpp:273-278 | a size line is accepted exactly when nothing, a semicolon or a NUL follows the number |
| Chunked.RfcBodyDecodes | runtime/mock/lite_llm_mock.cpp:264-293 | chunks coded as section 7.1 of RFC 9112 says are decoded to the concatenation of their data, even when it contains CRLF |
| Chunked.HexReads | runtime/mock/lite_llm_mock.cpp:275 | a number printed in hexadecimal, in either case, is read back |
| Chunked.StrtoulForms | runtime/mock/lite_llm_mock.cpp:273-275 | spaces, a sign and 0x in front of the digits: the value, saturated or negated modulo 2^64, and where the number ends |
| Chunked.ChunkedRoundTrip | runtime/mock/lite_llm_mock.cpp:264-293 | any pieces coded by an independent encoder are decoded to their concatenation, whatever follows |
| Backoff.ParseUnsigned | lite_server/src/main.cpp:46-64 | for a maximum of at least 9: succeeds exactly on non-empty digit strings whose value is at most the maximum, and returns the value |
| Backoff.Accumulates | lite_server/src/main.cpp:52-61 | for a maximum of at least 9 no accepted intermediate value exceeds it, and none within it is refused |
| Backoff.BoundsHoldFromNine | lite_server/src/main.cpp:56-60 | the bound is respected on every text if and only if the maximum is at least 9 |
| Backoff.ParseArguments | lite_server/src/main.cpp:76-141 | accepts exactly the command lines of good options that give everything required, or a request for help behind good options; every option has its last value or its default, within its bounds |
| Backoff.NamesExactly | lite_server/src/main.cpp:76-123 | which text names which option |
| Backoff.FieldsByText | lite_server/src/main.cpp:76-123 | each field is the last value behind its own option's text, or its default |
| Backoff.DelayDoubles | lite_server/src/reverse_client.cpp:113-127 | doubling a bounded delay never wraps in 32 bits and moves the closed form one step on |
| Backoff.Run | lite_server/src/reverse_client.cpp:104-130 | the k-th sleep since the start or the last authenticated session is min(max, initial * 2^k); sleeping goes on exactly until a session after which the program stops |
| Backoff.SleepForReconnect | lite_server/src/reverse_client.cpp:443-451 | slices of 1 to 100 ms that add up to exactly the delay, or to what was slept until the stop |
| Chat.BuildQwen3Prompt | tools/lite_llm_chat.cpp:84-93 | the loop builds the template of the whole history and opens the assistant's turn |
| Chat.PromptHolds | tools/lite_llm_chat.cpp:84-93 | the prompt holds every turn, of either role, at a position computed from lengths alone, and then opens the assistant's turn |
| Chat.ReadPrompt | tools/lite_llm_chat.cpp:190-212 | the lines up to the first command or the end of input, joined by line feeds, and which of them ended the prompt |
| Chat.AnsweredPromptBegins | tools/lite_llm_chat.cpp:84-93 | a prompt followed by its answer begins the text of every history that continues with that answer |
| Chat.SessionIdInjective | tools/lite_llm_chat.cpp:187-215 | different conversations have different session ids |
| Chat.Converse | tools/lite_llm_chat.cpp:188-243 | the loop keeps calls, history, conversation and session in step, through failures, /clear, empty prompts and the end of input |
| Chat.RunInteractive | tools/lite_llm_chat.cpp:178-244 | the calls made are the questions asked, each after the answered exchanges of its session; the text of every session id; histories alternate; any answered prompt and its answer begin every later prompt of its session; the exit code |

## Left out

- Sockets, `poll`, `connect`, TLS and file reading, except as outcomes of `send`, `recv` and `poll` that may be anything: `Connect` and `TlsConnection` are not part of this model.
- The wall clock, timeouts as durations, signals, logging and streaming to stdout: a timeout is an event that may happen, `should_stop_` may answer anything.
- The inference runtime: `Generate` is a call that returns any result or throws.
- `strtod` beyond the exact decimal value and finiteness: the rounded double and the sign of zero.
- Request.ParseRequest: the rounding of decimals to doubles is a parameter, the narrowing of the temperature to `float` and the log line about streaming are left out. In the facade's runs a request is refused or goes on to `Generate` as parsing it does for some rounding; the wording of the error is then arbitrary.
- `PerformHandshake`: a session starts behind an accepted handshake; a failed one makes no session.
- The demo runtime's text searches (`JsonStringValue`, `JsonUnsignedValue`, `CompletionContent`, `HttpBody`, `ParseHttpsUrl`), which have no clean specification.
- Overlapping `Shutdown`, `Shutdown` from a callback and overlapping `Initialize`, where the invariants do not hold.
- The exceptional path of `join`, which cannot fail under these assumptions, and calls of `GenerateAsync` with an empty callback, which change nothing.
- FacadeRuns.InvKept: calls, threads and runtimes are numbered without bound, and `std::condition_variable` and `std::mutex` are taken to meet their specification.
- Session.SessionState.Finish: `pending_callbacks` is an unbounded integer, because its wrap-around at zero is proved not to happen and 2^64 requests cannot be outstanding.
- SessionRuns.AnsweredOnceKept: sending a frame is one step that succeeds or fails; how a frame is split is the subject of `Framing.WrittenIsFrames`.
- Framing.EndToEnd: nothing is said once a send has failed, because the code may then write behind a partial frame until the session closes.
- Backoff.ParseArguments: usage text, and the wording of errors.
- Build and deployment scripts, and the drafts under `design/`.
