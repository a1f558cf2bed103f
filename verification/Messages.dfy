/** The message builders, and what a peer gets back when it parses what they build. */
module Messages {
  import opened ByteStrings
  import opened JsonGrammar
  import opened JsonSpec
  import opened JsonEscape
  import JsonComplete

  // ---- Results and responses ----

  datatype GenerateStatus = Ok | InvalidArgument | ContextTooLong | OutOfMemory | InternalError

  datatype FinishReason = Stop | Length

  type uint32 = n: int | 0 <= n < 0x1_0000_0000

  type int32 = n: int | -0x8000_0000 <= n < 0x8000_0000

  type int64 = n: int | -0x8000_0000_0000_0000 <= n < 0x8000_0000_0000_0000

  type uint64 = n: int | 0 <= n < 0x1_0000_0000_0000_0000

  datatype GenerateResult = GenerateResult(
    status: GenerateStatus, text: bytes, finishReason: FinishReason,
    promptTokens: uint32, generatedTokens: uint32, error: bytes)

  datatype GenerateResponse = GenerateResponse(statusCode: int32, body: bytes)

  // ---- Literals, split at field boundaries ----

  /** The literal that opens an object and names its first field. */
  function FirstKey(key: string): bytes { Ascii("{\"" + key + "\":") }

  /** The literal that names a further field. */
  function NextKey(key: string): bytes { Ascii(",\"" + key + "\":") }

  function Quoted(s: string): bytes { Ascii("\"" + s + "\"") }

  // ---- Builders of the facade ----

  function ErrorResponse(statusCode: int32, code: bytes, message: bytes): GenerateResponse {
    GenerateResponse(statusCode, FirstKey("error") + ErrorDetail(code, message) + Ascii("}"))
  }

  function ErrorDetail(code: bytes, message: bytes): bytes {
    FirstKey("message") + Escape(message) + NextKey("type") + Quoted("lite_llm_error") +
    NextKey("code") + Escape(code) + Ascii("}")
  }

  function FinishText(r: FinishReason): string { if r == Length then "length" else "stop" }

  /** 64-bit addition of two 32-bit counts. */
  function TotalTokens(result: GenerateResult): uint64 {
    (result.promptTokens + result.generatedTokens) % 0x1_0000_0000_0000_0000
  }

  /** `serial` is the process-wide response counter and `created` the clock, in seconds. */
  function CompletionResponse(model: bytes, result: GenerateResult, serial: uint64, created: int64): GenerateResponse {
    GenerateResponse(200,
      FirstKey("id") + Escape(CompletionId(serial)) + NextKey("object") + Quoted("chat.completion") +
      NextKey("created") + IntText(created) + NextKey("model") + Escape(model) +
      NextKey("choices") + ([OPEN_BRACKET] + ChoiceText(result) + [CLOSE_BRACKET]) +
      NextKey("usage") + UsageText(result) + Ascii("}"))
  }

  function CompletionId(serial: uint64): bytes { Ascii("chatcmpl-lite-") + NatText(serial) }

  function ChoiceText(result: GenerateResult): bytes {
    FirstKey("index") + Ascii("0") + NextKey("message") + MessageText(result.text) +
    NextKey("finish_reason") + Escape(Ascii(FinishText(result.finishReason))) + Ascii("}")
  }

  function MessageText(text: bytes): bytes {
    FirstKey("role") + Quoted("assistant") + NextKey("content") + Escape(text) + Ascii("}")
  }

  function UsageText(result: GenerateResult): bytes {
    FirstKey("prompt_tokens") + IntText(result.promptTokens) +
    NextKey("completion_tokens") + IntText(result.generatedTokens) +
    NextKey("total_tokens") + IntText(TotalTokens(result)) + Ascii("}")
  }

  function RuntimeErrorResponse(result: GenerateResult): GenerateResponse {
    var message := if result.error == [] then Ascii("inference failed") else result.error;
    match result.status
    case InvalidArgument => ErrorResponse(400, Ascii("invalid_argument"), message)
    case ContextTooLong => ErrorResponse(400, Ascii("context_too_long"), message)
    case OutOfMemory => ErrorResponse(503, Ascii("out_of_memory"), message)
    case InternalError => ErrorResponse(500, Ascii("internal_error"), message)
    case Ok => ErrorResponse(500, Ascii("internal_error"), message)
  }

  // ---- Builders of the server ----

  function BuildHello(token: bytes): bytes {
    FirstKey("type") + Quoted("hello") + NextKey("protocol") + Ascii("1") + NextKey("auth_token") + Escape(token) + Ascii("}")
  }

  function BuildReadyStatus(): bytes { FirstKey("type") + Quoted("status") + NextKey("state") + Quoted("ready") + Ascii("}") }

  function BuildPong(): bytes { FirstKey("type") + Quoted("pong") + Ascii("}") }

  function BuildChatResponse(id: bytes, status: int32, contentType: bytes, body: bytes): bytes {
    FirstKey("type") + Quoted("chat_response") + NextKey("id") + Escape(id) +
    NextKey("status") + IntText(status) + NextKey("content_type") + Escape(contentType) +
    NextKey("body") + Escape(body) + Ascii("}")
  }

  function BuildError(id: bytes, status: int32, message: bytes): bytes {
    FirstKey("type") + Quoted("error") + NextKey("id") + Escape(id) +
    NextKey("status") + IntText(status) + NextKey("message") + Escape(message) + Ascii("}")
  }

  /** `LiteLlmErrorMessage`: the message inside an error body, or the body itself. */
  function LiteLlmErrorMessage(response: GenerateResponse): bytes {
    var parsed := ReadText(response.body);
    if parsed.Got? then
      match parsed.value.Find(Ascii("error"))
      case None => Fallback(response.body)
      case Some(error) =>
        match error.Find(Ascii("message"))
        case None => Fallback(response.body)
        case Some(message) => if message.String? then message.s else Fallback(response.body)
    else Fallback(response.body)
  }

  function Fallback(body: bytes): bytes {
    if body == [] then Ascii("LiteLlm returned an empty error response") else body
  }

  // ---- Trees of built messages, without whitespace ----

  function TextLeaf(s: bytes): Tree { StringTree(EscapedCharacters(s)) }

  function IntLeaf(n: int): Tree { NumberTree(Numeral(n < 0, NatText(Magnitude(n)), [], [], [])) }

  function Field(key: string, value: Tree, rest: Members): Members {
    Member([], EscapedCharacters(Ascii(key)), [], [], value, [], rest)
  }

  function LastField(key: string, value: Tree): Members {
    LastMember([], EscapedCharacters(Ascii(key)), [], [], value, [])
  }

  function OneElement(value: Tree): Tree { ArrayTree(LastElement([], value, [])) }

  lemma TextLeafIs(s: bytes)
    ensures Good(TextLeaf(s)) && Text(TextLeaf(s)) == Escape(s) && Denote(TextLeaf(s)) == String(s)
    ensures Depth(TextLeaf(s)) == 0
  {
    EscapedString(s);
  }

  lemma {:induction false} PowAtLeast(base: nat, a: nat, b: nat)
    requires base >= 1 && a <= b
    ensures Pow(base, a) <= Pow(base, b)
    decreases b
  {
    if a < b {
      PowAtLeast(base, a, b - 1);
      assert Pow(base, b - 1) <= base * Pow(base, b - 1);
    }
  }

  /** Every 64-bit integer is far below the overflow threshold. */
  lemma Int64IsFinite(n: int)
    requires Magnitude(n) < 0x1_0000_0000_0000_0000
    ensures IsFinite(Decimal(n, 0))
  {
    PowAtLeast(2, 64, 970);
    TwoTo64();
    PowAtLeast(2, 1, 54);
    assert Pow(2, 1) == 2 && Pow(10, 0) == 1;
    var big := Pow(2, 970);
    assert (Pow(2, 54) - 1) * big >= 1 * big;
  }

  lemma TwoTo64()
    ensures Pow(2, 64) == 0x1_0000_0000_0000_0000
  {
    TwoTo16();
    hide Pow;
    PowAdd(16, 16);
    PowAdd(32, 32);
  }

  lemma TwoTo16()
    ensures Pow(2, 16) == 0x1_0000
  {
    assert Pow(2, 2) == 4;
    PowAdd(2, 2);
    PowAdd(4, 4);
    PowAdd(8, 8);
  }

  lemma IntLeafIs(n: int)
    requires Magnitude(n) < 0x1_0000_0000_0000_0000
    ensures Good(IntLeaf(n)) && Text(IntLeaf(n)) == IntText(n) && Denote(IntLeaf(n)) == Number(Decimal(n, 0))
    ensures Depth(IntLeaf(n)) == 0
  {
    hide IsFinite, NatText;
    var digits := NatText(Magnitude(n));
    var numeral := Numeral(n < 0, digits, [], [], []);
    assert digits + [] == digits;
    assert NumeralValue(numeral) == Decimal(n, 0);
    Int64IsFinite(n);
    assert UnsignedText(numeral) == digits;
  }

  /** No byte needs escaping. */
  predicate Plain(s: bytes) { forall i :: 0 <= i < |s| ==> s[i] >= 0x20 && s[i] != QUOTE && s[i] != BACKSLASH }

  /** A literal of printable ASCII without quotes and backslashes. */
  predicate PlainLiteral(s: string) { forall i :: 0 <= i < |s| ==> ' ' <= s[i] <= '~' && s[i] != '"' && s[i] != '\\' }

  lemma PlainAscii(s: string)
    requires PlainLiteral(s)
    ensures Plain(Ascii(s))
  {
    forall i | 0 <= i < |s| ensures Ascii(s)[i] >= 0x20 && Ascii(s)[i] != QUOTE && Ascii(s)[i] != BACKSLASH {
      assert Ascii(s)[i] == s[i] as int;
    }
  }

  lemma {:induction false} EscapePlain(s: bytes)
    requires Plain(s)
    ensures EscapeBody(s) == s && Escape(s) == [QUOTE] + s + [QUOTE]
    decreases |s|
  {
    if s != [] {
      var front := s[..|s| - 1];
      EscapePlain(front);
      assert EscapeByte(s[|s| - 1]) == [s[|s| - 1]];
      assert front + [s[|s| - 1]] == s;
    }
  }

  lemma AsciiConcat(a: string, b: string)
    ensures Ascii(a + b) == Ascii(a) + Ascii(b)
  {
  }

  /** A field: a good one, its key and its value in front of the rest. */
  lemma FieldIs(key: string, value: Tree, rest: Members)
    requires Good(value) && GoodMembers(rest) && PlainLiteral(key)
    ensures var ms := Field(key, value, rest);
            && GoodMembers(ms) && MembersDepth(ms) == (if MembersDepth(rest) > Depth(value) then MembersDepth(rest) else Depth(value))
            && [OPEN_BRACE] + MembersText(ms) == FirstKey(key) + (Text(value) + ([COMMA] + MembersText(rest)))
            && [COMMA] + MembersText(ms) == NextKey(key) + (Text(value) + ([COMMA] + MembersText(rest)))
            && DenoteMembers(ms) == map[Ascii(key) := Denote(value)] + DenoteMembers(rest)
  {
    hide Text, Good, Denote, Depth, StringText, CharactersBytes, Ascii, EscapedCharacters, PlainLiteral, FirstKey, NextKey;
    var ms := Field(key, value, rest);
    KeyIs(key);
    BareMember(ms.key, value, [COMMA] + MembersText(rest), Ascii("\"" + key + "\":"));
    KeyInFront(key, Text(value) + ([COMMA] + MembersText(rest)));
  }

  lemma LastFieldIs(key: string, value: Tree)
    requires Good(value) && PlainLiteral(key)
    ensures var ms := LastField(key, value);
            && GoodMembers(ms) && MembersDepth(ms) == Depth(value)
            && [OPEN_BRACE] + MembersText(ms) == FirstKey(key) + (Text(value) + Ascii("}"))
            && [COMMA] + MembersText(ms) == NextKey(key) + (Text(value) + Ascii("}"))
            && DenoteMembers(ms) == map[Ascii(key) := Denote(value)]
  {
    hide Text, Good, Denote, Depth, StringText, CharactersBytes, Ascii, EscapedCharacters, PlainLiteral, FirstKey, NextKey;
    var ms := LastField(key, value);
    KeyIs(key);
    assert Ascii("}") == [CLOSE_BRACE];
    BareMember(ms.key, value, [CLOSE_BRACE], Ascii("\"" + key + "\":"));
    KeyInFront(key, Text(value) + [CLOSE_BRACE]);
  }

  lemma KeyInFront(key: string, rest: bytes)
    ensures [COMMA] + (Ascii("\"" + key + "\":") + rest) == NextKey(key) + rest
    ensures [OPEN_BRACE] + (Ascii("\"" + key + "\":") + rest) == FirstKey(key) + rest
  {
    assert ",\"" + key + "\":" == "," + ("\"" + key + "\":");
    assert "{\"" + key + "\":" == "{" + ("\"" + key + "\":");
    AsciiConcat(",", "\"" + key + "\":");
    AsciiConcat("{", "\"" + key + "\":");
    assert Ascii(",") == [COMMA] && Ascii("{") == [OPEN_BRACE];
    assert [COMMA] + (Ascii("\"" + key + "\":") + rest) == ([COMMA] + Ascii("\"" + key + "\":")) + rest;
    assert [OPEN_BRACE] + (Ascii("\"" + key + "\":") + rest) == ([OPEN_BRACE] + Ascii("\"" + key + "\":")) + rest;
  }

  /** A member without whitespace. */
  lemma BareMember(key: Characters, value: Tree, tail: bytes, literal: bytes)
    requires StringText(key) + [COLON] == literal
    ensures [] + (StringText(key) + ([] + ([COLON] + ([] + (Text(value) + ([] + tail))))))
         == literal + (Text(value) + tail)
  {
    hide Text, StringText;
    var rest := Text(value) + tail;
    assert [] + tail == tail;
    assert [] + rest == rest;
    assert [] + ([COLON] + rest) == [COLON] + rest;
    assert [] + (StringText(key) + ([COLON] + rest)) == StringText(key) + ([COLON] + rest);
    assert StringText(key) + ([COLON] + rest) == (StringText(key) + [COLON]) + rest;
  }

  lemma KeyIs(key: string)
    requires PlainLiteral(key)
    ensures var cs := EscapedCharacters(Ascii(key));
            && GoodCharacters(cs) && CharactersBytes(cs) == Ascii(key)
            && StringText(cs) + [COLON] == Ascii("\"" + key + "\":")
  {
    hide PlainLiteral, Plain, Ascii, Escape, EscapedCharacters, CharactersText, CharactersBytes, GoodCharacters, StringText;
    var k := Ascii(key);
    EscapedString(k);
    PlainAscii(key);
    EscapePlain(k);
    AsciiQuoted(key);
  }

  lemma EscapedString(s: bytes)
    ensures var cs := EscapedCharacters(s);
            GoodCharacters(cs) && CharactersBytes(cs) == s && StringText(cs) == Escape(s)
  {
    EscapedCharactersSpell(s);
    assert [QUOTE] + (EscapeBody(s) + [QUOTE]) == Escape(s);
  }

  lemma AsciiQuoted(key: string)
    ensures [QUOTE] + Ascii(key) + [QUOTE] + [COLON] == Ascii("\"" + key + "\":")
  {
    AsciiConcat("\"", key);
    AsciiConcat("\"" + key, "\":");
    assert Ascii("\"") == [QUOTE] && Ascii("\":") == [QUOTE] + [COLON];
  }

  /** A quoted plain literal is what the escaper writes for it. */
  lemma QuotedLeafIs(s: string)
    requires PlainLiteral(s)
    ensures var v := TextLeaf(Ascii(s)); Good(v) && Text(v) == Quoted(s) && Denote(v) == String(Ascii(s)) && Depth(v) == 0
  {
    hide Good, Text, Denote, Depth, TextLeaf, PlainLiteral;
    TextLeafIs(Ascii(s));
    PlainAscii(s);
    EscapePlain(Ascii(s));
    AsciiConcat("\"", s);
    AsciiConcat("\"" + s, "\"");
    assert Ascii("\"") == [QUOTE];
  }

  /** An object of a text that is known. */
  lemma ObjectIs(ms: Members, text: bytes)
    requires GoodMembers(ms) && [OPEN_BRACE] + MembersText(ms) == text
    ensures var v := ObjectTree(ms); Good(v) && Text(v) == text && Denote(v) == Object(DenoteMembers(ms)) && Depth(v) == 1 + MembersDepth(ms)
  {
  }

  /** A text that spells a shallow tree parses to the tree's value. */
  lemma ParseBuilt(text: bytes, v: Tree)
    requires Good(v) && Depth(v) <= MAXIMUM_DEPTH && text == Text(v)
    ensures ReadText(text) == Got(Denote(v), |text|)
  {
    hide Good, Text, Denote, Depth, ReadText;
    assert [] + Text(v) + [] == text;
    assert Spells([], v, [], text);
    JsonComplete.Complete(text, Denote(v));
  }
}
