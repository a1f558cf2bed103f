/** What a peer gets back when it parses the messages of the facade and of the server. */
module RoundTrip {
  import opened ByteStrings
  import opened JsonGrammar
  import opened JsonSpec
  import opened JsonEscape
  import opened Messages

  /** The value has the string `s` under the literal key `key`. */
  predicate HasText(v: Json, key: string, s: bytes) { v.Find(Ascii(key)) == Some(String(s)) }

  predicate HasInt(v: Json, key: string, n: int) { v.Find(Ascii(key)) == Some(Number(Decimal(n, 0))) }

  lemma Plains()
    ensures PlainLiteral("type") && PlainLiteral("id") && PlainLiteral("status") && PlainLiteral("content_type") && PlainLiteral("body")
    ensures PlainLiteral("chat_response") && PlainLiteral("error") && PlainLiteral("message")
  {
  }

  lemma MorePlains()
    ensures PlainLiteral("lite_llm_error") && PlainLiteral("code") && PlainLiteral("hello") && PlainLiteral("protocol") && PlainLiteral("auth_token")
  {
  }

  // ---- Lookups ----

  lemma LookupTwo(a: bytes, x: Json, b: bytes, y: Json)
    requires a != b
    ensures var v := Object(map[a := x] + map[b := y]); v.Find(a) == Some(x) && v.Find(b) == Some(y)
  {
  }

  lemma LookupThree(a: bytes, x: Json, b: bytes, y: Json, c: bytes, z: Json)
    requires a != b && a != c && b != c
    ensures var v := Object(map[a := x] + (map[b := y] + map[c := z])); v.Find(a) == Some(x) && v.Find(b) == Some(y) && v.Find(c) == Some(z)
  {
  }

  /** Two further keys in front of an object leave its lookups as they are. */
  lemma LookupBehind(a: bytes, x: Json, b: bytes, y: Json, rest: map<bytes, Json>)
    requires a != b && a !in rest && b !in rest
    ensures var m := map[a := x] + (map[b := y] + rest);
            && Object(m).Find(a) == Some(x) && Object(m).Find(b) == Some(y) && m.Keys == {a, b} + rest.Keys
            && forall c :: c in rest ==> Object(m).Find(c) == Object(rest).Find(c)
  {
  }

  // ---- chat_response ----

  function ChatResponseTree(id: bytes, status: int32, contentType: bytes, body: bytes): Members {
    Field("type", TextLeaf(Ascii("chat_response")),
      Field("id", TextLeaf(id),
        Field("status", IntLeaf(status),
          Field("content_type", TextLeaf(contentType),
            LastField("body", TextLeaf(body))))))
  }

  lemma RegroupFive(k1: bytes, a: bytes, k2: bytes, b: bytes, k3: bytes, c: bytes, k4: bytes, d: bytes, k5: bytes, e: bytes, close: bytes)
    ensures k1 + (a + (k2 + (b + (k3 + (c + (k4 + (d + (k5 + (e + close)))))))))
         == k1 + a + k2 + b + k3 + c + k4 + d + k5 + e + close
  {
  }

  lemma ChatResponseSpells(id: bytes, status: int32, contentType: bytes, body: bytes)
    ensures var ms := ChatResponseTree(id, status, contentType, body);
            && GoodMembers(ms) && MembersDepth(ms) == 0
            && [OPEN_BRACE] + MembersText(ms) == BuildChatResponse(id, status, contentType, body)
            && DenoteMembers(ms) ==
               map[Ascii("type") := String(Ascii("chat_response"))] + (map[Ascii("id") := String(id)] +
                 (map[Ascii("status") := Number(Decimal(status, 0))] +
                   (map[Ascii("content_type") := String(contentType)] + map[Ascii("body") := String(body)])))
  {
    hide Escape, IntText, Text, Good, Denote, Depth, MembersText, GoodMembers, DenoteMembers, MembersDepth, TextLeaf, IntLeaf, Field, LastField;
    hide Ascii, PlainLiteral, FirstKey, NextKey, Quoted;
    Plains();
    QuotedLeafIs("chat_response");
    TextLeafIs(id);
    IntLeafIs(status);
    TextLeafIs(contentType);
    TextLeafIs(body);
    var m5 := LastField("body", TextLeaf(body));
    LastFieldIs("body", TextLeaf(body));
    var m4 := Field("content_type", TextLeaf(contentType), m5);
    FieldIs("content_type", TextLeaf(contentType), m5);
    var m3 := Field("status", IntLeaf(status), m4);
    FieldIs("status", IntLeaf(status), m4);
    var m2 := Field("id", TextLeaf(id), m3);
    FieldIs("id", TextLeaf(id), m3);
    FieldIs("type", TextLeaf(Ascii("chat_response")), m2);
    RegroupFive(FirstKey("type"), Quoted("chat_response"), NextKey("id"), Escape(id), NextKey("status"), IntText(status),
                NextKey("content_type"), Escape(contentType), NextKey("body"), Escape(body), Ascii("}"));
  }

  lemma ChatResponseDistinct()
    ensures Ascii("type") != Ascii("id") && Ascii("type") != Ascii("status") && Ascii("type") != Ascii("content_type")
    ensures Ascii("type") != Ascii("body") && Ascii("id") != Ascii("status") && Ascii("id") != Ascii("content_type")
    ensures Ascii("id") != Ascii("body") && Ascii("status") != Ascii("content_type") && Ascii("status") != Ascii("body")
    ensures Ascii("content_type") != Ascii("body")
  {
    assert Ascii("type")[0] != Ascii("body")[0];
  }

  /** A parsed chat_response frame: every field is what was put in. */
  lemma ParseChatResponse(id: bytes, status: int32, contentType: bytes, body: bytes)
    ensures var r := ReadText(BuildChatResponse(id, status, contentType, body));
            && r.Got?
            && HasText(r.value, "type", Ascii("chat_response")) && HasText(r.value, "id", id)
            && HasInt(r.value, "status", status) && HasText(r.value, "content_type", contentType)
            && HasText(r.value, "body", body)
  {
    hide Text, Good, Denote, Depth, ReadText, BuildChatResponse, MembersText, GoodMembers, DenoteMembers, MembersDepth, ChatResponseTree, Ascii, Json.Find;
    ChatResponseSpells(id, status, contentType, body);
    ChatResponseDistinct();
    var tail := map[Ascii("content_type") := String(contentType)] + map[Ascii("body") := String(body)];
    var rest := map[Ascii("status") := Number(Decimal(status, 0))] + tail;
    LookupThree(Ascii("status"), Number(Decimal(status, 0)), Ascii("content_type"), String(contentType), Ascii("body"), String(body));
    LookupBehind(Ascii("type"), String(Ascii("chat_response")), Ascii("id"), String(id), rest);
    ObjectIs(ChatResponseTree(id, status, contentType, body), BuildChatResponse(id, status, contentType, body));
    ParseBuilt(BuildChatResponse(id, status, contentType, body), ObjectTree(ChatResponseTree(id, status, contentType, body)));
  }

  // ---- error frames ----

  function ErrorTree(id: bytes, status: int32, message: bytes): Members {
    Field("type", TextLeaf(Ascii("error")),
      Field("id", TextLeaf(id),
        Field("status", IntLeaf(status),
          LastField("message", TextLeaf(message)))))
  }

  lemma RegroupFour(k1: bytes, a: bytes, k2: bytes, b: bytes, k3: bytes, c: bytes, k4: bytes, d: bytes, close: bytes)
    ensures k1 + (a + (k2 + (b + (k3 + (c + (k4 + (d + close))))))) == k1 + a + k2 + b + k3 + c + k4 + d + close
  {
  }

  lemma ErrorSpells(id: bytes, status: int32, message: bytes)
    ensures var ms := ErrorTree(id, status, message);
            && GoodMembers(ms) && MembersDepth(ms) == 0
            && [OPEN_BRACE] + MembersText(ms) == BuildError(id, status, message)
            && DenoteMembers(ms) ==
               map[Ascii("type") := String(Ascii("error"))] + (map[Ascii("id") := String(id)] +
                 (map[Ascii("status") := Number(Decimal(status, 0))] + map[Ascii("message") := String(message)]))
  {
    hide Escape, IntText, Text, Good, Denote, Depth, MembersText, GoodMembers, DenoteMembers, MembersDepth, TextLeaf, IntLeaf, Field, LastField;
    hide Ascii, PlainLiteral, FirstKey, NextKey, Quoted;
    Plains();
    QuotedLeafIs("error");
    TextLeafIs(id);
    IntLeafIs(status);
    TextLeafIs(message);
    var m4 := LastField("message", TextLeaf(message));
    LastFieldIs("message", TextLeaf(message));
    var m3 := Field("status", IntLeaf(status), m4);
    FieldIs("status", IntLeaf(status), m4);
    var m2 := Field("id", TextLeaf(id), m3);
    FieldIs("id", TextLeaf(id), m3);
    FieldIs("type", TextLeaf(Ascii("error")), m2);
    RegroupFour(FirstKey("type"), Quoted("error"), NextKey("id"), Escape(id), NextKey("status"), IntText(status),
                NextKey("message"), Escape(message), Ascii("}"));
  }

  lemma ErrorDistinct()
    ensures Ascii("type") != Ascii("id") && Ascii("type") != Ascii("status") && Ascii("type") != Ascii("message")
    ensures Ascii("id") != Ascii("status") && Ascii("id") != Ascii("message") && Ascii("status") != Ascii("message")
  {
  }

  lemma ParseError(id: bytes, status: int32, message: bytes)
    ensures var r := ReadText(BuildError(id, status, message));
            && r.Got?
            && HasText(r.value, "type", Ascii("error")) && HasText(r.value, "id", id)
            && HasInt(r.value, "status", status) && HasText(r.value, "message", message)
  {
    hide Text, Good, Denote, Depth, ReadText, BuildError, MembersText, GoodMembers, DenoteMembers, MembersDepth, ErrorTree, Ascii, Json.Find;
    ErrorSpells(id, status, message);
    ErrorDistinct();
    var rest := map[Ascii("status") := Number(Decimal(status, 0))] + map[Ascii("message") := String(message)];
    LookupTwo(Ascii("status"), Number(Decimal(status, 0)), Ascii("message"), String(message));
    LookupBehind(Ascii("type"), String(Ascii("error")), Ascii("id"), String(id), rest);
    ObjectIs(ErrorTree(id, status, message), BuildError(id, status, message));
    ParseBuilt(BuildError(id, status, message), ObjectTree(ErrorTree(id, status, message)));
  }

  // ---- hello ----

  function HelloTree(token: bytes): Members {
    Field("type", TextLeaf(Ascii("hello")),
      Field("protocol", IntLeaf(1),
        LastField("auth_token", TextLeaf(token))))
  }

  lemma RegroupThree(k1: bytes, a: bytes, k2: bytes, b: bytes, k3: bytes, c: bytes, close: bytes)
    ensures k1 + (a + (k2 + (b + (k3 + (c + close))))) == k1 + a + k2 + b + k3 + c + close
  {
  }

  lemma HelloSpells(token: bytes)
    ensures var ms := HelloTree(token);
            && GoodMembers(ms) && MembersDepth(ms) == 0
            && [OPEN_BRACE] + MembersText(ms) == BuildHello(token)
            && DenoteMembers(ms) ==
               map[Ascii("type") := String(Ascii("hello"))] + (map[Ascii("protocol") := Number(Decimal(1, 0))] +
                 map[Ascii("auth_token") := String(token)])
  {
    hide Escape, Text, Good, Denote, Depth, MembersText, GoodMembers, DenoteMembers, MembersDepth, TextLeaf, IntLeaf, Field, LastField;
    hide Ascii, PlainLiteral, FirstKey, NextKey, Quoted;
    Plains();
    MorePlains();
    QuotedLeafIs("hello");
    IntLeafIs(1);
    TextLeafIs(token);
    assert IntText(1) == Ascii("1");
    var m3 := LastField("auth_token", TextLeaf(token));
    LastFieldIs("auth_token", TextLeaf(token));
    var m2 := Field("protocol", IntLeaf(1), m3);
    FieldIs("protocol", IntLeaf(1), m3);
    FieldIs("type", TextLeaf(Ascii("hello")), m2);
    RegroupThree(FirstKey("type"), Quoted("hello"), NextKey("protocol"), Ascii("1"), NextKey("auth_token"), Escape(token), Ascii("}"));
  }

  lemma HelloDistinct()
    ensures Ascii("type") != Ascii("protocol") && Ascii("type") != Ascii("auth_token") && Ascii("protocol") != Ascii("auth_token")
  {
  }

  lemma ParseHello(token: bytes)
    ensures var r := ReadText(BuildHello(token));
            && r.Got? && HasText(r.value, "type", Ascii("hello"))
            && HasInt(r.value, "protocol", 1) && HasText(r.value, "auth_token", token)
  {
    hide Text, Good, Denote, Depth, ReadText, BuildHello, MembersText, GoodMembers, DenoteMembers, MembersDepth, HelloTree, Ascii, Json.Find;
    HelloSpells(token);
    HelloDistinct();
    LookupThree(Ascii("type"), String(Ascii("hello")), Ascii("protocol"), Number(Decimal(1, 0)), Ascii("auth_token"), String(token));
    ObjectIs(HelloTree(token), BuildHello(token));
    ParseBuilt(BuildHello(token), ObjectTree(HelloTree(token)));
  }

  // ---- status and pong ----

  lemma StatusPlains()
    ensures PlainLiteral("type") && PlainLiteral("status") && PlainLiteral("state") && PlainLiteral("ready") && PlainLiteral("pong")
    ensures Ascii("type") != Ascii("state")
  {
    assert Ascii("type")[0] != Ascii("state")[0];
  }

  function StatusTree(): Members { Field("type", TextLeaf(Ascii("status")), LastField("state", TextLeaf(Ascii("ready")))) }

  lemma RegroupTwo(k1: bytes, a: bytes, k2: bytes, b: bytes, close: bytes)
    ensures k1 + (a + (k2 + (b + close))) == k1 + a + k2 + b + close
  {
  }

  lemma StatusSpells()
    ensures var ms := StatusTree();
            && GoodMembers(ms) && MembersDepth(ms) == 0 && [OPEN_BRACE] + MembersText(ms) == BuildReadyStatus()
            && DenoteMembers(ms) == map[Ascii("type") := String(Ascii("status"))] + map[Ascii("state") := String(Ascii("ready"))]
  {
    hide Text, Good, Denote, Depth, MembersText, GoodMembers, DenoteMembers, MembersDepth, TextLeaf, Field, LastField;
    hide Ascii, PlainLiteral, FirstKey, NextKey, Quoted;
    StatusPlains();
    QuotedLeafIs("status");
    QuotedLeafIs("ready");
    var m2 := LastField("state", TextLeaf(Ascii("ready")));
    LastFieldIs("state", TextLeaf(Ascii("ready")));
    FieldIs("type", TextLeaf(Ascii("status")), m2);
    RegroupTwo(FirstKey("type"), Quoted("status"), NextKey("state"), Quoted("ready"), Ascii("}"));
  }

  lemma ParseReadyStatus()
    ensures var r := ReadText(BuildReadyStatus());
            r.Got? && HasText(r.value, "type", Ascii("status")) && HasText(r.value, "state", Ascii("ready"))
  {
    hide Text, Good, Denote, Depth, ReadText, BuildReadyStatus, MembersText, GoodMembers, DenoteMembers, MembersDepth, StatusTree, Ascii, PlainLiteral, Json.Find;
    StatusSpells();
    StatusPlains();
    LookupTwo(Ascii("type"), String(Ascii("status")), Ascii("state"), String(Ascii("ready")));
    ObjectIs(StatusTree(), BuildReadyStatus());
    ParseBuilt(BuildReadyStatus(), ObjectTree(StatusTree()));
  }

  lemma ParsePong()
    ensures var r := ReadText(BuildPong()); r.Got? && HasText(r.value, "type", Ascii("pong"))
  {
    hide Escape, MembersText, GoodMembers, DenoteMembers, MembersDepth, TextLeaf, LastField, ReadText;
    hide Ascii, PlainLiteral, FirstKey, Quoted;
    StatusPlains();
    QuotedLeafIs("pong");
    var kind := TextLeaf(Ascii("pong"));
    var m1 := LastField("type", kind);
    LastFieldIs("type", kind);
    assert FirstKey("type") + (Quoted("pong") + Ascii("}")) == FirstKey("type") + Quoted("pong") + Ascii("}");
    ObjectIs(m1, BuildPong());
    ParseBuilt(BuildPong(), ObjectTree(m1));
  }

  // ---- Error bodies of the facade ----

  function ErrorDetailTree(code: bytes, message: bytes): Members {
    Field("message", TextLeaf(message),
      Field("type", TextLeaf(Ascii("lite_llm_error")),
        LastField("code", TextLeaf(code))))
  }

  lemma ErrorDetailSpells(code: bytes, message: bytes)
    ensures var ms := ErrorDetailTree(code, message);
            && GoodMembers(ms) && MembersDepth(ms) == 0
            && [OPEN_BRACE] + MembersText(ms) == ErrorDetail(code, message)
            && DenoteMembers(ms) ==
               map[Ascii("message") := String(message)] + (map[Ascii("type") := String(Ascii("lite_llm_error"))] +
                 map[Ascii("code") := String(code)])
  {
    hide Escape, Text, Good, Denote, Depth, MembersText, GoodMembers, DenoteMembers, MembersDepth, TextLeaf, Field, LastField;
    hide Ascii, PlainLiteral, FirstKey, NextKey, Quoted;
    Plains();
    MorePlains();
    QuotedLeafIs("lite_llm_error");
    TextLeafIs(message);
    TextLeafIs(code);
    var m3 := LastField("code", TextLeaf(code));
    LastFieldIs("code", TextLeaf(code));
    var m2 := Field("type", TextLeaf(Ascii("lite_llm_error")), m3);
    FieldIs("type", TextLeaf(Ascii("lite_llm_error")), m3);
    FieldIs("message", TextLeaf(message), m2);
    RegroupThree(FirstKey("message"), Escape(message), NextKey("type"), Quoted("lite_llm_error"), NextKey("code"), Escape(code), Ascii("}"));
  }

  lemma ErrorResponseSpells(statusCode: int32, code: bytes, message: bytes)
    ensures var detail := ObjectTree(ErrorDetailTree(code, message));
            var v := ObjectTree(LastField("error", detail));
            && Good(detail) && Good(v) && Depth(v) == 2 && Text(v) == ErrorResponse(statusCode, code, message).body
            && Denote(v) == Object(map[Ascii("error") := Denote(detail)])
            && Denote(detail) == Object(DenoteMembers(ErrorDetailTree(code, message)))
  {
    hide Text, Good, Denote, Depth, MembersText, GoodMembers, DenoteMembers, MembersDepth, LastField, ErrorDetailTree;
    hide Ascii, PlainLiteral, FirstKey, NextKey, ErrorDetail;
    Plains();
    ErrorDetailSpells(code, message);
    var detail := ErrorDetailTree(code, message);
    ObjectIs(detail, ErrorDetail(code, message));
    LastFieldIs("error", ObjectTree(detail));
    ObjectIs(LastField("error", ObjectTree(detail)), FirstKey("error") + (ErrorDetail(code, message) + Ascii("}")));
    assert FirstKey("error") + (ErrorDetail(code, message) + Ascii("}")) == FirstKey("error") + ErrorDetail(code, message) + Ascii("}");
  }

  lemma ErrorDetailDistinct()
    ensures Ascii("message") != Ascii("type") && Ascii("message") != Ascii("code") && Ascii("type") != Ascii("code")
  {
    assert Ascii("type")[0] != Ascii("code")[0];
  }

  /** A parsed error body, and the message the reverse client logs for it. */
  lemma ParseErrorResponse(statusCode: int32, code: bytes, message: bytes)
    ensures var response := ErrorResponse(statusCode, code, message);
            var r := ReadText(response.body);
            && r.Got? && r.value.Find(Ascii("error")).Some?
            && var error := r.value.Find(Ascii("error")).value;
            && HasText(error, "message", message) && HasText(error, "type", Ascii("lite_llm_error")) && HasText(error, "code", code)
            && LiteLlmErrorMessage(response) == message
  {
    hide ReadText, ErrorResponse, Text, Good, Denote, Depth, ErrorDetailTree, Ascii, LastField, DenoteMembers, MembersText, GoodMembers, MembersDepth;
    ErrorResponseSpells(statusCode, code, message);
    ErrorDetailSpells(code, message);
    ParseBuilt(ErrorResponse(statusCode, code, message).body, ObjectTree(LastField("error", ObjectTree(ErrorDetailTree(code, message)))));
    ErrorDetailDistinct();
  }

  /** A failed generation: the code and the message survive the trip, a missing message is replaced, and the HTTP status
      tells the caller's mistakes (400) and a lack of memory (503) from everything else (500). */
  lemma RuntimeErrorParses(result: GenerateResult)
    ensures var response := RuntimeErrorResponse(result);
            var r := ReadText(response.body);
            && LiteLlmErrorMessage(response) == (if result.error == [] then Ascii("inference failed") else result.error)
            && r.Got? && r.value.Find(Ascii("error")).Some?
            && HasText(r.value.Find(Ascii("error")).value, "code", FailureCode(result.status))
            && (response.statusCode == 400 <==> result.status.InvalidArgument? || result.status.ContextTooLong?)
            && (response.statusCode == 503 <==> result.status.OutOfMemory?)
            && (response.statusCode == 500 <==> result.status.InternalError? || result.status.Ok?)
  {
    hide ReadText, LiteLlmErrorMessage, Ascii, HasText, Json.Find;
    var message := if result.error == [] then Ascii("inference failed") else result.error;
    ParseErrorResponse(RuntimeErrorResponse(result).statusCode, FailureCode(result.status), message);
  }

  function FailureCode(status: GenerateStatus): bytes {
    match status
    case InvalidArgument => Ascii("invalid_argument")
    case ContextTooLong => Ascii("context_too_long")
    case OutOfMemory => Ascii("out_of_memory")
    case _ => Ascii("internal_error")
  }
}
