/** A completion nested inside a chat_response frame comes back whole. */
module CompletionRoundTrip {
  import opened ByteStrings
  import opened JsonGrammar
  import opened JsonSpec
  import opened JsonEscape
  import opened Messages
  import opened RoundTrip

  // ---- What a parsed completion holds ----

  predicate HasUsage(v: Json, result: GenerateResult) {
    && HasInt(v, "prompt_tokens", result.promptTokens) && HasInt(v, "completion_tokens", result.generatedTokens)
    && HasInt(v, "total_tokens", result.promptTokens + result.generatedTokens)
  }

  predicate HasChoice(v: Json, result: GenerateResult) {
    && HasInt(v, "index", 0)
    && HasText(v, "finish_reason", Ascii(if result.finishReason == Length then "length" else "stop"))
    && v.Find(Ascii("message")).Some?
    && var message := v.Find(Ascii("message")).value;
    HasText(message, "role", Ascii("assistant")) && HasText(message, "content", result.text)
  }

  ghost predicate IsCompletion(v: Json, model: bytes, result: GenerateResult, serial: uint64, created: int64) {
    && HasText(v, "id", Ascii("chatcmpl-lite-") + NatText(serial)) && HasText(v, "object", Ascii("chat.completion"))
    && HasInt(v, "created", created) && HasText(v, "model", model)
    && (exists choice :: v.Find(Ascii("choices")) == Some(Array([choice])) && HasChoice(choice, result))
    && v.Find(Ascii("usage")).Some? && HasUsage(v.Find(Ascii("usage")).value, result)
  }

  // ---- Trees ----

  function UsageTree(result: GenerateResult): Members {
    Field("prompt_tokens", IntLeaf(result.promptTokens),
      Field("completion_tokens", IntLeaf(result.generatedTokens),
        LastField("total_tokens", IntLeaf(TotalTokens(result)))))
  }

  function MessageTree(text: bytes): Members {
    Field("role", TextLeaf(Ascii("assistant")), LastField("content", TextLeaf(text)))
  }

  function ChoiceTree(result: GenerateResult): Members {
    Field("index", IntLeaf(0),
      Field("message", ObjectTree(MessageTree(result.text)),
        LastField("finish_reason", TextLeaf(Ascii(FinishText(result.finishReason))))))
  }

  function CompletionTree(model: bytes, result: GenerateResult, serial: uint64, created: int64): Members {
    Field("id", TextLeaf(CompletionId(serial)),
      Field("object", TextLeaf(Ascii("chat.completion")),
        Field("created", IntLeaf(created),
          Field("model", TextLeaf(model),
            Field("choices", OneElement(ObjectTree(ChoiceTree(result))),
              LastField("usage", ObjectTree(UsageTree(result))))))))
  }

  lemma UsagePlains()
    ensures PlainLiteral("prompt_tokens") && PlainLiteral("completion_tokens") && PlainLiteral("total_tokens")
  {
  }

  lemma MessagePlains()
    ensures PlainLiteral("role") && PlainLiteral("assistant") && PlainLiteral("content")
  {
  }

  lemma ChoicePlains()
    ensures PlainLiteral("index") && PlainLiteral("message") && PlainLiteral("finish_reason")
  {
  }

  lemma CompletionPlains()
    ensures PlainLiteral("id") && PlainLiteral("object") && PlainLiteral("created") && PlainLiteral("model")
    ensures PlainLiteral("choices") && PlainLiteral("usage") && PlainLiteral("chat.completion")
  {
  }

  lemma UsageSpells(result: GenerateResult)
    ensures var ms := UsageTree(result);
            && GoodMembers(ms) && MembersDepth(ms) == 0
            && [OPEN_BRACE] + MembersText(ms) == UsageText(result)
            && DenoteMembers(ms) ==
               map[Ascii("prompt_tokens") := Number(Decimal(result.promptTokens, 0))] +
                 (map[Ascii("completion_tokens") := Number(Decimal(result.generatedTokens, 0))] +
                   map[Ascii("total_tokens") := Number(Decimal(TotalTokens(result), 0))])
  {
    hide IntText, Text, Good, Denote, Depth, MembersText, GoodMembers, DenoteMembers, MembersDepth, IntLeaf, Field, LastField;
    hide Ascii, PlainLiteral, FirstKey, NextKey, TotalTokens;
    UsagePlains();
    IntLeafIs(result.promptTokens);
    IntLeafIs(result.generatedTokens);
    IntLeafIs(TotalTokens(result));
    var m3 := LastField("total_tokens", IntLeaf(TotalTokens(result)));
    LastFieldIs("total_tokens", IntLeaf(TotalTokens(result)));
    var m2 := Field("completion_tokens", IntLeaf(result.generatedTokens), m3);
    FieldIs("completion_tokens", IntLeaf(result.generatedTokens), m3);
    FieldIs("prompt_tokens", IntLeaf(result.promptTokens), m2);
    RegroupThree(FirstKey("prompt_tokens"), IntText(result.promptTokens), NextKey("completion_tokens"), IntText(result.generatedTokens),
                 NextKey("total_tokens"), IntText(TotalTokens(result)), Ascii("}"));
  }

  lemma MessageSpells(text: bytes)
    ensures var ms := MessageTree(text);
            && GoodMembers(ms) && MembersDepth(ms) == 0
            && [OPEN_BRACE] + MembersText(ms) == MessageText(text)
            && DenoteMembers(ms) == map[Ascii("role") := String(Ascii("assistant"))] + map[Ascii("content") := String(text)]
  {
    hide Escape, Text, Good, Denote, Depth, MembersText, GoodMembers, DenoteMembers, MembersDepth, TextLeaf, Field, LastField;
    hide Ascii, PlainLiteral, FirstKey, NextKey, Quoted;
    MessagePlains();
    QuotedLeafIs("assistant");
    TextLeafIs(text);
    var m2 := LastField("content", TextLeaf(text));
    LastFieldIs("content", TextLeaf(text));
    FieldIs("role", TextLeaf(Ascii("assistant")), m2);
    RegroupTwo(FirstKey("role"), Quoted("assistant"), NextKey("content"), Escape(text), Ascii("}"));
  }

  lemma ChoiceSpells(result: GenerateResult)
    ensures var ms := ChoiceTree(result);
            && GoodMembers(ms) && MembersDepth(ms) == 1
            && [OPEN_BRACE] + MembersText(ms) == ChoiceText(result)
            && GoodMembers(MessageTree(result.text))
            && DenoteMembers(ms) ==
               map[Ascii("index") := Number(Decimal(0, 0))] + (map[Ascii("message") := Object(DenoteMembers(MessageTree(result.text)))] +
                 map[Ascii("finish_reason") := String(Ascii(FinishText(result.finishReason)))])
  {
    hide Escape, Text, Good, Denote, Depth, MembersText, GoodMembers, DenoteMembers, MembersDepth, TextLeaf, IntLeaf, Field, LastField;
    hide Ascii, PlainLiteral, FirstKey, NextKey, FinishText, MessageText, MessageTree;
    ChoicePlains();
    var message, finish := ObjectTree(MessageTree(result.text)), Ascii(FinishText(result.finishReason));
    MessageSpells(result.text);
    ObjectIs(MessageTree(result.text), MessageText(result.text));
    IntLeafIs(0);
    assert IntText(0) == Ascii("0");
    TextLeafIs(finish);
    var m3 := LastField("finish_reason", TextLeaf(finish));
    LastFieldIs("finish_reason", TextLeaf(finish));
    var m2 := Field("message", message, m3);
    FieldIs("message", message, m3);
    FieldIs("index", IntLeaf(0), m2);
    RegroupThree(FirstKey("index"), Ascii("0"), NextKey("message"), MessageText(result.text), NextKey("finish_reason"), Escape(finish), Ascii("}"));
  }

  /** An array of one object. */
  lemma OneObjectIs(ms: Members, text: bytes)
    requires GoodMembers(ms) && [OPEN_BRACE] + MembersText(ms) == text
    ensures var v := OneElement(ObjectTree(ms));
            && Good(v) && Text(v) == [OPEN_BRACKET] + text + [CLOSE_BRACKET] && Depth(v) == 2 + MembersDepth(ms)
            && Denote(v) == Array([Object(DenoteMembers(ms))])
  {
    hide MembersText, GoodMembers, DenoteMembers, MembersDepth;
    var es := LastElement([], ObjectTree(ms), []);
    assert [] + (text + ([] + [CLOSE_BRACKET])) == text + [CLOSE_BRACKET];
    assert ElementsText(es) == text + [CLOSE_BRACKET];
    assert ElementsDepth(es) == Depth(ObjectTree(ms)) == 1 + MembersDepth(ms);
    assert [OPEN_BRACKET] + (text + [CLOSE_BRACKET]) == [OPEN_BRACKET] + text + [CLOSE_BRACKET];
    assert DenoteElements(es) == [Object(DenoteMembers(ms))] + [];
  }

  lemma RegroupSix(k1: bytes, a: bytes, k2: bytes, b: bytes, k3: bytes, c: bytes, k4: bytes, d: bytes, k5: bytes, e: bytes, k6: bytes, f: bytes, close: bytes)
    ensures k1 + (a + (k2 + (b + (k3 + (c + (k4 + (d + (k5 + (e + (k6 + (f + close)))))))))))
         == k1 + a + k2 + b + k3 + c + k4 + d + k5 + e + k6 + f + close
  {
    var x := k6 + (f + close);
    assert k1 + (a + (k2 + (b + (k3 + (c + (k4 + (d + (k5 + (e + x))))))))) == k1 + a + k2 + b + k3 + c + k4 + d + k5 + e + x;
  }

  lemma CompletionSpells(model: bytes, result: GenerateResult, serial: uint64, created: int64)
    ensures var ms := CompletionTree(model, result, serial, created);
            && GoodMembers(ms) && MembersDepth(ms) == 3
            && [OPEN_BRACE] + MembersText(ms) == CompletionResponse(model, result, serial, created).body
            && GoodMembers(ChoiceTree(result)) && GoodMembers(UsageTree(result))
            && DenoteMembers(ms) ==
               map[Ascii("id") := String(CompletionId(serial))] + (map[Ascii("object") := String(Ascii("chat.completion"))] +
                 (map[Ascii("created") := Number(Decimal(created, 0))] + (map[Ascii("model") := String(model)] +
                   (map[Ascii("choices") := Array([Object(DenoteMembers(ChoiceTree(result)))])] +
                     map[Ascii("usage") := Object(DenoteMembers(UsageTree(result)))]))))
  {
    hide Escape, IntText, Text, Good, Denote, Depth, MembersText, GoodMembers, DenoteMembers, MembersDepth, TextLeaf, IntLeaf, Field, LastField;
    hide Ascii, PlainLiteral, FirstKey, NextKey, Quoted, UsageText, ChoiceText, UsageTree, ChoiceTree, OneElement, CompletionId;
    CompletionPlains();
    UsageSpells(result);
    ChoiceSpells(result);
    var usage, choices := ObjectTree(UsageTree(result)), OneElement(ObjectTree(ChoiceTree(result)));
    ObjectIs(UsageTree(result), UsageText(result));
    OneObjectIs(ChoiceTree(result), ChoiceText(result));
    TextLeafIs(CompletionId(serial));
    QuotedLeafIs("chat.completion");
    IntLeafIs(created);
    TextLeafIs(model);
    var m6 := LastField("usage", usage);
    LastFieldIs("usage", usage);
    var m5 := Field("choices", choices, m6);
    FieldIs("choices", choices, m6);
    var m4 := Field("model", TextLeaf(model), m5);
    FieldIs("model", TextLeaf(model), m5);
    var m3 := Field("created", IntLeaf(created), m4);
    FieldIs("created", IntLeaf(created), m4);
    var m2 := Field("object", TextLeaf(Ascii("chat.completion")), m3);
    FieldIs("object", TextLeaf(Ascii("chat.completion")), m3);
    FieldIs("id", TextLeaf(CompletionId(serial)), m2);
    RegroupSix(FirstKey("id"), Escape(CompletionId(serial)), NextKey("object"), Quoted("chat.completion"), NextKey("created"), IntText(created),
               NextKey("model"), Escape(model), NextKey("choices"), [OPEN_BRACKET] + ChoiceText(result) + [CLOSE_BRACKET],
               NextKey("usage"), UsageText(result), Ascii("}"));
  }

  // ---- Keys of one object differ ----

  lemma UsageDistinct()
    ensures Ascii("prompt_tokens") != Ascii("completion_tokens") && Ascii("prompt_tokens") != Ascii("total_tokens")
    ensures Ascii("completion_tokens") != Ascii("total_tokens")
  {
  }

  lemma ChoiceDistinct()
    ensures Ascii("index") != Ascii("message") && Ascii("index") != Ascii("finish_reason") && Ascii("message") != Ascii("finish_reason")
    ensures Ascii("role") != Ascii("content")
  {
  }

  lemma CompletionDistinct()
    ensures Ascii("id") != Ascii("object") && Ascii("id") != Ascii("created") && Ascii("id") != Ascii("model")
    ensures Ascii("id") != Ascii("choices") && Ascii("id") != Ascii("usage") && Ascii("object") != Ascii("created")
    ensures Ascii("object") != Ascii("model") && Ascii("object") != Ascii("choices") && Ascii("object") != Ascii("usage")
    ensures Ascii("created") != Ascii("model") && Ascii("created") != Ascii("choices") && Ascii("created") != Ascii("usage")
    ensures Ascii("model") != Ascii("choices") && Ascii("model") != Ascii("usage") && Ascii("choices") != Ascii("usage")
  {
    assert Ascii("model")[0] != Ascii("usage")[0];
    assert Ascii("created")[1] != Ascii("choices")[1];
  }

  lemma UsageHolds(result: GenerateResult)
    ensures GoodMembers(UsageTree(result)) && HasUsage(Object(DenoteMembers(UsageTree(result))), result)
  {
    hide DenoteMembers, GoodMembers, UsageTree, Ascii, Json.Find;
    UsageSpells(result);
    UsageDistinct();
    LookupThree(Ascii("prompt_tokens"), Number(Decimal(result.promptTokens, 0)),
                Ascii("completion_tokens"), Number(Decimal(result.generatedTokens, 0)),
                Ascii("total_tokens"), Number(Decimal(TotalTokens(result), 0)));
  }

  lemma ChoiceHolds(result: GenerateResult)
    ensures GoodMembers(ChoiceTree(result)) && HasChoice(Object(DenoteMembers(ChoiceTree(result))), result)
  {
    hide DenoteMembers, GoodMembers, ChoiceTree, MessageTree, Ascii;
    ChoiceSpells(result);
    MessageSpells(result.text);
    ChoiceDistinct();
  }

  lemma CompletionLookup(id: Json, object_: Json, created: Json, model: Json, choices: Json, usage: Json)
    ensures var v := Object(map[Ascii("id") := id] + (map[Ascii("object") := object_] + (map[Ascii("created") := created] +
                       (map[Ascii("model") := model] + (map[Ascii("choices") := choices] + map[Ascii("usage") := usage])))));
            && v.Find(Ascii("id")) == Some(id) && v.Find(Ascii("object")) == Some(object_) && v.Find(Ascii("created")) == Some(created)
            && v.Find(Ascii("model")) == Some(model) && v.Find(Ascii("choices")) == Some(choices) && v.Find(Ascii("usage")) == Some(usage)
  {
    hide Ascii;
    CompletionDistinct();
    var m5 := map[Ascii("choices") := choices] + map[Ascii("usage") := usage];
    var m3 := map[Ascii("created") := created] + (map[Ascii("model") := model] + m5);
    LookupBehind(Ascii("created"), created, Ascii("model"), model, m5);
    LookupBehind(Ascii("id"), id, Ascii("object"), object_, m3);
  }

  /** A parsed completion: identifier, model, text, finish reason and the exact, unbounded sum of the counts. */
  lemma ParseCompletion(model: bytes, result: GenerateResult, serial: uint64, created: int64)
    ensures var r := ReadText(CompletionResponse(model, result, serial, created).body);
            r.Got? && IsCompletion(r.value, model, result, serial, created)
  {
    hide Text, Good, Denote, Depth, ReadText, CompletionResponse, MembersText, GoodMembers, DenoteMembers, MembersDepth, CompletionTree, ChoiceTree, UsageTree;
    hide Ascii, HasUsage, HasChoice, Json.Find;
    CompletionSpells(model, result, serial, created);
    ObjectIs(CompletionTree(model, result, serial, created), CompletionResponse(model, result, serial, created).body);
    ParseBuilt(CompletionResponse(model, result, serial, created).body, ObjectTree(CompletionTree(model, result, serial, created)));
    CompletionLookup(String(CompletionId(serial)), String(Ascii("chat.completion")), Number(Decimal(created, 0)), String(model),
                     Array([Object(DenoteMembers(ChoiceTree(result)))]), Object(DenoteMembers(UsageTree(result))));
    UsageHolds(result);
    ChoiceHolds(result);
    var choice := Object(DenoteMembers(ChoiceTree(result)));
    assert HasChoice(choice, result);
  }

  /** The completion travels as a string inside the frame; parsing twice gives back everything that was put in. */
  lemma DoubleEncoding(id: bytes, status: int32, contentType: bytes, model: bytes, result: GenerateResult, serial: uint64, created: int64)
    ensures var body := CompletionResponse(model, result, serial, created).body;
            var frame := ReadText(BuildChatResponse(id, status, contentType, body));
            && frame.Got? && HasText(frame.value, "id", id) && HasInt(frame.value, "status", status)
            && HasText(frame.value, "content_type", contentType)
            && frame.value.Find(Ascii("body")).Some? && frame.value.Find(Ascii("body")).value.String?
            && var inner := ReadText(frame.value.Find(Ascii("body")).value.s);
            inner.Got? && IsCompletion(inner.value, model, result, serial, created)
  {
    hide ReadText, CompletionResponse, BuildChatResponse, IsCompletion, Ascii;
    ParseCompletion(model, result, serial, created);
    ParseChatResponse(id, status, contentType, CompletionResponse(model, result, serial, created).body);
  }
}
