/** From the JSON of a chat request to the prompt and the generation settings. */
module Request {
  import opened ByteStrings
  import opened JsonGrammar
  import opened JsonSpec
  import opened JsonParser
  import JsonSound

  const MAXIMUM_MESSAGES := 1024
  const MAXIMUM_MODEL_BYTES := 256
  const MAXIMUM_SESSION_ID_BYTES := 256
  const MAXIMUM_NEW_TOKENS := 0x10_0000
  const MAXIMUM_ROLE_BYTES := 32

  datatype GenerationConfig = GenerationConfig(sessionId: bytes, maxNewTokens: nat, temperature: real)

  const DEFAULT_CONFIG := GenerationConfig([], 512, 0.7)

  datatype ParsedRequest = ParsedRequest(model: bytes, prompt: bytes, generation: GenerationConfig)

  datatype RequestError =
    | BadJson | NotAnObject | BadModel | BadTemperature | BadMaxTokens | BadExtension | BadSessionId
    | NoMessages | TooManyMessages | MessageNotAnObject | BadRole | NoContent | BadContent | NoTextParts

  datatype Result<+T> = Success(value: T) | Failure(error: RequestError)

  // ---- Content of one message ----

  /** The text of a text part; other parts are skipped. */
  function TextOf(part: Json): Option<bytes> {
    match (part.Find(Ascii("type")), part.Find(Ascii("text")))
    case (Some(String(kind)), Some(String(text))) => if kind == Ascii("text") then Some(text) else None
    case _ => None
  }

  function Texts(parts: seq<Json>): seq<bytes> {
    if parts == [] then []
    else
      var text := TextOf(parts[|parts| - 1]);
      Texts(parts[..|parts| - 1]) + if text.Some? then [text.value] else []
  }

  /** Empty texts in front leave no trace; later ones leave an empty line. */
  function WithoutLeadingEmpty(texts: seq<bytes>): seq<bytes> {
    if texts != [] && texts[0] == [] then WithoutLeadingEmpty(texts[1..]) else texts
  }

  function ContentOf(value: Json): Result<bytes> {
    match value
    case String(s) => Success(s)
    case Array(parts) =>
      var content := Joined(WithoutLeadingEmpty(Texts(parts)));
      if content == [] then Failure(NoTextParts) else Success(content)
    case _ => Failure(BadContent)
  }

  /** A part counts exactly when its type is text and it has a text. */
  lemma TextPart(part: Json, text: bytes)
    ensures TextOf(part) == Some(text) <==>
            exists fields: map<bytes, Json> ::
              && part == Object(fields) && Ascii("type") in fields && Ascii("text") in fields
              && fields[Ascii("type")] == String(Ascii("text")) && fields[Ascii("text")] == String(text)
  {
    hide Ascii;
    if TextOf(part) == Some(text) { assert part == Object(part.fields); }
  }

  /** A part that holds one text. */
  function PartOf(text: bytes): Json { Object(map[Ascii("type") := String(Ascii("text"))] + map[Ascii("text") := String(text)]) }

  function Parts(texts: seq<bytes>): seq<Json> { if texts == [] then [] else Parts(texts[..|texts| - 1]) + [PartOf(texts[|texts| - 1])] }

  lemma PartIsText(text: bytes)
    ensures TextOf(PartOf(text)) == Some(text)
  {
    assert Ascii("type")[1] != Ascii("text")[1];
  }

  lemma {:induction false} PartsAreTexts(texts: seq<bytes>)
    ensures Texts(Parts(texts)) == texts
    decreases |texts|
  {
    hide PartOf, TextOf;
    if texts != [] {
      var n := |texts| - 1;
      PartsAreTexts(texts[..n]);
      PartIsText(texts[n]);
      assert Parts(texts)[..|Parts(texts)| - 1] == Parts(texts[..n]);
    }
  }

  /** A string is the content itself; the texts of an array come back as the lines of the content. */
  lemma ContentReads(text: bytes, texts: seq<bytes>)
    requires texts != [] && texts[0] != [] && forall i :: 0 <= i < |texts| ==> 0x0A !in texts[i]
    ensures ContentOf(String(text)) == Success(text)
    ensures var content := ContentOf(Array(Parts(texts))); content.Success? && SplitLines(content.value) == texts
  {
    hide Parts, Texts, SplitLines, Joined;
    PartsAreTexts(texts);
    JoinedSplits(texts);
  }

  lemma {:induction false} OneMoreText(texts: seq<bytes>, text: bytes)
    ensures var before := WithoutLeadingEmpty(texts);
            && (before == [] || before[0] != [])
            && WithoutLeadingEmpty(texts + [text]) == if before == [] && text == [] then [] else before + [text]
    decreases |texts|
  {
    if texts != [] && texts[0] == [] {
      OneMoreText(texts[1..], text);
      assert (texts + [text])[1..] == texts[1..] + [text];
    } else if texts == [] {
      assert [text][1..] == [];
    }
  }

  lemma JoinedMore(lines: seq<bytes>, last: bytes)
    ensures Joined(lines + [last]) == if lines == [] then last else Joined(lines) + [0x0A] + last
  {
    assert (lines + [last])[..|lines|] == lines;
  }

  method ReadMessageContent(value: Json) returns (content: Result<bytes>)
    ensures content == ContentOf(value)
  {
    hide TextOf, Joined, WithoutLeadingEmpty;
    if value.String? {
      return Success(value.s);
    }
    if !value.Array? {
      return Failure(BadContent);
    }
    var combined: bytes := [];
    assert WithoutLeadingEmpty([]) == [] by { OneMoreText([], []); EmptyTexts(); }
    for i := 0 to |value.items|
      invariant combined == Joined(WithoutLeadingEmpty(Texts(value.items[..i])))
    {
      assert value.items[..i + 1][..i] == value.items[..i];
      ghost var texts := Texts(value.items[..i]);
      var text := TextOf(value.items[i]);
      if text == None {
        assert texts + [] == texts;
        continue;
      }
      OneMoreText(texts, text.value);
      JoinedMore(WithoutLeadingEmpty(texts), text.value);
      if combined != [] {
        combined := combined + [0x0A];
      }
      combined := combined + text.value;
    }
    assert value.items[..|value.items|] == value.items;
    if combined == [] {
      return Failure(NoTextParts);
    }
    return Success(combined);
  }

  lemma EmptyTexts()
    ensures WithoutLeadingEmpty([]) == []
  {
  }

  // ---- Messages ----

  datatype Section = Section(role: bytes, content: bytes)

  predicate IsRoleByte(b: byte) { 0x30 <= b <= 0x39 || 0x41 <= b <= 0x5A || 0x61 <= b <= 0x7A || b == 0x5F || b == 0x2D }

  predicate IsRoleValid(role: bytes) { 1 <= |role| <= MAXIMUM_ROLE_BYTES && forall i :: 0 <= i < |role| ==> IsRoleByte(role[i]) }

  function SectionOf(message: Json): Result<Section> {
    if !message.Object? then Failure(MessageNotAnObject)
    else
      match message.Find(Ascii("role"))
      case Some(String(role)) =>
        if !IsRoleValid(role) then Failure(BadRole)
        else
          (match message.Find(Ascii("content"))
           case None => Failure(NoContent)
           case Some(content) =>
             match ContentOf(content)
             case Failure(error) => Failure(error)
             case Success(text) => Success(Section(role, text)))
      case _ => Failure(BadRole)
  }

  /** Which messages make a section, and which one. */
  lemma SectionExactly(message: Json, role: bytes, content: bytes)
    ensures SectionOf(message) == Success(Section(role, content)) <==>
            exists fields: map<bytes, Json> ::
              && message == Object(fields) && Ascii("role") in fields && Ascii("content") in fields
              && fields[Ascii("role")] == String(role) && ContentOf(fields[Ascii("content")]) == Success(content)
              && 1 <= |role| <= 32 && forall i :: 0 <= i < |role| ==> IsRoleByte(role[i])
  {
    hide Ascii, ContentOf, IsRoleByte;
    if SectionOf(message) == Success(Section(role, content)) { assert message == Object(message.fields); }
  }

  /** One section for every message, in order; the first message in error fails the request. */
  function SectionsOf(messages: seq<Json>): Result<seq<Section>> {
    if messages == [] then Success([])
    else
      match SectionsOf(messages[..|messages| - 1])
      case Failure(error) => Failure(error)
      case Success(before) =>
        match SectionOf(messages[|messages| - 1])
        case Failure(error) => Failure(error)
        case Success(section) => Success(before + [section])
  }

  function SectionText(s: Section): bytes { Ascii("[") + s.role + Ascii("]\n") + s.content + Ascii("\n\n") }

  function SectionsText(sections: seq<Section>): bytes {
    if sections == [] then [] else SectionsText(sections[..|sections| - 1]) + SectionText(sections[|sections| - 1])
  }

  function PromptText(sections: seq<Section>): bytes { SectionsText(sections) + Ascii("[assistant]\n") }

  // ---- Settings ----

  /** `double` rounds a decimal as `strtod` does. */
  function TemperatureOf(root: Json, double: Decimal -> real): Result<real> {
    match root.Find(Ascii("temperature"))
    case None => Success(DEFAULT_CONFIG.temperature)
    case Some(Number(d)) => if double(d) < 0.0 || double(d) > 2.0 then Failure(BadTemperature) else Success(double(d))
    case _ => Failure(BadTemperature)
  }

  function MaxTokensField(root: Json): Option<Json> {
    if root.Find(Ascii("max_completion_tokens")).Some? then root.Find(Ascii("max_completion_tokens")) else root.Find(Ascii("max_tokens"))
  }

  function MaxTokensOf(root: Json, double: Decimal -> real): Result<nat> {
    match MaxTokensField(root)
    case None => Success(DEFAULT_CONFIG.maxNewTokens)
    case Some(value) =>
      var n := if value.Number? then double(value.d) else -1.0;
      if n < 1.0 || n > MAXIMUM_NEW_TOKENS as real || n.Floor as real != n then Failure(BadMaxTokens) else Success(n.Floor)
  }

  function SessionOf(root: Json): Result<bytes> {
    match root.Find(Ascii("lite_llm"))
    case None => Success(DEFAULT_CONFIG.sessionId)
    case Some(extension) =>
      if !extension.Object? then Failure(BadExtension)
      else
        match extension.Find(Ascii("session_id"))
        case None => Success(DEFAULT_CONFIG.sessionId)
        case Some(String(id)) => if id == [] || |id| > MAXIMUM_SESSION_ID_BYTES then Failure(BadSessionId) else Success(id)
        case _ => Failure(BadSessionId)
  }

  /** The settings are checked in this order. */
  function SettingsError(root: Json, double: Decimal -> real): RequestError
    requires TemperatureOf(root, double).Failure? || MaxTokensOf(root, double).Failure? || SessionOf(root).Failure?
  {
    if TemperatureOf(root, double).Failure? then TemperatureOf(root, double).error
    else if MaxTokensOf(root, double).Failure? then MaxTokensOf(root, double).error
    else SessionOf(root).error
  }

  method ReadGenerationConfig(root: Json, double: Decimal -> real) returns (config: Result<GenerationConfig>)
    ensures config.Success? <==> TemperatureOf(root, double).Success? && MaxTokensOf(root, double).Success? && SessionOf(root).Success?
    ensures config.Success? ==> config.value == GenerationConfig(SessionOf(root).value, MaxTokensOf(root, double).value, TemperatureOf(root, double).value)
    ensures config.Failure? ==> config.error == SettingsError(root, double)
    ensures config.Success? ==> 0.0 <= config.value.temperature <= 2.0 && 1 <= config.value.maxNewTokens <= MAXIMUM_NEW_TOKENS
    ensures config.Success? ==> |config.value.sessionId| <= MAXIMUM_SESSION_ID_BYTES
  {
    var read := DEFAULT_CONFIG;
    var temperature := root.Find(Ascii("temperature"));
    if temperature != None {
      if !temperature.value.Number? || double(temperature.value.d) < 0.0 || double(temperature.value.d) > 2.0 {
        return Failure(BadTemperature);
      }
      read := read.(temperature := double(temperature.value.d));
    }
    var maxTokens := root.Find(Ascii("max_completion_tokens"));
    if maxTokens == None {
      maxTokens := root.Find(Ascii("max_tokens"));
    }
    if maxTokens != None {
      var value := if maxTokens.value.Number? then double(maxTokens.value.d) else -1.0;
      if value < 1.0 || value > MAXIMUM_NEW_TOKENS as real || value.Floor as real != value {
        return Failure(BadMaxTokens);
      }
      read := read.(maxNewTokens := value.Floor);
    }
    var extension := root.Find(Ascii("lite_llm"));
    if extension == None {
      return Success(read);
    }
    if !extension.value.Object? {
      return Failure(BadExtension);
    }
    var sessionId := extension.value.Find(Ascii("session_id"));
    if sessionId == None {
      return Success(read);
    }
    if !sessionId.value.String? || sessionId.value.s == [] || |sessionId.value.s| > MAXIMUM_SESSION_ID_BYTES {
      return Failure(BadSessionId);
    }
    return Success(read.(sessionId := sessionId.value.s));
  }

  /** A field that is absent, or a number with this property. */
  ghost predicate NumberField(root: Json, key: string, double: Decimal -> real, x: real) {
    exists d :: root.Find(Ascii(key)) == Some(Number(d)) && double(d) == x
  }

  /** The temperature asked for lies in [0, 2]; 0.7 stands for none. */
  ghost predicate AsksTemperature(root: Json, double: Decimal -> real, t: real) {
    if root.Find(Ascii("temperature")).None? then t == 0.7 else NumberField(root, "temperature", double, t) && 0.0 <= t <= 2.0
  }

  /** The token limit asked for is a whole number in [1, 2^20]; `max_tokens` counts only without `max_completion_tokens`. */
  ghost predicate AsksTokens(root: Json, double: Decimal -> real, n: nat) {
    if root.Find(Ascii("max_completion_tokens")).Some? then NumberField(root, "max_completion_tokens", double, n as real) && 1 <= n <= 1048576
    else if root.Find(Ascii("max_tokens")).Some? then NumberField(root, "max_tokens", double, n as real) && 1 <= n <= 1048576
    else n == 512
  }

  /** The session is a string of 1 to 256 bytes inside the object `lite_llm`; it is empty without one. */
  ghost predicate AsksSession(root: Json, id: bytes) {
    match root.Find(Ascii("lite_llm"))
    case None => id == []
    case Some(extension) =>
      && extension.Object?
      && if extension.Find(Ascii("session_id")).None? then id == []
         else extension.Find(Ascii("session_id")) == Some(String(id)) && 1 <= |id| <= 256
  }

  /** The settings read are exactly those asked for. */
  lemma SettingsExactly(root: Json, double: Decimal -> real, t: real, n: nat, id: bytes)
    ensures TemperatureOf(root, double) == Success(t) <==> AsksTemperature(root, double, t)
    ensures MaxTokensOf(root, double) == Success(n) <==> AsksTokens(root, double, n)
    ensures SessionOf(root) == Success(id) <==> AsksSession(root, id)
  {
    hide Ascii;
    assert (n as real).Floor == n;
  }

  // ---- The request ----

  function ModelOf(root: Json): Result<bytes> {
    match root.Find(Ascii("model"))
    case None => Success(Ascii("lite-local"))
    case Some(String(model)) => if model == [] || |model| > MAXIMUM_MODEL_BYTES then Failure(BadModel) else Success(model)
    case _ => Failure(BadModel)
  }

  function MessagesOf(root: Json): Result<seq<Json>> {
    match root.Find(Ascii("messages"))
    case Some(Array(messages)) =>
      if messages == [] then Failure(NoMessages) else if |messages| > MAXIMUM_MESSAGES then Failure(TooManyMessages) else Success(messages)
    case _ => Failure(NoMessages)
  }

  /** The model is a string of 1 to 256 bytes, or `lite-local` without one; the messages are 1 to 1024. */
  lemma ModelAndMessagesExactly(root: Json, model: bytes, messages: seq<Json>)
    ensures ModelOf(root) == Success(model) <==>
            if root.Find(Ascii("model")).None? then model == Ascii("lite-local")
            else root.Find(Ascii("model")) == Some(String(model)) && 1 <= |model| <= 256
    ensures MessagesOf(root) == Success(messages) <==> root.Find(Ascii("messages")) == Some(Array(messages)) && 1 <= |messages| <= 1024
  {
    hide Ascii;
  }

  /** The request says everything that is needed, and says it well. */
  predicate Complete(root: Json, double: Decimal -> real) {
    && root.Object? && ModelOf(root).Success?
    && TemperatureOf(root, double).Success? && MaxTokensOf(root, double).Success? && SessionOf(root).Success?
    && MessagesOf(root).Success? && SectionsOf(MessagesOf(root).value).Success?
  }

  function RequestOf(root: Json, double: Decimal -> real): ParsedRequest
    requires Complete(root, double)
  {
    ParsedRequest(ModelOf(root).value, PromptText(SectionsOf(MessagesOf(root).value).value),
                  GenerationConfig(SessionOf(root).value, MaxTokensOf(root, double).value, TemperatureOf(root, double).value))
  }

  /** What an incomplete request is refused for: the first of its faults in this order. */
  function Fault(root: Json, double: Decimal -> real): RequestError
    requires !Complete(root, double)
  {
    if !root.Object? then NotAnObject
    else if ModelOf(root).Failure? then ModelOf(root).error
    else if TemperatureOf(root, double).Failure? || MaxTokensOf(root, double).Failure? || SessionOf(root).Failure? then SettingsError(root, double)
    else if MessagesOf(root).Failure? then MessagesOf(root).error
    else SectionsOf(MessagesOf(root).value).error
  }

  /** Succeeds exactly on texts that derive a complete request, and returns what it says; otherwise reports the first fault. */
  method ParseRequest(body: bytes, double: Decimal -> real) returns (request: Result<ParsedRequest>)
    ensures request.Success? <==> exists root :: Derives(body, root) && Complete(root, double)
    ensures request.Success? ==> exists root :: Derives(body, root) && Complete(root, double) && request.value == RequestOf(root, double)
    ensures request.Failure? ==> if request.error == BadJson then !exists root :: Derives(body, root)
                                 else exists root :: Derives(body, root) && !Complete(root, double) && request.error == Fault(root, double)
  {
    hide Derives, Complete, RequestOf, Fault;
    var ok, root, parseError := ParseJson(body);
    if !ok {
      return Failure(BadJson);
    }
    assert Derives(body, root) && forall w :: Derives(body, w) ==> w == root;
    NoFaultIsBadJson(root, double);
    request := ReadRequest(root, double);
  }

  /** The branches behind the parser. */
  method ReadRequest(root: Json, double: Decimal -> real) returns (request: Result<ParsedRequest>)
    ensures request == if Complete(root, double) then Success(RequestOf(root, double)) else Failure(Fault(root, double))
  {
    hide TemperatureOf, MaxTokensOf, SessionOf, SectionOf, SectionsText, SectionText, Ascii;
    if !root.Object? {
      return Failure(NotAnObject);
    }
    var model := root.Find(Ascii("model"));
    var name := Ascii("lite-local");
    if model != None {
      if !model.value.String? || model.value.s == [] || |model.value.s| > MAXIMUM_MODEL_BYTES {
        return Failure(BadModel);
      }
      name := model.value.s;
    }
    var config := ReadGenerationConfig(root, double);
    if config.Failure? {
      return Failure(config.error);
    }
    var list := root.Find(Ascii("messages"));
    if list == None || !list.value.Array? || list.value.items == [] {
      return Failure(NoMessages);
    }
    var messages := list.value.items;
    if |messages| > MAXIMUM_MESSAGES {
      return Failure(TooManyMessages);
    }
    var prompt := ReadMessages(messages);
    if prompt.Failure? {
      return Failure(prompt.error);
    }
    return Success(ParsedRequest(name, prompt.value, config.value));
  }

  lemma NoFaultIsBadJson(root: Json, double: Decimal -> real)
    ensures !Complete(root, double) ==> Fault(root, double) != BadJson
  {
    if MessagesOf(root).Success? { SectionFaults(MessagesOf(root).value); }
  }

  lemma {:induction false} SectionFaults(messages: seq<Json>)
    ensures SectionsOf(messages).Failure? ==> SectionsOf(messages).error != BadJson
    decreases |messages|
  {
    if messages != [] { SectionFaults(messages[..|messages| - 1]); }
  }

  /** The loop over the messages. */
  method ReadMessages(messages: seq<Json>) returns (prompt: Result<bytes>)
    ensures match SectionsOf(messages)
            case Failure(error) => prompt == Failure(error)
            case Success(sections) => prompt == Success(PromptText(sections))
  {
    var text: bytes := [];
    ghost var sections: seq<Section> := [];
    for i := 0 to |messages|
      invariant SectionsOf(messages[..i]) == Success(sections) && text == SectionsText(sections)
    {
      var message := messages[i];
      assert messages[..i + 1][..i] == messages[..i];
      if !message.Object? {
        FirstError(messages, i + 1);
        return Failure(MessageNotAnObject);
      }
      var role, contentValue := message.Find(Ascii("role")), message.Find(Ascii("content"));
      if role == None || !role.value.String? || !IsRoleValid(role.value.s) {
        FirstError(messages, i + 1);
        return Failure(BadRole);
      }
      if contentValue == None {
        FirstError(messages, i + 1);
        return Failure(NoContent);
      }
      var content := ReadMessageContent(contentValue.value);
      if content.Failure? {
        FirstError(messages, i + 1);
        return Failure(content.error);
      }
      ghost var section := Section(role.value.s, content.value);
      assert (sections + [section])[..|sections|] == sections;
      sections := sections + [section];
      text := text + (Ascii("[") + role.value.s + Ascii("]\n") + content.value + Ascii("\n\n"));
    }
    assert messages[..|messages|] == messages;
    return Success(text + Ascii("[assistant]\n"));
  }

  lemma {:induction false} FirstError(messages: seq<Json>, i: nat)
    requires i <= |messages| && SectionsOf(messages[..i]).Failure?
    ensures SectionsOf(messages) == SectionsOf(messages[..i])
    decreases |messages| - i
  {
    if i < |messages| {
      assert messages[..i + 1][..i] == messages[..i];
      FirstError(messages, i + 1);
    } else {
      assert messages[..i] == messages;
    }
  }

  // ---- Where the prompt holds what ----

  /** The bytes in front of section `i`: brackets and line feeds make five for every section before it. */
  function Before(sections: seq<Section>, i: nat): nat
    requires i <= |sections|
  {
    if i == 0 then 0 else Before(sections, i - 1) + |sections[i - 1].role| + |sections[i - 1].content| + 5
  }

  lemma {:induction false} BeforeFront(sections: seq<Section>, i: nat)
    requires i < |sections|
    ensures Before(sections[..|sections| - 1], i) == Before(sections, i)
    decreases i
  {
    if i > 0 { BeforeFront(sections, i - 1); }
  }

  lemma {:induction false} SectionsAt(t: bytes, sections: seq<Section>, i: nat)
    requires At(t, 0, SectionsText(sections))
    ensures |SectionsText(sections)| == Before(sections, |sections|)
    ensures i < |sections| ==>
              At(t, Before(sections, i), Ascii("[") + sections[i].role + Ascii("]\n") + sections[i].content + Ascii("\n\n"))
    decreases |sections|
  {
    hide At, Ascii;
    if sections != [] {
      var n := |sections| - 1;
      var front, last := sections[..n], sections[n];
      AtConcat(t, 0, SectionsText(front), SectionText(last));
      SectionsAt(t, front, if i < n then i else 0);
      BeforeFront(sections, n);
      if i < n { BeforeFront(sections, i); }
    }
  }

  /** The prompt of a complete request: behind what the first messages contribute, at a position computed from lengths
      alone, it holds every message's role in brackets, its content, and the line feeds; then the assistant's opening. */
  lemma PromptHolds(root: Json, double: Decimal -> real, i: nat)
    requires Complete(root, double)
    ensures var messages, sections, prompt := MessagesOf(root).value, SectionsOf(MessagesOf(root).value).value, RequestOf(root, double).prompt;
            && |sections| == |messages| && |prompt| == Before(sections, |sections|) + 12
            && At(prompt, Before(sections, |sections|), Ascii("[assistant]\n"))
            && (i < |messages| ==>
                  && messages[i].Find(Ascii("role")) == Some(String(sections[i].role))
                  && messages[i].Find(Ascii("content")).Some?
                  && ContentOf(messages[i].Find(Ascii("content")).value) == Success(sections[i].content)
                  && At(prompt, Before(sections, i), Ascii("[") + sections[i].role + Ascii("]\n") + sections[i].content + Ascii("\n\n")))
  {
    hide At, Ascii, SectionOf, ContentOf, SectionsOf, SectionsText;
    var messages := MessagesOf(root).value;
    var sections, prompt := SectionsOf(messages).value, RequestOf(root, double).prompt;
    AtEquals(prompt, 0, prompt);
    AtConcat(prompt, 0, SectionsText(sections), Ascii("[assistant]\n"));
    SectionsAt(prompt, sections, i);
    SectionsMatch(messages, i);
  }

  lemma {:induction false} SectionsMatch(messages: seq<Json>, i: nat)
    requires SectionsOf(messages).Success?
    ensures var sections := SectionsOf(messages).value;
            && |sections| == |messages|
            && (i < |messages| ==>
                  && messages[i].Find(Ascii("role")) == Some(String(sections[i].role))
                  && messages[i].Find(Ascii("content")).Some?
                  && ContentOf(messages[i].Find(Ascii("content")).value) == Success(sections[i].content))
    decreases |messages|
  {
    hide Ascii, ContentOf;
    if messages != [] { SectionsMatch(messages[..|messages| - 1], if i < |messages| - 1 then i else 0); }
  }

  /** Prompts with equal roles and equally long contents differ where the contents do. */
  lemma PromptsDiffer(a: seq<Section>, b: seq<Section>, i: nat)
    requires |a| == |b| && i < |a| && a[i].content != b[i].content
    requires forall k :: 0 <= k < |a| ==> a[k].role == b[k].role && |a[k].content| == |b[k].content|
    ensures PromptText(a) != PromptText(b)
  {
    hide At, Ascii, SectionsText;
    if PromptText(a) == PromptText(b) {
      var t, p := PromptText(a), Before(a, i);
      SameBefore(a, b, i);
      AtEquals(t, 0, t);
      AtConcat(t, 0, SectionsText(a), Ascii("[assistant]\n"));
      AtConcat(t, 0, SectionsText(b), Ascii("[assistant]\n"));
      SectionsAt(t, a, i);
      SectionsAt(t, b, i);
      var front, back := Ascii("[") + a[i].role + Ascii("]\n"), Ascii("\n\n");
      ContentAt(t, p, front, a[i].content, back);
      ContentAt(t, p, front, b[i].content, back);
    }
  }

  lemma ContentAt(t: bytes, p: nat, front: bytes, content: bytes, back: bytes)
    requires At(t, p, front + content + back)
    ensures p + |front| + |content| <= |t| && t[p + |front|..p + |front| + |content|] == content
  {
    hide At;
    AtConcat(t, p, front + content, back);
    AtConcat(t, p, front, content);
    AtEquals(t, p + |front|, content);
  }

  lemma {:induction false} SameBefore(a: seq<Section>, b: seq<Section>, i: nat)
    requires |a| == |b| && i <= |a|
    requires forall k :: 0 <= k < |a| ==> a[k].role == b[k].role && |a[k].content| == |b[k].content|
    ensures Before(a, i) == Before(b, i)
    decreases i
  {
    if i > 0 { SameBefore(a, b, i - 1); }
  }

  // ---- Prompts of one conversation ----

  lemma {:induction false} SectionsPrefix(a: seq<Section>, b: seq<Section>)
    requires a <= b
    ensures SectionsText(a) <= SectionsText(b)
    decreases |b|
  {
    if |a| < |b| { SectionsPrefix(a, b[..|b| - 1]); } else { assert a == b; }
  }

  /** The next request of a conversation, which repeats the messages, adds the answer and goes on, has a prompt that
      begins with the earlier prompt and its answer. */
  lemma PromptChain(earlier: seq<Section>, answer: bytes, later: seq<Section>)
    requires earlier + [Section(Ascii("assistant"), answer)] <= later
    ensures PromptText(earlier) + answer <= PromptText(later)
  {
    var answered := earlier + [Section(Ascii("assistant"), answer)];
    assert answered[..|earlier|] == earlier;
    SectionsPrefix(answered, later);
    AssistantSection(answer);
    assert PromptText(earlier) + answer + Ascii("\n\n") == SectionsText(answered);
  }

  lemma AssistantSection(answer: bytes)
    ensures SectionText(Section(Ascii("assistant"), answer)) == Ascii("[assistant]\n") + answer + Ascii("\n\n")
  {
    assert "[" + "assistant" + "]\n" == "[assistant]\n";
    assert Ascii("[") + Ascii("assistant") + Ascii("]\n") == Ascii("[assistant]\n");
  }

  /** The same for whole requests: two complete requests whose messages continue one another. */
  lemma RequestsChain(first: Json, next: Json, answer: bytes, double: Decimal -> real)
    requires Complete(first, double) && Complete(next, double)
    requires MessagesOf(first).value + [AssistantMessage(answer)] <= MessagesOf(next).value
    ensures RequestOf(first, double).prompt + answer <= RequestOf(next, double).prompt
  {
    hide SectionText, SectionsText, PromptText, Ascii, ContentOf, SectionOf;
    var m, n := MessagesOf(first).value, MessagesOf(next).value;
    SectionsExtend(n, |m| + 1);
    assert n[..|m| + 1] == m + [AssistantMessage(answer)];
    assert (m + [AssistantMessage(answer)])[..|m|] == m;
    AssistantIsSection(answer);
    PromptChain(SectionsOf(m).value, answer, SectionsOf(n).value);
  }

  function AssistantMessage(answer: bytes): Json {
    Object(map[Ascii("role") := String(Ascii("assistant")), Ascii("content") := String(answer)])
  }

  lemma AssistantIsSection(answer: bytes)
    ensures SectionOf(AssistantMessage(answer)) == Success(Section(Ascii("assistant"), answer))
  {
    hide IsRoleValid, Ascii;
    KeysDiffer();
    AssistantIsRole();
    var message := AssistantMessage(answer);
    assert message.Find(Ascii("role")) == Some(String(Ascii("assistant"))) && message.Find(Ascii("content")) == Some(String(answer));
  }

  lemma KeysDiffer()
    ensures Ascii("role") != Ascii("content")
  {
    assert |Ascii("role")| != |Ascii("content")|;
  }

  lemma AssistantIsRole()
    ensures IsRoleValid(Ascii("assistant"))
  {
    assert forall i :: 0 <= i < 9 ==> 'a' <= "assistant"[i] <= 'z';
  }

  lemma {:induction false} SectionsExtend(messages: seq<Json>, i: nat)
    requires i <= |messages| && SectionsOf(messages).Success?
    ensures SectionsOf(messages[..i]).Success? && SectionsOf(messages[..i]).value <= SectionsOf(messages).value
    decreases |messages|
  {
    if i == |messages| {
      assert messages[..i] == messages;
    } else {
      var front := messages[..|messages| - 1];
      SectionsExtend(front, i);
      assert front[..i] == messages[..i];
    }
  }
}
