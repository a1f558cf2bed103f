/** One proxy session of the reverse client: its shared state, and what it does with a received message. */
module Session {
  import opened ByteStrings
  import opened JsonGrammar
  import opened JsonSpec
  import opened JsonParser
  import JsonSound

  // ---- Shared state ----

  /** The fields of `SessionState`, and whether its descriptor is still open. */
  datatype Session = Session(pending: int, closing: bool, open: bool)

  const FRESH := Session(0, false, true)

  /** A chat request is counted unless the session is closing. */
  function CountRequest(s: Session): (Session, bool) {
    if s.closing then (s, false) else (s.(pending := s.pending + 1), true)
  }

  function Mark(s: Session): Session { s.(closing := true) }

  function Uncount(s: Session): Session { s.(pending := s.pending - 1) }

  /** Each method is one stretch of the reverse client that runs with `state_mutex` held. */
  class SessionState {
    var pendingCallbacks: int
    var closing: bool
    var open: bool

    function View(): Session
      reads this
    {
      Session(pendingCallbacks, closing, open)
    }

    constructor ()
      ensures View() == FRESH
    {
      pendingCallbacks, closing, open := 0, false, true;
    }

    method Count() returns (counted: bool)
      modifies this
      ensures (View(), counted) == CountRequest(old(View()))
      ensures counted ==> pendingCallbacks == old(pendingCallbacks) + 1 && !closing
    {
      if closing {
        return false;
      }
      pendingCallbacks := pendingCallbacks + 1;
      return true;
    }

    method MayRespond() returns (respond: bool)
      ensures respond == !View().closing
    {
      respond := !closing;
    }

    method MarkClosing()
      modifies this
      ensures View() == Mark(old(View()))
    {
      closing := true;
    }

    method Finish()
      modifies this
      ensures View() == Uncount(old(View()))
    {
      pendingCallbacks := pendingCallbacks - 1;
    }
  }

  // ---- Received messages ----

  datatype Reaction =
    | AnswerPing
    | Ignore
    | Reject
    | AnswerNoBody(id: bytes)
    | Chat(id: bytes, body: bytes)

  const MAXIMUM_ID_BYTES := 128

  function ReactToChat(id: Option<Json>, body: Option<Json>): Reaction {
    if id.None? || !id.value.String? || id.value.s == [] || |id.value.s| > MAXIMUM_ID_BYTES then Reject
    else if body.None? || !body.value.String? then AnswerNoBody(id.value.s)
    else Chat(id.value.s, body.value.s)
  }

  function ReactToValue(message: Json): Reaction {
    if !message.Object? then Reject
    else
      match message.Find(Ascii("type"))
      case None => Reject
      case Some(kind) =>
        if !kind.String? then Reject
        else if kind.s == Ascii("ping") then AnswerPing
        else if kind.s == Ascii("pong") || kind.s == Ascii("status") then Ignore
        else if kind.s != Ascii("chat_request") then Reject
        else ReactToChat(message.Find(Ascii("id")), message.Find(Ascii("body")))
  }

  function React(payload: bytes): Reaction {
    var parsed := ReadText(payload);
    if parsed.Failed? then Reject else ReactToValue(parsed.value)
  }

  // ---- What each reaction means, by the grammar ----

  /** The payload is an object whose members are `fields`, and its type is `kind`. */
  ghost predicate Typed(payload: bytes, fields: map<bytes, Json>, kind: string) {
    Derives(payload, Object(fields)) && Ascii("type") in fields && fields[Ascii("type")] == String(Ascii(kind))
  }

  ghost predicate HasType(payload: bytes, kind: string) { exists fields: map<bytes, Json> :: Typed(payload, fields, kind) }

  /** A chat request with a valid identifier. */
  ghost predicate Identified(payload: bytes, fields: map<bytes, Json>, id: bytes) {
    && Typed(payload, fields, "chat_request")
    && Ascii("id") in fields && fields[Ascii("id")] == String(id) && 1 <= |id| <= 128
  }

  ghost predicate IsChat(payload: bytes, id: bytes, body: bytes) {
    exists fields: map<bytes, Json> :: Identified(payload, fields, id) && Ascii("body") in fields && fields[Ascii("body")] == String(body)
  }

  ghost predicate IsBodiless(payload: bytes, id: bytes) {
    exists fields: map<bytes, Json> :: Identified(payload, fields, id) && !(Ascii("body") in fields && fields[Ascii("body")].String?)
  }

  /** The four kinds of answers, each exactly for its kind of payload; everything else is rejected. */
  ghost predicate Means(payload: bytes, reaction: Reaction) {
    && (reaction == AnswerPing <==> HasType(payload, "ping"))
    && (reaction == Ignore <==> HasType(payload, "pong") || HasType(payload, "status"))
    && (forall id, body :: reaction == Chat(id, body) <==> IsChat(payload, id, body))
    && (forall id :: reaction == AnswerNoBody(id) <==> IsBodiless(payload, id))
  }

  lemma TypesDiffer()
    ensures Ascii("ping") != Ascii("pong") && Ascii("ping") != Ascii("status") && Ascii("ping") != Ascii("chat_request")
    ensures Ascii("pong") != Ascii("status") && Ascii("pong") != Ascii("chat_request") && Ascii("status") != Ascii("chat_request")
  {
    assert Ascii("ping")[1] != Ascii("pong")[1];
  }

  /** One object, one meaning. */
  lemma OnlyFields(payload: bytes, fields: map<bytes, Json>, kind: string)
    requires ReadText(payload) == Got(Object(fields), |payload|)
    ensures HasType(payload, kind) <==> Ascii("type") in fields && fields[Ascii("type")] == String(Ascii(kind))
    ensures forall id, body :: IsChat(payload, id, body) <==>
              && Ascii("type") in fields && fields[Ascii("type")] == String(Ascii("chat_request"))
              && Ascii("id") in fields && fields[Ascii("id")] == String(id) && 1 <= |id| <= 128
              && Ascii("body") in fields && fields[Ascii("body")] == String(body)
    ensures forall id :: IsBodiless(payload, id) <==>
              && Ascii("type") in fields && fields[Ascii("type")] == String(Ascii("chat_request"))
              && Ascii("id") in fields && fields[Ascii("id")] == String(id) && 1 <= |id| <= 128
              && !(Ascii("body") in fields && fields[Ascii("body")].String?)
  {
    hide ReadText, Derives, Ascii;
    JsonSound.SoundAndComplete(payload, Object(fields));
    forall other | Derives(payload, Object(other)) ensures other == fields { JsonSound.SoundAndComplete(payload, Object(other)); }
    assert forall other :: Typed(payload, other, kind) ==> other == fields;
    assert forall other, id :: Identified(payload, other, id) ==> other == fields;
    if Ascii("type") in fields && fields[Ascii("type")] == String(Ascii(kind)) { assert Typed(payload, fields, kind); }
    forall id, body | Identified(payload, fields, id) && Ascii("body") in fields && fields[Ascii("body")] == String(body)
      ensures IsChat(payload, id, body) {}
    forall id | Identified(payload, fields, id) && !(Ascii("body") in fields && fields[Ascii("body")].String?)
      ensures IsBodiless(payload, id) {}
  }

  /** A text that is no object has no type, and asks nothing. */
  lemma NoFields(payload: bytes)
    requires !exists fields: map<bytes, Json> :: Derives(payload, Object(fields))
    ensures forall kind :: !HasType(payload, kind)
    ensures forall id, body :: !IsChat(payload, id, body)
    ensures forall id :: !IsBodiless(payload, id)
  {
    hide Derives, Ascii;
  }

  /** What the client does with a payload is decided by the object the grammar derives from it. */
  lemma ReactionMeans(payload: bytes)
    ensures Means(payload, React(payload))
    ensures React(payload) == Reject <==>
            && !HasType(payload, "ping") && !HasType(payload, "pong") && !HasType(payload, "status")
            && (forall id, body :: !IsChat(payload, id, body)) && forall id :: !IsBodiless(payload, id)
  {
    hide ReadText, Derives, Ascii, HasType, IsChat, IsBodiless;
    var parsed := ReadText(payload);
    if parsed.Got? && parsed.value.Object? {
      TypesDiffer();
      JsonSound.SoundAndComplete(payload, parsed.value);
      GotAll(payload);
      OnlyFields(payload, parsed.value.fields, "ping");
      OnlyFields(payload, parsed.value.fields, "pong");
      OnlyFields(payload, parsed.value.fields, "status");
    } else {
      forall fields ensures !Derives(payload, Object(fields)) { JsonSound.SoundAndComplete(payload, Object(fields)); }
      NoFields(payload);
    }
  }

  lemma GotAll(payload: bytes)
    requires ReadText(payload).Got?
    ensures ReadText(payload).next == |payload|
  {
    hide ReadValue;
  }

  /** The branches of `HandleMessage` up to the counting of the request. */
  method HandleMessage(payload: bytes) returns (reaction: Reaction)
    ensures reaction == React(payload)
    ensures Means(payload, reaction)
  {
    hide ReadText, Derives, HasType, IsChat, IsBodiless;
    ReactionMeans(payload);
    var ok, message, error := ParseJson(payload);
    JsonSound.SoundAndComplete(payload, message);
    if !ok || !message.Object? {
      return Reject;
    }
    var kind := message.Find(Ascii("type"));
    if kind == None || !kind.value.String? {
      return Reject;
    }
    if kind.value.s == Ascii("ping") {
      return AnswerPing;
    }
    if kind.value.s == Ascii("pong") || kind.value.s == Ascii("status") {
      return Ignore;
    }
    if kind.value.s != Ascii("chat_request") {
      return Reject;
    }
    var id, body := message.Find(Ascii("id")), message.Find(Ascii("body"));
    if id == None || !id.value.String? || id.value.s == [] || |id.value.s| > MAXIMUM_ID_BYTES {
      return Reject;
    }
    if body == None || !body.value.String? {
      return AnswerNoBody(id.value.s);
    }
    reaction := Chat(id.value.s, body.value.s);
  }
}
