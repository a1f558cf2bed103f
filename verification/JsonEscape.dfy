/** The string escaper, and the second, independently written string decoder of the demo runtime. */
module JsonEscape {
  import opened ByteStrings
  import opened JsonGrammar
  import opened JsonSpec
  import JsonComplete
  import Utf8

  // ---- Escaping ----

  const HEX_DIGITS := Ascii("0123456789abcdef")

  /** What the escaper writes for one byte. */
  function EscapeByte(b: byte): bytes {
    match b
    case 0x22 => [BACKSLASH, 0x22]
    case 0x5C => [BACKSLASH, 0x5C]
    case 0x08 => [BACKSLASH, 0x62]
    case 0x0C => [BACKSLASH, 0x66]
    case 0x0A => [BACKSLASH, 0x6E]
    case 0x0D => [BACKSLASH, 0x72]
    case 0x09 => [BACKSLASH, 0x74]
    case _ =>
      if b < 0x20 then [BACKSLASH, LETTER_U, ZERO, ZERO, HEX_DIGITS[b / 16], HEX_DIGITS[b % 16]] else [b]
  }

  function EscapeBody(s: bytes): bytes {
    if s == [] then [] else EscapeBody(s[..|s| - 1]) + EscapeByte(s[|s| - 1])
  }

  /** `EscapeJsonString` of any byte string. */
  function Escape(s: bytes): bytes { [QUOTE] + EscapeBody(s) + [QUOTE] }

  /** The switch of the escaper. */
  method WriteEscaped(current: byte, output: bytes) returns (extended: bytes)
    ensures extended == output + EscapeByte(current)
  {
    match current {
      case 0x22 => extended := output + [BACKSLASH, 0x22];
      case 0x5C => extended := output + [BACKSLASH, 0x5C];
      case 0x08 => extended := output + [BACKSLASH, 0x62];
      case 0x0C => extended := output + [BACKSLASH, 0x66];
      case 0x0A => extended := output + [BACKSLASH, 0x6E];
      case 0x0D => extended := output + [BACKSLASH, 0x72];
      case 0x09 => extended := output + [BACKSLASH, 0x74];
      case _ =>
        if current < 0x20 {
          extended := output + [BACKSLASH, LETTER_U, ZERO, ZERO, HEX_DIGITS[current / 16], HEX_DIGITS[current % 16]];
        } else {
          extended := output + [current];
        }
    }
  }

  method EscapeJsonString(value: bytes) returns (output: bytes)
    ensures output == Escape(value)
  {
    hide EscapeByte;
    output := [QUOTE];
    for i := 0 to |value|
      invariant output == [QUOTE] + EscapeBody(value[..i])
    {
      var done := value[..i + 1];
      assert done[..i] == value[..i] && done[i] == value[i];
      output := WriteEscaped(value[i], output);
      assert [QUOTE] + EscapeBody(value[..i]) + EscapeByte(value[i]) == [QUOTE] + EscapeBody(done);
    }
    assert value[..|value|] == value;
    output := output + [QUOTE];
  }

  /** The grammar's reading of one escaped byte. */
  function EscapedCharacter(b: byte): Character {
    var x := EscapeByte(b);
    if |x| == 1 then Raw(b) else if |x| == 2 then Short(x[1]) else Unicode(x[2..])
  }

  function EscapedCharacters(s: bytes): Characters {
    if s == [] then End else Char(EscapedCharacter(s[0]), EscapedCharacters(s[1..]))
  }

  lemma EscapedCharacterIsByte(b: byte)
    ensures GoodCharacter(EscapedCharacter(b))
    ensures CharacterText(EscapedCharacter(b)) == EscapeByte(b)
    ensures CharacterBytes(EscapedCharacter(b)) == [b]
  {
    if b < 0x20 && EscapedCharacter(b).Unicode? {
      var quad := EscapeByte(b)[2..];
      assert quad == [ZERO, ZERO, HEX_DIGITS[b / 16], HEX_DIGITS[b % 16]];
      assert HexDigit(HEX_DIGITS[b / 16]) == Some(b / 16) && HexDigit(HEX_DIGITS[b % 16]) == Some(b % 16);
      assert QuadValue(quad) == b;
    }
  }

  lemma {:induction false} EscapeBodyFront(s: bytes)
    requires s != []
    ensures EscapeBody(s) == EscapeByte(s[0]) + EscapeBody(s[1..])
    decreases |s|
  {
    hide EscapeByte;
    var front := s[..|s| - 1];
    if |s| > 1 {
      var last := EscapeByte(s[|s| - 1]);
      EscapeBodyFront(front);
      assert s[1..][..|s| - 2] == front[1..];
      assert EscapeByte(s[0]) + EscapeBody(front[1..]) + last == EscapeByte(s[0]) + (EscapeBody(front[1..]) + last);
    }
  }

  lemma {:induction false} EscapedCharactersSpell(s: bytes)
    ensures GoodCharacters(EscapedCharacters(s))
    ensures CharactersText(EscapedCharacters(s)) == EscapeBody(s) + [QUOTE]
    ensures CharactersBytes(EscapedCharacters(s)) == s
    decreases |s|
  {
    hide EscapeByte, EscapedCharacter, CharacterText, CharacterBytes, GoodCharacter;
    if s != [] {
      EscapeBodyFront(s);
      EscapedCharacterIsByte(s[0]);
      EscapedCharactersSpell(s[1..]);
      assert EscapeByte(s[0]) + (EscapeBody(s[1..]) + [QUOTE]) == EscapeBody(s) + [QUOTE];
      assert [s[0]] + s[1..] == s;
    }
  }

  /** The tree of an escaped string. */
  lemma EscapeSpells(s: bytes) returns (cs: Characters)
    ensures GoodCharacters(cs) && StringText(cs) == Escape(s) && CharactersBytes(cs) == s
  {
    EscapedCharactersSpell(s);
    cs := EscapedCharacters(s);
    assert [QUOTE] + (EscapeBody(s) + [QUOTE]) == Escape(s);
  }

  /** Escape then parse is the identity on every byte string, wherever in a text it stands. */
  lemma EscapeRoundTrip(t: bytes, p: nat, s: bytes)
    requires At(t, p, Escape(s))
    ensures ReadString(t, p) == Got(s, p + |Escape(s)|)
  {
    var cs := EscapeSpells(s);
    JsonComplete.StringComplete(t, p, cs);
  }

  /** In particular two strings never share their escaped form. */
  lemma EscapeInjective(a: bytes, b: bytes)
    requires Escape(a) == Escape(b)
    ensures a == b
  {
    AtEquals(Escape(a), 0, Escape(a));
    EscapeRoundTrip(Escape(a), 0, a);
    EscapeRoundTrip(Escape(a), 0, b);
  }

  // ---- The demo runtime's decoder, which throws instead of reporting an offset ----

  function DecodeHex4(json: bytes, cursor: nat): (r: Option<nat>)
    requires cursor <= |json|
    ensures r.Some? ==> cursor + 4 <= |json|
  {
    if |json| - cursor < 4 then None
    else if !IsQuad(json[cursor..cursor + 4]) then None
    else Some(QuadValue(json[cursor..cursor + 4]))
  }

  /** The loop of the decoder's `DecodeHex4`. */
  method ReadHex4(json: bytes, cursor: nat) returns (r: Option<nat>)
    requires cursor <= |json|
    ensures r == DecodeHex4(json, cursor)
  {
    if |json| - cursor < 4 {
      return None;
    }
    var value: nat := 0;
    HexFour(json, cursor);
    for index := 0 to 4
      invariant HexDigits(json, cursor, index) && value == HexValue(json, cursor, index)
    {
      var digit := HexDigit(json[cursor + index]);
      if digit.None? {
        return None;
      }
      value := value * 16 + digit.value;
    }
    return Some(value);
  }

  /** The \u arm: the code point and the cursor behind it. */
  function DecodeUnicode(json: bytes, cursor: nat): (r: Option<(nat, nat)>)
    requires cursor <= |json|
    ensures r.Some? ==> cursor < r.value.1 <= |json| && r.value.0 < 0x110000
  {
    match DecodeHex4(json, cursor)
    case None => None
    case Some(c) =>
      var next := cursor + 4;
      if IsHighSurrogate(c) then
        if |json| - next < 6 || json[next] != BACKSLASH || json[next + 1] != LETTER_U then None
        else
          match DecodeHex4(json, next + 2)
          case None => None
          case Some(low) => if !IsLowSurrogate(low) then None else Some((Combine(c, low), next + 6))
      else if IsLowSurrogate(c) then None
      else Some((c, next))
  }

  /** The rest of a string whose bytes so far are `value`, and the cursor behind it. */
  function DecodeRest(json: bytes, cursor: nat, value: bytes): (r: Option<(bytes, nat)>)
    requires cursor <= |json|
    ensures r.Some? ==> cursor < r.value.1 <= |json|
    decreases |json| - cursor
  {
    if cursor >= |json| then None
    else if json[cursor] == QUOTE then Some((value, cursor + 1))
    else if json[cursor] != BACKSLASH then DecodeRest(json, cursor + 1, value + [json[cursor]])
    else if cursor + 1 >= |json| then None
    else if json[cursor + 1] == LETTER_U then
      match DecodeUnicode(json, cursor + 2)
      case None => None
      case Some(pair) => DecodeRest(json, pair.1, value + Utf8.Encode(pair.0))
    else
      match Unescaped(json[cursor + 1])
      case None => None
      case Some(b) => DecodeRest(json, cursor + 2, value + [b])
  }

  function DecodeAt(json: bytes, cursor: nat): Option<(bytes, nat)> {
    if cursor >= |json| || json[cursor] != QUOTE then None else DecodeRest(json, cursor + 1, [])
  }

  method DecodeJsonStringAt(json: bytes, cursor: nat) returns (result: Option<bytes>)
    ensures match DecodeAt(json, cursor)
            case None => result == None
            case Some(pair) => result == Some(pair.0)
  {
    hide Utf8.Encode, DecodeHex4;
    if cursor >= |json| || json[cursor] != QUOTE {
      return None;
    }
    var at := cursor + 1;
    var value: bytes := [];
    while at < |json|
      invariant at <= |json| && DecodeRest(json, at, value) == DecodeAt(json, cursor)
      decreases |json| - at
    {
      var current := json[at];
      at := at + 1;
      if current == QUOTE {
        return Some(value);
      }
      if current != BACKSLASH {
        value := value + [current];
        continue;
      }
      if at >= |json| {
        break;
      }
      var escape := json[at];
      at := at + 1;
      match escape {
        case 0x22 => value := value + [0x22];
        case 0x5C => value := value + [0x5C];
        case 0x2F => value := value + [0x2F];
        case 0x62 => value := value + [0x08];
        case 0x66 => value := value + [0x0C];
        case 0x6E => value := value + [0x0A];
        case 0x72 => value := value + [0x0D];
        case 0x74 => value := value + [0x09];
        case 0x75 =>
          var first := ReadHex4(json, at);
          if first.None? {
            return None;
          }
          var codePoint := first.value;
          at := at + 4;
          if codePoint >= 0xD800 && codePoint <= 0xDBFF {
            if |json| - at < 6 || json[at] != BACKSLASH || json[at + 1] != LETTER_U {
              return None;
            }
            var low := ReadHex4(json, at + 2);
            if low.None? || low.value < 0xDC00 || low.value > 0xDFFF {
              return None;
            }
            at := at + 6;
            codePoint := 0x10000 + (codePoint - 0xD800) * 0x400 + (low.value - 0xDC00);
          } else if codePoint >= 0xDC00 && codePoint <= 0xDFFF {
            return None;
          }
          value := value + Utf8.Encode(codePoint);
        case _ => return None;
      }
    }
    return None;
  }

  lemma UnicodeAgrees(t: bytes, p: nat)
    requires p <= |t|
    ensures match ReadCodePoint(t, p)
            case Got(c, next) => DecodeUnicode(t, p) == Some((c, next))
            case Failed(_) => DecodeUnicode(t, p) == None
  {
  }

  /** No byte from `p` to before `q` is an ASCII control character. */
  predicate NoControls(t: bytes, p: nat, q: nat)
    requires q <= |t|
  {
    forall i :: p <= i < q ==> t[i] >= 0x20
  }

  lemma EscapeNoControls(t: bytes, p: nat)
    requires p <= |t| && ReadEscape(t, p).Got?
    ensures NoControls(t, p, ReadEscape(t, p).next)
  {
    if t[p] == LETTER_U {
      QuadNoControls(t, p + 1);
      if IsHighSurrogate(ReadQuad(t, p + 1).value) {
        QuadNoControls(t, p + 7);
      }
    }
  }

  lemma QuadNoControls(t: bytes, p: nat)
    requires p <= |t| && ReadQuad(t, p).Got?
    ensures NoControls(t, p, p + 4)
  {
    forall i | p <= i < p + 4 ensures t[i] >= 0x20 {
      assert HexDigit(t[p..p + 4][i - p]).Some?;
    }
  }

  /** The two loops agree, except that only the parser refuses raw control characters. */
  lemma {:induction false} RestAgrees(t: bytes, p: nat, value: bytes)
    requires p <= |t|
    ensures ReadCharacters(t, p, value).Got? ==>
              var r := ReadCharacters(t, p, value);
              DecodeRest(t, p, value) == Some((r.value, r.next)) && NoControls(t, p, r.next)
    ensures DecodeRest(t, p, value).Some? && NoControls(t, p, DecodeRest(t, p, value).value.1) ==>
              ReadCharacters(t, p, value).Got?
    decreases |t| - p
  {
    hide ReadCodePoint, DecodeUnicode;
    if p < |t| && t[p] != QUOTE {
      if t[p] != BACKSLASH {
        RestAgrees(t, p + 1, value + [t[p]]);
      } else {
        if p + 2 <= |t| && t[p + 1] == LETTER_U {
          UnicodeAgrees(t, p + 2);
        }
        if ReadEscape(t, p + 1).Got? {
          EscapeNoControls(t, p + 1);
          RestAgrees(t, ReadEscape(t, p + 1).next, value + ReadEscape(t, p + 1).value);
        }
      }
    }
  }

  /**
    * The parser accepts a string exactly where the other decoder does and meets no raw control
    * character on the way; then both return the same bytes and stop at the same place.
    */
  lemma DecodersAgree(t: bytes, p: nat, s: bytes, next: nat)
    requires p <= |t|
    ensures ReadString(t, p) == Got(s, next) <==>
            DecodeAt(t, p) == Some((s, next)) && next <= |t| && NoControls(t, p, next)
  {
    if p < |t| && t[p] == QUOTE {
      RestAgrees(t, p + 1, []);
    }
  }
}
