/** The parser as the program runs it: a cursor that moves over the text and the first error met. */
module JsonParser {
  import opened ByteStrings
  import opened JsonGrammar
  import opened JsonSpec
  import JsonSound
  import JsonComplete
  import JsonNumbers
  import Utf8

  class Parser {
    const text: bytes
    var cursor: nat
    var error: Option<ParseError>

    constructor (text: bytes)
      ensures this.text == text && Ready() && cursor == 0
    {
      this.text := text;
      cursor := 0;
      error := None;
    }

    ghost predicate Ready() reads this { cursor <= |text| && error.None? }

    /** What a reading method leaves behind when the text reads as `r`. */
    ghost predicate Reports<T>(r: Read<T>, ok: bool, value: T) reads this {
      if r.Got? then ok && value == r.value && cursor == r.next && error.None?
      else !ok && error == Some(r.error)
    }

    /** Only the first failure is kept. */
    method Fail(kind: ErrorKind) returns (ok: bool)
      modifies this`error
      ensures !ok
      ensures error == if old(error).None? then Some(ParseError(kind, cursor)) else old(error)
    {
      if error.None? {
        error := Some(ParseError(kind, cursor));
      }
      return false;
    }

    method SkipWhitespace()
      requires Ready()
      modifies this`cursor
      ensures cursor == SkipWs(text, old(cursor))
    {
      while cursor < |text|
        invariant cursor <= |text| && SkipWs(text, cursor) == SkipWs(text, old(cursor))
        decreases |text| - cursor
      {
        if !IsWs(text[cursor]) {
          break;
        }
        cursor := cursor + 1;
      }
    }

    method SkipDigitRun()
      requires Ready()
      modifies this`cursor
      ensures cursor == SkipDigits(text, old(cursor))
    {
      while cursor < |text| && IsDigit(text[cursor])
        invariant cursor <= |text| && SkipDigits(text, cursor) == SkipDigits(text, old(cursor))
        decreases |text| - cursor
      {
        cursor := cursor + 1;
      }
    }

    method ConsumeLiteral(literal: bytes) returns (ok: bool)
      requires Ready()
      modifies this`cursor
      ensures ok == At(text, old(cursor), literal)
      ensures cursor == old(cursor) + if ok then |literal| else 0
    {
      AtEquals(text, cursor, literal);
      if cursor + |literal| > |text| || text[cursor..cursor + |literal|] != literal {
        return false;
      }
      cursor := cursor + |literal|;
      return true;
    }

    method ParseHexQuad() returns (ok: bool, value: nat)
      requires Ready()
      modifies this`cursor, this`error
      ensures Reports(ReadQuad(text, old(cursor)), ok, value)
    {
      if cursor + 4 > |text| {
        ok := Fail(IncompleteUnicodeEscape);
        return ok, 0;
      }
      var start := cursor;
      var result: nat := 0;
      HexFour(text, start);
      for index := 0 to 4
        invariant cursor == start + index && error.None?
        invariant HexDigits(text, start, index) && result == HexValue(text, start, index)
      {
        var digit := HexDigit(text[cursor]);
        cursor := cursor + 1;
        if digit.None? {
          ok := Fail(InvalidUnicodeEscape);
          return ok, 0;
        }
        result := result * 16 + digit.value;
      }
      return true, result;
    }

    /** The \u arm of the string loop, from behind the u. */
    method ParseUnicodeEscape() returns (ok: bool, codePoint: nat)
      requires Ready()
      modifies this`cursor, this`error
      ensures Reports(ReadCodePoint(text, old(cursor)), ok, codePoint)
    {
      ok, codePoint := ParseHexQuad();
      if !ok {
        return;
      }
      if codePoint >= 0xD800 && codePoint <= 0xDBFF {
        if cursor + 2 > |text| || text[cursor] != BACKSLASH || text[cursor + 1] != LETTER_U {
          ok := Fail(MissingLowSurrogate);
          return;
        }
        cursor := cursor + 2;
        var low;
        ok, low := ParseHexQuad();
        if !ok {
          return;
        }
        if low < 0xDC00 || low > 0xDFFF {
          ok := Fail(InvalidLowSurrogate);
          return;
        }
        codePoint := 0x10000 + (codePoint - 0xD800) * 0x400 + (low - 0xDC00);
      } else if codePoint >= 0xDC00 && codePoint <= 0xDFFF {
        ok := Fail(UnpairedLowSurrogate);
      }
    }

    /** The escape arm of the string loop: what it appends to the value. */
    method ParseEscape(value: bytes) returns (ok: bool, extended: bytes)
      requires Ready()
      modifies this`cursor, this`error
      ensures var r := ReadEscape(text, old(cursor));
              Reports(if r.Got? then Got(value + r.value, r.next) else r, ok, extended)
    {
      extended := value;
      if cursor >= |text| {
        ok := Fail(UnterminatedEscape);
        return;
      }
      var escaped := text[cursor];
      cursor := cursor + 1;
      match escaped {
        case 0x22 => extended := value + [0x22];
        case 0x5C => extended := value + [0x5C];
        case 0x2F => extended := value + [0x2F];
        case 0x62 => extended := value + [0x08];
        case 0x66 => extended := value + [0x0C];
        case 0x6E => extended := value + [0x0A];
        case 0x72 => extended := value + [0x0D];
        case 0x74 => extended := value + [0x09];
        case 0x75 =>
          var codePoint;
          ok, codePoint := ParseUnicodeEscape();
          if !ok {
            return;
          }
          var appended;
          appended, extended := Utf8.AppendCodePoint(codePoint, value);
          // The arm for a code point the encoder refuses is never taken.
          if !appended {
            assert false;
          }
        case _ =>
          ok := Fail(InvalidEscape);
          return;
      }
      ok := true;
    }

    method ParseString() returns (ok: bool, value: bytes)
      requires Ready()
      modifies this`cursor, this`error
      ensures Reports(ReadString(text, old(cursor)), ok, value)
    {
      value := [];
      if cursor >= |text| || text[cursor] != QUOTE {
        ok := Fail(ExpectedString);
        return;
      }
      cursor := cursor + 1;
      while cursor < |text|
        invariant Ready()
        invariant ReadCharacters(text, cursor, value) == ReadString(text, old(cursor))
        decreases |text| - cursor
      {
        var current := text[cursor];
        cursor := cursor + 1;
        if current == QUOTE {
          return true, value;
        }
        if current < 0x20 {
          ok := Fail(ControlCharacter);
          return;
        }
        if current != BACKSLASH {
          value := value + [current];
          continue;
        }
        ok, value := ParseEscape(value);
        if !ok {
          return;
        }
      }
      ok := Fail(UnterminatedString);
    }

    /** The integer digits of a number. */
    method ParseWhole() returns (ok: bool)
      requires Ready()
      modifies this`cursor, this`error
      ensures var r := ReadWhole(text, old(cursor)); Reports(r, ok, if r.Got? then r.value else [])
    {
      if cursor >= |text| {
        ok := Fail(IncompleteNumber);
        return;
      }
      if text[cursor] == ZERO {
        cursor := cursor + 1;
        if cursor < |text| && IsDigit(text[cursor]) {
          ok := Fail(LeadingZero);
          return;
        }
      } else if IsDigit(text[cursor]) {
        SkipDigitRun();
      } else {
        ok := Fail(InvalidNumber);
        return;
      }
      ok := true;
    }

    /** The optional fraction of a number. */
    method ParseFraction() returns (ok: bool, fraction: bytes)
      requires Ready()
      modifies this`cursor, this`error
      ensures Reports(ReadFraction(text, old(cursor)), ok, fraction)
    {
      if cursor < |text| && text[cursor] == DOT {
        cursor := cursor + 1;
        var start := cursor;
        SkipDigitRun();
        if cursor == start {
          ok := Fail(FractionWithoutDigits);
          return ok, [];
        }
        return true, text[start..cursor];
      }
      return true, [];
    }

    /** The optional exponent of a number: the e with its sign, and the digits. */
    method ParseExponent() returns (ok: bool, mark: bytes, exponent: bytes)
      requires Ready()
      modifies this`cursor, this`error
      ensures Reports(ReadExponent(text, old(cursor)), ok, exponent)
      ensures mark == text[old(cursor)..MarkEnd(text, old(cursor))]
    {
      var start := cursor;
      if cursor < |text| && (text[cursor] == 0x65 || text[cursor] == 0x45) {
        cursor := cursor + 1;
        if cursor < |text| && (text[cursor] == PLUS || text[cursor] == MINUS) {
          cursor := cursor + 1;
        }
        mark := text[start..cursor];
        var digits := cursor;
        SkipDigitRun();
        if cursor == digits {
          ok := Fail(ExponentWithoutDigits);
          return ok, mark, [];
        }
        return true, mark, text[digits..cursor];
      }
      return true, [], [];
    }

    method ParseNumber() returns (ok: bool, value: Json)
      requires Ready() && cursor < |text|
      modifies this`cursor, this`error
      ensures Reports(ReadNumber(text, old(cursor)), ok, if ok then value else Null)
      ensures ok ==> value.Number? && exists n :: JsonNumbers.Spelled(text[old(cursor)..cursor], n, JsonNumbers.Meaning(value.d))
    {
      hide ReadWhole, ReadFraction, ReadExponent, MarkEnd, IsFinite, NumeralValue;
      hide JsonNumbers.Spelled, JsonNumbers.Meaning;
      value := Null;
      var start := cursor;
      if ReadNumber(text, start).Got? { JsonNumbers.NumberMeans(text, start); }
      var negative := text[cursor] == MINUS;
      if negative {
        cursor := cursor + 1;
      }
      var first := cursor;
      ok := ParseWhole();
      if !ok {
        return;
      }
      var whole := text[first..cursor];
      var fraction, mark, exponent;
      ok, fraction := ParseFraction();
      if !ok {
        return;
      }
      ok, mark, exponent := ParseExponent();
      if !ok {
        return;
      }
      var numeral := Numeral(negative, whole, fraction, mark, exponent);
      ReadNumeralDigits(text, start);
      // strtod, which is exact up to rounding; only the overflow to infinity is observed.
      var number := NumeralValue(numeral);
      if !IsFinite(number) {
        ok := Fail(InvalidNumber);
        return;
      }
      return true, Number(number);
    }

    method ParseValue(depth: nat) returns (ok: bool, value: Json)
      requires Ready()
      modifies this`cursor, this`error
      ensures Reports(ReadValue(text, old(cursor), depth), ok, value)
      decreases |text| - cursor, 1
    {
      hide ReadArray, ReadObject, ReadNumber, ReadString, At;
      value := Null;
      if depth > MAXIMUM_DEPTH {
        ok := Fail(NestingExceedsLimit);
        return;
      }
      SkipWhitespace();
      if cursor >= |text| {
        ok := Fail(ExpectedValue);
        return;
      }
      JsonComplete.LiteralHeads(text, cursor);
      var current := text[cursor];
      if current == 0x6E {
        var isNull := ConsumeLiteral(Ascii("null"));
        if isNull {
          return true, Null;
        }
      }
      if current == 0x74 {
        var isTrue := ConsumeLiteral(Ascii("true"));
        if isTrue {
          return true, Bool(true);
        }
      }
      if current == 0x66 {
        var isFalse := ConsumeLiteral(Ascii("false"));
        if isFalse {
          return true, Bool(false);
        }
      }
      if current == QUOTE {
        var content;
        ok, content := ParseString();
        value := if ok then String(content) else Null;
        return;
      }
      if current == OPEN_BRACKET {
        ok, value := ParseArray(depth + 1);
        return;
      }
      if current == OPEN_BRACE {
        ok, value := ParseObject(depth + 1);
        return;
      }
      if current == MINUS || IsDigit(current) {
        ok, value := ParseNumber();
        return;
      }
      ok := Fail(InvalidValue);
    }

    method ParseArray(depth: nat) returns (ok: bool, value: Json)
      requires Ready() && cursor < |text|
      modifies this`cursor, this`error
      ensures Reports(ReadArray(text, old(cursor), depth), ok, value)
      decreases |text| - cursor, 0
    {
      hide ReadValue;
      value := Null;
      cursor := cursor + 1;
      SkipWhitespace();
      var items: seq<Json> := [];
      if cursor < |text| && text[cursor] == CLOSE_BRACKET {
        cursor := cursor + 1;
        return true, Array(items);
      }
      while cursor < |text|
        invariant Ready() && cursor > old(cursor)
        invariant ReadElements(text, cursor, depth, items) == ReadArray(text, old(cursor), depth)
        decreases |text| - cursor
      {
        var item;
        ok, item := ParseValue(depth);
        if !ok {
          return;
        }
        items := items + [item];
        SkipWhitespace();
        if cursor < |text| && text[cursor] == CLOSE_BRACKET {
          cursor := cursor + 1;
          return true, Array(items);
        }
        if cursor >= |text| || text[cursor] != COMMA {
          ok := Fail(ExpectedCommaOrBracket);
          return;
        }
        cursor := cursor + 1;
        SkipWhitespace();
      }
      ok := Fail(UnterminatedArray);
    }

    /** The first half of one turn of the loop over the members. */
    method ParseMember(depth: nat) returns (ok: bool, key: bytes, item: Json)
      requires Ready()
      modifies this`cursor, this`error
      ensures Reports(ReadMember(text, old(cursor), depth), ok, (key, item))
      decreases |text| - cursor, 0
    {
      hide ReadValue, ReadString;
      item := Null;
      ok, key := ParseString();
      if !ok {
        return;
      }
      SkipWhitespace();
      if cursor >= |text| || text[cursor] != COLON {
        ok := Fail(ExpectedColon);
        return;
      }
      cursor := cursor + 1;
      ok, item := ParseValue(depth);
    }

    method ParseObject(depth: nat) returns (ok: bool, value: Json)
      requires Ready() && cursor < |text|
      modifies this`cursor, this`error
      ensures Reports(ReadObject(text, old(cursor), depth), ok, value)
      decreases |text| - cursor, 0
    {
      hide ReadMember;
      value := Null;
      cursor := cursor + 1;
      SkipWhitespace();
      var fields: map<bytes, Json> := map[];
      if cursor < |text| && text[cursor] == CLOSE_BRACE {
        cursor := cursor + 1;
        return true, Object(fields);
      }
      while cursor < |text|
        invariant Ready() && cursor > old(cursor)
        invariant ReadMembers(text, cursor, depth, fields) == ReadObject(text, old(cursor), depth)
        decreases |text| - cursor
      {
        var key, item;
        ok, key, item := ParseMember(depth);
        if !ok {
          return;
        }
        fields := fields[key := item];
        SkipWhitespace();
        if cursor < |text| && text[cursor] == CLOSE_BRACE {
          cursor := cursor + 1;
          return true, Object(fields);
        }
        if cursor >= |text| || text[cursor] != COMMA {
          ok := Fail(ExpectedCommaOrBrace);
          return;
        }
        cursor := cursor + 1;
        SkipWhitespace();
      }
      ok := Fail(UnterminatedObject);
    }

    method Parse() returns (ok: bool, value: Json)
      requires Ready() && cursor == 0
      modifies this`cursor, this`error
      ensures Reports(ReadText(text), ok, value)
    {
      hide ReadValue;
      SkipWhitespace();
      ok, value := ParseValue(0);
      if !ok {
        return;
      }
      SkipWhitespace();
      if cursor != |text| {
        ok := Fail(TrailingCharacters);
      }
    }
  }

  /** The parser's meaning: it accepts exactly the derivable texts and returns the derived value. */
  method ParseJson(text: bytes) returns (ok: bool, value: Json, error: Option<ParseError>)
    ensures ok <==> exists w :: Derives(text, w)
    ensures ok ==> Derives(text, value) && error.None?
    ensures ok ==> forall w :: Derives(text, w) ==> w == value
    ensures !ok ==> error.Some?
  {
    var parser := new Parser(text);
    ok, value := parser.Parse();
    JsonSound.SoundAndComplete(text, value);
    forall w | Derives(text, w) ensures ok && w == value {
      JsonComplete.Complete(text, w);
    }
    error := parser.error;
  }
}
