/** HTTP chunked decoding, with the C library's number parsing it relies on. */
module Chunked {
  import opened ByteStrings
  import JsonLeaves

  const CRLF: bytes := [0x0D, 0x0A]
  const SEMICOLON: byte := 0x3B

  // ---- strtoul in base 16, on a 64-bit unsigned long ----

  const WORD := 0x1_0000_0000_0000_0000

  /** `isspace` of the C locale. */
  predicate IsSpace(b: byte) { b == 0x20 || 0x09 <= b <= 0x0D }

  predicate IsHex(b: byte) { 0x30 <= b <= 0x39 || 0x41 <= b <= 0x46 || 0x61 <= b <= 0x66 }

  function HexValue(b: byte): nat
    requires IsHex(b)
  {
    if b <= 0x39 then b - 0x30 else if b <= 0x46 then b - 0x37 else b - 0x57
  }

  predicate AllHex(s: bytes) { forall i :: 0 <= i < |s| ==> IsHex(s[i]) }

  /** The number a run of hexadecimal digits denotes. */
  function HexNumber(s: bytes): nat
    requires AllHex(s)
  {
    if s == [] then 0 else HexNumber(s[..|s| - 1]) * 16 + HexValue(s[|s| - 1])
  }

  function SkipSpaces(s: bytes, i: nat): (j: nat)
    requires i <= |s|
    ensures i <= j <= |s|
    decreases |s| - i
  {
    if i < |s| && IsSpace(s[i]) then SkipSpaces(s, i + 1) else i
  }

  function SkipHex(s: bytes, i: nat): (j: nat)
    requires i <= |s|
    ensures i <= j <= |s| && AllHex(s[i..j])
    ensures j < |s| ==> !IsHex(s[j])
    decreases |s| - i
  {
    if i < |s| && IsHex(s[i]) then
      var j := SkipHex(s, i + 1);
      assert s[i..j] == [s[i]] + s[i + 1..j];
      j
    else i
  }

  /** The value and the offset of the first byte not converted; no conversion leaves the offset at 0. */
  datatype Converted = Converted(value: nat, end: nat)

  function Strtoul(text: bytes): (r: Converted)
    ensures r.end <= |text| && r.value < WORD
  {
    var start := SkipSpaces(text, 0);
    var signed := start < |text| && (text[start] == 0x2B || text[start] == 0x2D);
    var first := if signed then start + 1 else start;
    var prefixed := first + 2 < |text| && text[first] == 0x30 && (text[first + 1] == 0x78 || text[first + 1] == 0x58) && IsHex(text[first + 2]);
    var from := if prefixed then first + 2 else first;
    var end := SkipHex(text, from);
    if end == from then Converted(0, 0)
    else
      var n := HexNumber(text[from..end]);
      if n >= WORD then Converted(WORD - 1, end)
      else if signed && text[start] == 0x2D then Converted((WORD - n) % WORD, end)
      else Converted(n, end)
  }

  // ---- The decoder ----

  predicate CrlfAt(s: bytes, i: nat) { i + 2 <= |s| && s[i] == 0x0D && s[i + 1] == 0x0A }

  /** The first CRLF at or behind `from`. */
  function FindCrlf(s: bytes, from: nat): (r: Option<nat>)
    ensures match r
            case None => forall j: nat :: from <= j ==> !CrlfAt(s, j)
            case Some(n) => from <= n && CrlfAt(s, n) && forall j: nat :: from <= j < n ==> !CrlfAt(s, j)
    decreases |s| - from
  {
    if from + 2 > |s| then None
    else if CrlfAt(s, from) then Some(from)
    else FindCrlf(s, from + 1)
  }

  /** The size a line announces: a number, ended by the end of the C string or by a semicolon. */
  function Announced(line: bytes): Option<nat> {
    var text := CString(line);
    var r := Strtoul(text);
    if r.end == 0 || (r.end < |text| && text[r.end] != SEMICOLON) then None else Some(r.value)
  }

  /** What `c_str` shows of a string: the part before the first NUL. */
  function CString(s: bytes): (t: bytes)
    ensures |t| <= |s| && t == s[..|t|] && 0 !in t
    ensures |t| < |s| ==> s[|t|] == 0
  {
    if s == [] || s[0] == 0 then [] else [s[0]] + CString(s[1..])
  }

  /** What is decoded from `cursor` on. */
  function Decode(body: bytes, cursor: nat): Option<bytes>
    requires cursor <= |body|
    decreases |body| - cursor
  {
    match FindCrlf(body, cursor)
    case None => None
    case Some(lineEnd) =>
      match Announced(body[cursor..lineEnd])
      case None => None
      case Some(size) =>
        var data := lineEnd + 2;
        if size == 0 then Some([])
        else if size > |body| - data || |body| - data - size < 2 || !CrlfAt(body, data + size) then None
        else Behind(body[data..data + size], Decode(body, data + size + 2))
  }

  function Behind(text: bytes, rest: Option<bytes>): Option<bytes> { if rest.None? then None else Some(text + rest.value) }

  lemma BehindTwice(a: bytes, b: bytes, rest: Option<bytes>)
    ensures Behind(a, Behind(b, rest)) == Behind(a + b, rest)
  {
    if rest.Some? { assert a + (b + rest.value) == a + b + rest.value; }
  }

  lemma NoFurtherChunk(body: bytes, cursor: nat)
    requires cursor <= |body|
    ensures FindCrlf(body, cursor).None? ==> Decode(body, cursor) == None
    ensures FindCrlf(body, cursor).Some? && Announced(body[cursor..FindCrlf(body, cursor).value]).None? ==> Decode(body, cursor) == None
    ensures FindCrlf(body, cursor).Some? && Announced(body[cursor..FindCrlf(body, cursor).value]) == Some(0) ==> Decode(body, cursor) == Some([])
  {
    hide Announced, FindCrlf, CrlfAt;
  }

  lemma NextChunk(body: bytes, text: bytes, cursor: nat, size: nat)
    requires cursor <= |body| && FindCrlf(body, cursor).Some? && size > 0
    requires Announced(body[cursor..FindCrlf(body, cursor).value]) == Some(size)
    ensures var data := FindCrlf(body, cursor).value + 2;
            if size > |body| - data || |body| - data - size < 2 || !CrlfAt(body, data + size) then Decode(body, cursor) == None
            else Behind(text, Decode(body, cursor)) == Behind(text + body[data..data + size], Decode(body, data + size + 2))
  {
    hide Announced, FindCrlf, CrlfAt;
    var data := FindCrlf(body, cursor).value + 2;
    if !(size > |body| - data || |body| - data - size < 2 || !CrlfAt(body, data + size)) {
      BehindTwice(text, body[data..data + size], Decode(body, data + size + 2));
    }
  }

  /** On every input the decoder ends, subtracts within range and reads inside the body. */
  method DecodeChunkedBody(body: bytes) returns (decoded: Option<bytes>)
    ensures decoded == Decode(body, 0)
  {
    hide Announced, FindCrlf, Decode;
    var text: bytes := [];
    var cursor: nat := 0;
    assert Decode(body, 0).Some? ==> [] + Decode(body, 0).value == Decode(body, 0).value;
    while true
      invariant cursor <= |body|
      invariant Decode(body, 0) == Behind(text, Decode(body, cursor))
      decreases |body| - cursor
    {
      NoFurtherChunk(body, cursor);
      var found := FindCrlf(body, cursor);
      if found == None {
        return None;
      }
      var lineEnd := found.value;
      var announced := Announced(body[cursor..lineEnd]);
      if announced == None {
        return None;
      }
      var size: nat := announced.value;
      if size == 0 {
        assert text + [] == text;
        return Some(text);
      }
      NextChunk(body, text, cursor, size);
      cursor := lineEnd + 2;
      var left: nat := |body| - cursor;
      if size > left {
        return None;
      }
      var behind: nat := left - size;
      if behind < 2 {
        return None;
      }
      text := text + body[cursor..cursor + size];
      cursor := cursor + size;
      if !CrlfAt(body, cursor) {
        return None;
      }
      cursor := cursor + 2;
    }
  }

  // ---- What a chunked body is ----

  /** A chunk-size line without its CRLF, and the data it announces. */
  datatype Chunk = Chunk(line: bytes, data: bytes)

  predicate OneLine(line: bytes) { forall j: nat :: j < |line| ==> !CrlfAt(line, j) }

  predicate GoodChunk(c: Chunk) { OneLine(c.line) && c.data != [] && Announced(c.line) == Some(|c.data|) }

  predicate GoodChunks(chunks: seq<Chunk>) { forall i :: 0 <= i < |chunks| ==> GoodChunk(chunks[i]) }

  predicate LastLine(line: bytes) { OneLine(line) && Announced(line) == Some(0) }

  function ChunkText(c: Chunk): bytes { c.line + (CRLF + (c.data + CRLF)) }

  /** The chunks, and the line that ends them. */
  function Encoded(chunks: seq<Chunk>, last: bytes): bytes {
    if chunks == [] then last + CRLF else ChunkText(chunks[0]) + Encoded(chunks[1..], last)
  }

  function Payload(chunks: seq<Chunk>): bytes {
    if chunks == [] then [] else chunks[0].data + Payload(chunks[1..])
  }

  lemma CrlfIs(body: bytes, p: nat)
    ensures At(body, p, CRLF) <==> CrlfAt(body, p)
  {
    AtEquals(body, p, CRLF);
    if p + 2 <= |body| { assert body[p..p + 2] == [body[p], body[p + 1]]; }
  }

  lemma LineEnds(body: bytes, p: nat, line: bytes)
    requires At(body, p, line) && CrlfAt(body, p + |line|) && OneLine(line)
    ensures FindCrlf(body, p) == Some(p + |line|) && body[p..p + |line|] == line
  {
    AtEquals(body, p, line);
    forall j: nat | p <= j < p + |line| ensures !CrlfAt(body, j) {
      AtIndex(body, p, line, j - p);
      if j + 1 < p + |line| {
        AtIndex(body, p, line, j + 1 - p);
        assert !CrlfAt(line, j - p);
      }
    }
  }

  /** One chunk, where it lies. */
  lemma ChunkDecodes(body: bytes, p: nat, c: Chunk)
    requires p <= |body| && At(body, p, ChunkText(c)) && GoodChunk(c)
    ensures var data := p + |c.line| + 2; var next := data + |c.data| + 2;
            next <= |body| && Decode(body, p) == Behind(c.data, Decode(body, next))
  {
    hide At, Announced, FindCrlf, OneLine, CrlfAt, Decode;
    var data := p + |c.line| + 2;
    AtThree(body, p, c.line, CRLF, c.data + CRLF);
    AtConcat(body, data, c.data, CRLF);
    CrlfIs(body, p + |c.line|);
    CrlfIs(body, data + |c.data|);
    LineEnds(body, p, c.line);
    AtEquals(body, data, c.data);
    AtEquals(body, data + |c.data|, CRLF);
    NextChunk(body, [], p, |c.data|);
    assert [] + body[data..data + |c.data|] == c.data;
    NothingBefore(Decode(body, p));
  }

  lemma NothingBefore(rest: Option<bytes>)
    ensures Behind([], rest) == rest
  {
    if rest.Some? { assert [] + rest.value == rest.value; }
  }

  lemma LastDecodes(body: bytes, p: nat, last: bytes)
    requires p <= |body| && At(body, p, last + CRLF) && LastLine(last)
    ensures Decode(body, p) == Some([])
  {
    hide At, Announced, FindCrlf, OneLine, Decode;
    AtConcat(body, p, last, CRLF);
    CrlfIs(body, p + |last|);
    LineEnds(body, p, last);
    NoFurtherChunk(body, p);
  }

  /** The decoder returns the concatenated data of any well-formed chunks, whatever the data contains and whatever follows. */
  lemma {:induction false} Complete(body: bytes, p: nat, chunks: seq<Chunk>, last: bytes)
    requires p <= |body| && At(body, p, Encoded(chunks, last)) && GoodChunks(chunks) && LastLine(last)
    ensures Decode(body, p) == Some(Payload(chunks))
    decreases |chunks|
  {
    hide At, Decode, GoodChunk, LastLine, ChunkText;
    if chunks == [] {
      LastDecodes(body, p, last);
    } else {
      var c := chunks[0];
      AtConcat(body, p, ChunkText(c), Encoded(chunks[1..], last));
      assert GoodChunk(c);
      ChunkDecodes(body, p, c);
      assert |ChunkText(c)| == |c.line| + |c.data| + 4 by { TextLength(c); }
      Complete(body, p + |ChunkText(c)|, chunks[1..], last);
    }
  }

  lemma TextLength(c: Chunk)
    ensures |ChunkText(c)| == |c.line| + |c.data| + 4
  {
  }

  /** The first chunk that was decoded. */
  lemma ChunkFound(body: bytes, p: nat) returns (c: Chunk)
    requires p <= |body| && Decode(body, p).Some? && Announced(body[p..FindCrlf(body, p).value]) != Some(0)
    ensures GoodChunk(c) && At(body, p, ChunkText(c)) && p + |ChunkText(c)| <= |body|
    ensures Decode(body, p) == Behind(c.data, Decode(body, p + |ChunkText(c)|))
  {
    hide At, Announced, FindCrlf, OneLine;
    var lineEnd := FindCrlf(body, p).value;
    var line := body[p..lineEnd];
    var size := Announced(line).value;
    var data := lineEnd + 2;
    c := Chunk(line, body[data..data + size]);
    LineIsOne(body, p, lineEnd);
    AtEquals(body, p, line);
    CrlfIs(body, lineEnd);
    AtEquals(body, data, c.data);
    CrlfIs(body, data + size);
    AtConcat(body, data, c.data, CRLF);
    AtThree(body, p, c.line, CRLF, c.data + CRLF);
  }

  /** Whatever the decoder accepts is well-formed chunks with that data. */
  lemma {:induction false} Sound(body: bytes, p: nat) returns (chunks: seq<Chunk>, last: bytes)
    requires p <= |body| && Decode(body, p).Some?
    ensures At(body, p, Encoded(chunks, last)) && GoodChunks(chunks) && LastLine(last) && Payload(chunks) == Decode(body, p).value
    decreases |body| - p
  {
    hide At, Announced, FindCrlf, GoodChunk, OneLine, Decode;
    NoFurtherChunk(body, p);
    var lineEnd := FindCrlf(body, p).value;
    last := body[p..lineEnd];
    if Announced(last) == Some(0) {
      LineIsOne(body, p, lineEnd);
      AtEquals(body, p, last);
      CrlfIs(body, lineEnd);
      chunks := [];
      AtConcat(body, p, last, CRLF);
    } else {
      var c := ChunkFound(body, p);
      var tail;
      TextLength(c);
      tail, last := Sound(body, p + |ChunkText(c)|);
      chunks := [c] + tail;
      assert chunks[1..] == tail && chunks[0] == c;
      AtConcat(body, p, ChunkText(c), Encoded(tail, last));
    }
  }

  lemma LineIsOne(body: bytes, p: nat, lineEnd: nat)
    requires p <= |body| && FindCrlf(body, p) == Some(lineEnd)
    ensures OneLine(body[p..lineEnd])
  {
    var line := body[p..lineEnd];
    forall j: nat | j < |line| ensures !CrlfAt(line, j) {
      assert !CrlfAt(body, p + j);
    }
  }

  /** The decoder accepts exactly the bodies that start with well-formed chunks, and returns their data. */
  lemma DecodesExactly(body: bytes, decoded: bytes)
    ensures Decode(body, 0) == Some(decoded) <==>
            exists chunks, last :: At(body, 0, Encoded(chunks, last)) && GoodChunks(chunks) && LastLine(last) && Payload(chunks) == decoded
  {
    hide At, Encoded, GoodChunks, LastLine, Payload, Decode;
    if Decode(body, 0) == Some(decoded) {
      var chunks, last := Sound(body, 0);
    }
    forall chunks, last | At(body, 0, Encoded(chunks, last)) && GoodChunks(chunks) && LastLine(last) && Payload(chunks) == decoded
      ensures Decode(body, 0) == Some(decoded)
    {
      Complete(body, 0, chunks, last);
    }
  }

  // ---- Chunk lines of section 7.1 of RFC 9112 ----

  /** A size in hexadecimal, and whatever stands between it and the CRLF. */
  datatype RfcChunk = RfcChunk(digits: bytes, extension: bytes, data: bytes)

  predicate GoodSize(digits: bytes, size: nat) { digits != [] && AllHex(digits) && HexNumber(digits) == size < WORD }

  /** No extension, or one that starts directly behind the size; no CR in it. */
  predicate GoodExtension(extension: bytes) { (extension == [] || extension[0] == SEMICOLON) && 0x0D !in extension }

  lemma {:induction false} SkipHexRun(s: bytes, i: nat, j: nat)
    requires i <= j <= |s| && (forall k :: i <= k < j ==> IsHex(s[k])) && (j < |s| ==> !IsHex(s[j]))
    ensures SkipHex(s, i) == j
    decreases j - i
  {
    if i < j { SkipHexRun(s, i + 1, j); }
  }

  lemma {:induction false} CStringBehind(a: bytes, b: bytes)
    requires 0 !in a
    ensures CString(a + b) == a + CString(b)
    decreases |a|
  {
    if a == [] {
      assert a + b == b;
    } else {
      assert (a + b)[1..] == a[1..] + b;
      assert (a + b)[0] == a[0];
      CStringBehind(a[1..], b);
    }
  }

  lemma PlainStart(text: bytes, n: nat)
    requires text != [] && IsHex(text[0]) && (|text| > 1 ==> text[1] != 0x78 && text[1] != 0x58)
    requires SkipHex(text, 0) == n && n > 0 && HexNumber(text[0..n]) < WORD
    ensures Strtoul(text) == Converted(HexNumber(text[0..n]), n)
  {
    hide HexNumber, SkipHex;
    assert SkipSpaces(text, 0) == 0;
  }

  /** `strtoul` reads a plain hexadecimal number up to the first other byte. */
  lemma StrtoulHex(digits: bytes, behind: bytes)
    requires digits != [] && AllHex(digits) && HexNumber(digits) < WORD
    requires behind != [] ==> !IsHex(behind[0]) && behind[0] != 0x78 && behind[0] != 0x58
    ensures Strtoul(digits + behind) == Converted(HexNumber(digits), |digits|)
  {
    hide HexNumber, Strtoul, SkipHex;
    var text := digits + behind;
    assert text[0] == digits[0];
    if |text| > 1 { assert text[1] == if |digits| > 1 then digits[1] else behind[0]; }
    forall k | 0 <= k < |digits| ensures IsHex(text[k]) { assert text[k] == digits[k]; }
    if behind != [] { assert text[|digits|] == behind[0]; }
    SkipHexRun(text, 0, |digits|);
    assert text[0..|digits|] == digits;
    PlainStart(text, |digits|);
  }

  /** A size line is accepted exactly when nothing, a semicolon or a NUL follows the number; in particular the optional
      whitespace that the grammar allows in front of an extension is refused. */
  lemma LineAccepted(digits: bytes, extension: bytes)
    requires digits != [] && AllHex(digits) && HexNumber(digits) < WORD
    requires extension != [] ==> !IsHex(extension[0]) && extension[0] != 0x78 && extension[0] != 0x58
    ensures Announced(digits + extension)
         == if extension == [] || extension[0] == SEMICOLON || extension[0] == 0 then Some(HexNumber(digits)) else None
  {
    var behind := CString(extension);
    CStringBehind(digits, extension);
    StrtoulHex(digits, behind);
    if behind != [] { assert (digits + behind)[|digits|] == behind[0]; }
  }

  function ToChunks(chunks: seq<RfcChunk>): (r: seq<Chunk>)
    ensures |r| == |chunks| && forall i :: 0 <= i < |chunks| ==> r[i] == Chunk(chunks[i].digits + chunks[i].extension, chunks[i].data)
  {
    if chunks == [] then []
    else [Chunk(chunks[0].digits + chunks[0].extension, chunks[0].data)] + ToChunks(chunks[1..])
  }

  function Data(chunks: seq<RfcChunk>): bytes { if chunks == [] then [] else chunks[0].data + Data(chunks[1..]) }

  lemma {:induction false} SameData(chunks: seq<RfcChunk>)
    ensures Payload(ToChunks(chunks)) == Data(chunks)
    decreases |chunks|
  {
    if chunks != [] {
      SameData(chunks[1..]);
      assert ToChunks(chunks)[1..] == ToChunks(chunks[1..]);
    }
  }

  lemma GoodLine(digits: bytes, extension: bytes, size: nat)
    requires GoodSize(digits, size) && GoodExtension(extension)
    ensures OneLine(digits + extension) && Announced(digits + extension) == Some(size)
  {
    LineAccepted(digits, extension);
    var line := digits + extension;
    forall j: nat | j < |line| ensures !CrlfAt(line, j) {
      if j < |digits| { assert line[j] == digits[j]; } else { assert line[j] == extension[j - |digits|]; }
    }
  }

  /** Chunks coded as RFC 9112 says, with representable sizes and extensions directly behind the size, are decoded to the
      concatenation of their data, even when the data contains CRLF; what follows the last chunk is not looked at. */
  lemma RfcBodyDecodes(body: bytes, chunks: seq<RfcChunk>, lastDigits: bytes, lastExtension: bytes)
    requires forall i :: 0 <= i < |chunks| ==>
               chunks[i].data != [] && GoodSize(chunks[i].digits, |chunks[i].data|) && GoodExtension(chunks[i].extension)
    requires GoodSize(lastDigits, 0) && GoodExtension(lastExtension)
    requires At(body, 0, Encoded(ToChunks(chunks), lastDigits + lastExtension))
    ensures Decode(body, 0) == Some(Data(chunks))
  {
    hide At, Encoded, Announced, OneLine, GoodSize, GoodExtension;
    GoodLine(lastDigits, lastExtension, 0);
    forall i | 0 <= i < |chunks| ensures GoodChunk(ToChunks(chunks)[i]) {
      GoodLine(chunks[i].digits, chunks[i].extension, |chunks[i].data|);
    }
    Complete(body, 0, ToChunks(chunks), lastDigits + lastExtension);
    SameData(chunks);
  }

  // ---- An independent encoder ----

  /** A number in hexadecimal, the most significant digit first, without leading zeros. */
  function HexPrinted(n: nat, upper: bool): (s: bytes)
    ensures s != [] && AllHex(s)
  {
    var last := [JsonLeaves.HexChar(n % 16, upper)];
    if n < 16 then last else HexPrinted(n / 16, upper) + last
  }

  lemma HexDigitValue(n: nat, upper: bool)
    requires n < 16
    ensures IsHex(JsonLeaves.HexChar(n, upper)) && HexValue(JsonLeaves.HexChar(n, upper)) == n
  {
  }

  /** Reading a printed number gives it back, in either case of letters. */
  lemma {:induction false} HexReads(n: nat, upper: bool)
    ensures HexNumber(HexPrinted(n, upper)) == n
    decreases n
  {
    var s, last := HexPrinted(n, upper), JsonLeaves.HexChar(n % 16, upper);
    HexDigitValue(n % 16, upper);
    if n < 16 {
      assert s[..0] == [];
    } else {
      HexReads(n / 16, upper);
      assert s[..|s| - 1] == HexPrinted(n / 16, upper) && s[|s| - 1] == last;
    }
  }

  /** Leading zeros do not matter. */
  lemma {:induction false} LeadingZero(s: bytes)
    requires AllHex(s)
    ensures AllHex([0x30] + s) && HexNumber([0x30] + s) == HexNumber(s)
    decreases |s|
  {
    var t := [0x30] + s;
    if s == [] {
      assert t[..0] == [];
    } else {
      LeadingZero(s[..|s| - 1]);
      assert t[..|t| - 1] == [0x30] + s[..|s| - 1];
    }
  }

  /** Every piece as one chunk: its size in hexadecimal, CRLF, the piece, CRLF; then the last chunk. */
  function Chunked(pieces: seq<bytes>, upper: bool): bytes {
    if pieces == [] then Ascii("0\r\n") else HexPrinted(|pieces[0]|, upper) + (CRLF + (pieces[0] + CRLF)) + Chunked(pieces[1..], upper)
  }

  function Flat(pieces: seq<bytes>): bytes { if pieces == [] then [] else pieces[0] + Flat(pieces[1..]) }

  function AsChunks(pieces: seq<bytes>, upper: bool): seq<RfcChunk> {
    if pieces == [] then [] else [RfcChunk(HexPrinted(|pieces[0]|, upper), [], pieces[0])] + AsChunks(pieces[1..], upper)
  }

  lemma {:induction false} ChunkedIs(pieces: seq<bytes>, upper: bool)
    requires forall i :: 0 <= i < |pieces| ==> 1 <= |pieces[i]| < WORD
    ensures var chunks := AsChunks(pieces, upper);
            && Chunked(pieces, upper) == Encoded(ToChunks(chunks), [0x30] + []) && Data(chunks) == Flat(pieces)
            && forall i :: 0 <= i < |chunks| ==>
                 chunks[i].data != [] && GoodSize(chunks[i].digits, |chunks[i].data|) && GoodExtension(chunks[i].extension)
    decreases |pieces|
  {
    hide HexPrinted, HexNumber;
    var chunks := AsChunks(pieces, upper);
    if pieces == [] {
      assert [0x30] + [] + CRLF == Ascii("0\r\n");
    } else {
      ChunkedIs(pieces[1..], upper);
      HexReads(|pieces[0]|, upper);
      assert chunks[1..] == AsChunks(pieces[1..], upper);
      assert ToChunks(chunks)[1..] == ToChunks(chunks[1..]);
      assert HexPrinted(|pieces[0]|, upper) + [] == HexPrinted(|pieces[0]|, upper);
    }
  }

  lemma ZeroIsLast()
    ensures GoodSize([0x30], 0) && GoodExtension([])
  {
    assert [0x30][..0] == [];
  }

  /** Round trip: pieces of any bytes, coded by an independent encoder with sizes in either case, are decoded to their
      concatenation, whatever follows. */
  lemma ChunkedRoundTrip(pieces: seq<bytes>, upper: bool, rest: bytes)
    requires forall i :: 0 <= i < |pieces| ==> 1 <= |pieces[i]| < WORD
    ensures Decode(Chunked(pieces, upper) + rest, 0) == Some(Flat(pieces))
  {
    hide Chunked, Flat, AsChunks, Decode, GoodSize, GoodExtension, Encoded, At;
    var text := Chunked(pieces, upper);
    var body := text + rest;
    ChunkedIs(pieces, upper);
    ZeroIsLast();
    assert body[0..0 + |text|] == text;
    AtEquals(body, 0, text);
    RfcBodyDecodes(body, AsChunks(pieces, upper), [0x30], []);
  }

  // ---- The other forms strtoul reads ----

  lemma {:induction false} SkipSpacesRun(s: bytes, i: nat, j: nat)
    requires i <= j <= |s| && (forall k :: i <= k < j ==> IsSpace(s[k])) && (j < |s| ==> !IsSpace(s[j]))
    ensures SkipSpaces(s, i) == j
    decreases j - i
  {
    if i < j { SkipSpacesRun(s, i + 1, j); }
  }

  /** The value of a sign and a number of any length: saturated at 2^64 - 1, otherwise negated modulo 2^64 by a minus. */
  function SignedWord(minus: bool, n: nat): nat {
    if n >= WORD then WORD - 1 else if minus && n > 0 then WORD - n else n
  }

  /** Spaces, an optional sign and an optional 0x in front of the digits are read as the C library reads them. */
  lemma StrtoulForms(text: bytes, spaces: nat, sign: nat, prefix: nat, end: nat)
    requires sign <= 1 && (prefix == 0 || prefix == 2) && spaces + sign + prefix < end <= |text|
    requires forall k :: 0 <= k < spaces ==> IsSpace(text[k])
    requires sign == 1 ==> text[spaces] == 0x2B || text[spaces] == 0x2D
    requires prefix == 2 ==> text[spaces + sign] == 0x30 && (text[spaces + sign + 1] == 0x78 || text[spaces + sign + 1] == 0x58)
    requires forall k :: spaces + sign + prefix <= k < end ==> IsHex(text[k])
    requires end < |text| ==> !IsHex(text[end]) && (prefix == 0 ==> text[end] != 0x78 && text[end] != 0x58)
    ensures var digits := text[spaces + sign + prefix..end];
            AllHex(digits) && Strtoul(text) == Converted(SignedWord(sign == 1 && text[spaces] == 0x2D, HexNumber(digits)), end)
  {
    hide HexNumber;
    var first, from := spaces + sign, spaces + sign + prefix;
    assert IsHex(text[from]);
    SkipSpacesRun(text, 0, spaces);
    SkipHexRun(text, from, end);
    hide SkipHex, SkipSpaces;
    if prefix == 0 && first + 1 < |text| { assert first + 1 < end ==> IsHex(text[first + 1]); }
    assert text[from..end] != [];
  }
}
