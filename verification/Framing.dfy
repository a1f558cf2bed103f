/** LTS1 frames, and moving them through sends and receives that transfer as few bytes as they like. */
module Framing {
  import opened ByteStrings

  const MAGIC: bytes := [0x4C, 0x54, 0x53, 0x31]
  const HEADER_BYTES := 8

  // ---- Frames ----

  /** The low 32 bits, most significant byte first; shifts and masks are written as divisions and remainders. */
  function BigEndian(n: nat): (b: bytes)
    ensures |b| == 4
  {
    [n / 0x100_0000 % 0x100, n / 0x1_0000 % 0x100, n / 0x100 % 0x100, n % 0x100]
  }

  function Frame(payload: bytes): bytes { MAGIC + BigEndian(|payload|) + payload }

  /** The payload size a header announces, if its magic is right. */
  function HeaderSize(header: bytes): Option<nat>
    requires |header| == HEADER_BYTES
  {
    if header[..4] != MAGIC then None
    else
      var a: int, b: int, c: int, d: int := header[4], header[5], header[6], header[7];
      Some(a * 0x100_0000 + b * 0x1_0000 + c * 0x100 + d)
  }

  method EncodeFrame(payload: bytes) returns (frame: array<byte>)
    ensures fresh(frame) && frame[..] == Frame(payload)
  {
    var size := |payload| % 0x1_0000_0000;
    frame := new byte[HEADER_BYTES + |payload|];
    for index := 0 to 4
      invariant frame[..index] == MAGIC[..index]
    {
      frame[index] := MAGIC[index];
    }
    frame[4] := size / 0x100_0000 % 0x100;
    frame[5] := size / 0x1_0000 % 0x100;
    frame[6] := size / 0x100 % 0x100;
    frame[7] := size % 0x100;
    LowBytes(|payload|);
    for index := 0 to |payload|
      invariant frame[..4] == MAGIC && frame[4..8] == BigEndian(|payload|)
      invariant frame[8..8 + index] == payload[..index]
    {
      frame[8 + index] := payload[index];
    }
    assert frame[..] == frame[..4] + frame[4..8] + frame[8..];
  }

  /** Truncating the size to 32 bits first changes no byte of the header. */
  lemma LowBytes(n: nat)
    ensures BigEndian(n % 0x1_0000_0000) == BigEndian(n)
  {
    HighBitsDrop(n / 0x1_0000_0000, n % 0x1_0000_0000, n);
  }

  lemma HighBitsDrop(k: nat, m: nat, n: nat)
    requires n == 0x1_0000_0000 * k + m
    ensures BigEndian(n) == BigEndian(m)
  {
    Byte3(k, m, n);
    Byte2(k, m, n);
    Byte1(k, m, n);
    Byte0(k, m, n);
  }

  lemma Byte3(k: nat, m: nat, n: nat)
    requires n == 0x1_0000_0000 * k + m
    ensures n / 0x100_0000 % 0x100 == m / 0x100_0000 % 0x100
  {
    assert n / 0x100_0000 == 0x100 * k + m / 0x100_0000;
  }

  lemma Byte2(k: nat, m: nat, n: nat)
    requires n == 0x1_0000_0000 * k + m
    ensures n / 0x1_0000 % 0x100 == m / 0x1_0000 % 0x100
  {
    assert n / 0x1_0000 == 0x100 * (0x100 * k) + m / 0x1_0000;
  }

  lemma Byte1(k: nat, m: nat, n: nat)
    requires n == 0x1_0000_0000 * k + m
    ensures n / 0x100 % 0x100 == m / 0x100 % 0x100
  {
    assert n / 0x100 == 0x100 * (0x1_0000 * k) + m / 0x100;
  }

  lemma Byte0(k: nat, m: nat, n: nat)
    requires n == 0x1_0000_0000 * k + m
    ensures n % 0x100 == m % 0x100
  {
  }

  method DecodeFrameHeader(header: bytes) returns (ok: bool, size: nat)
    requires |header| == HEADER_BYTES
    ensures ok <==> HeaderSize(header).Some?
    ensures ok ==> HeaderSize(header) == Some(size)
    ensures ok ==> size < 0x1_0000_0000 && header == MAGIC + BigEndian(size)
  {
    size := 0;
    for index := 0 to 4
      invariant header[..index] == MAGIC[..index]
    {
      if header[index] != MAGIC[index] {
        assert header[..4][index] != MAGIC[index];
        return false, 0;
      }
    }
    var a: int, b: int, c: int, d: int := header[4], header[5], header[6], header[7];
    size := a * 0x100_0000 + b * 0x1_0000 + c * 0x100 + d;
    Digits(a, b, c, d);
    return true, size;
  }

  lemma Digits(a: byte, b: byte, c: byte, d: byte)
    ensures var n: int := a * 0x100_0000 + b * 0x1_0000 + c * 0x100 + d;
            0 <= n < 0x1_0000_0000 && BigEndian(n) == [a, b, c, d]
  {
    var n: int := a * 0x100_0000 + b * 0x1_0000 + c * 0x100 + d;
    assert n / 0x100_0000 == a && n / 0x1_0000 == a * 0x100 + b && n / 0x100 == a * 0x1_0000 + b * 0x100 + c;
  }

  lemma Assemble(n: nat)
    requires n < 0x1_0000_0000
    ensures var b := BigEndian(n); var w: int, x: int, y: int, z: int := b[0], b[1], b[2], b[3];
            w * 0x100_0000 + x * 0x1_0000 + y * 0x100 + z == n
  {
    assert n == n / 0x100 * 0x100 + n % 0x100;
    assert n / 0x100 == n / 0x1_0000 * 0x100 + n / 0x100 % 0x100;
    assert n / 0x1_0000 == n / 0x100_0000 * 0x100 + n / 0x1_0000 % 0x100;
  }

  /** Bytes read one by one, the most significant first. */
  function Network(b: bytes): nat { if b == [] then 0 else Network(b[..|b| - 1]) * 0x100 + b[|b| - 1] }

  /** The size stands in network byte order. */
  lemma NetworkOrder(n: nat)
    requires n < 0x1_0000_0000
    ensures Network(BigEndian(n)) == n
  {
    var b := BigEndian(n);
    assert b[..3] == [b[0], b[1], b[2]] && b[..3][..2] == [b[0], b[1]] && b[..3][..2][..1] == [b[0]];
    Assemble(n);
    assert Network([b[0]]) == b[0] by { assert [b[0]][..0] == []; }
    assert Network([b[0], b[1]]) == Network([b[0]]) * 0x100 + b[1];
    assert Network([b[0], b[1], b[2]]) == Network([b[0], b[1]]) * 0x100 + b[2];
  }

  /** Header round trip, for every size below 2^32. */
  lemma HeaderOfFrame(payload: bytes)
    requires |payload| < 0x1_0000_0000
    ensures |Frame(payload)| == HEADER_BYTES + |payload| && Frame(payload)[..4] == Ascii("LTS1")
    ensures HeaderSize(Frame(payload)[..HEADER_BYTES]) == Some(|payload|) && Frame(payload)[HEADER_BYTES..] == payload
  {
    var header := Frame(payload)[..HEADER_BYTES];
    assert header == MAGIC + BigEndian(|payload|);
    assert header[..4] == MAGIC && Frame(payload)[..4] == MAGIC;
    assert Ascii("LTS1") == MAGIC;
    Assemble(|payload|);
  }

  /** The bytes of a sequence of frames. */
  function Stream(payloads: seq<bytes>): bytes {
    if payloads == [] then [] else Frame(payloads[0]) + Stream(payloads[1..])
  }

  lemma {:induction false} StreamAppend(payloads: seq<bytes>, last: bytes)
    ensures Stream(payloads + [last]) == Stream(payloads) + Frame(last)
    decreases |payloads|
  {
    if payloads == [] {
      assert [last][1..] == [];
      assert payloads + [last] == [last];
    } else {
      StreamAppend(payloads[1..], last);
      assert (payloads + [last])[1..] == payloads[1..] + [last];
      assert (payloads + [last])[0] == payloads[0];
    }
  }

  // ---- Sending ----

  /** What one `send` does: transfer some bytes, be interrupted, or fail. */
  datatype SendEvent = Sent(most: nat) | SendInterrupted | SendFailed

  function Least(a: nat, b: nat): nat { if a < b then a else b }

  /** Whether `size` bytes are sent, how many of them are written, and the events left. A `send` of nothing is a failure,
      and so is running out of events. */
  function Sends(events: seq<SendEvent>, size: nat): (r: (bool, nat, seq<SendEvent>))
    ensures r.1 <= size && (r.0 <==> r.1 == size)
    decreases |events|
  {
    if size == 0 then (true, 0, events)
    else if events == [] then (false, 0, events)
    else
      match events[0]
      case SendInterrupted => Sends(events[1..], size)
      case SendFailed => (false, 0, events[1..])
      case Sent(most) =>
        var n := Least(most, size);
        if n == 0 then (false, 0, events[1..])
        else
          var (ok, count, later) := Sends(events[1..], size - n);
          (ok, n + count, later)
  }

  class Outgoing {
    var written: bytes
    var events: seq<SendEvent>

    method SendAll(data: array<byte>) returns (ok: bool)
      modifies this
      ensures var (sent, count, later) := Sends(old(events), data.Length);
              ok == sent && written == old(written) + data[..count] && events == later
    {
      var offset: nat := 0;
      assert data[..0] == [];
      while offset < data.Length
        invariant offset <= data.Length
        invariant written == old(written) + data[..offset]
        invariant var (sent, count, later) := Sends(events, data.Length - offset);
                  Sends(old(events), data.Length) == (sent, offset + count, later)
        decreases |events|
      {
        if events == [] {
          return false;
        }
        var event := events[0];
        events := events[1..];
        match event
        case Sent(most) =>
          var sent := Least(most, data.Length - offset);
          if sent == 0 {
            return false;
          }
          written := written + data[offset..offset + sent];
          assert data[..offset + sent] == data[..offset] + data[offset..offset + sent];
          offset := offset + sent;
        case SendInterrupted =>
        case SendFailed => return false;
      }
      ok := true;
    }

    /** `SendFrame`: an empty or oversized payload writes nothing. */
    method SendFrame(payload: bytes, limit: nat) returns (ok: bool)
      modifies this
      ensures if |payload| == 0 || |payload| > limit || |payload| >= 0x1_0000_0000 then !ok && written == old(written) && events == old(events)
              else
                var (sent, count, later) := Sends(old(events), |Frame(payload)|);
                ok == sent && written == old(written) + Frame(payload)[..count] && events == later
    {
      if |payload| == 0 || |payload| > limit || |payload| >= 0x1_0000_0000 {
        return false;
      }
      var frame := EncodeFrame(payload);
      ok := SendAll(frame);
    }
  }

  function Sendings(events: seq<SendEvent>): nat {
    if events == [] then 0 else (if events[0].Sent? then 1 else 0) + Sendings(events[1..])
  }

  /** Sends that transfer something, with interruptions in between, send everything, however little each transfers. */
  lemma {:induction false} HealthySends(events: seq<SendEvent>, size: nat)
    requires forall i :: 0 <= i < |events| ==> events[i].SendInterrupted? || (events[i].Sent? && events[i].most > 0)
    requires Sendings(events) >= size
    ensures Sends(events, size).0
    decreases |events|
  {
    if size > 0 {
      if events[0].Sent? {
        var n := Least(events[0].most, size);
        HealthySends(events[1..], size - n);
      } else {
        HealthySends(events[1..], size);
      }
    }
  }

  /** A failed send was cut short: by a `send` that failed or took nothing, right behind what was written, or by the end of
      the events. */
  lemma {:induction false} SendHasCause(events: seq<SendEvent>, size: nat)
    ensures var (ok, count, later) := Sends(events, size); var taken := |events| - |later|;
            && 0 <= taken && later == events[taken..]
            && (!ok ==> later == [] || (taken > 0 && (events[taken - 1].SendFailed? || events[taken - 1] == Sent(0))))
    decreases |events|
  {
    if size > 0 && events != [] {
      match events[0]
      case SendInterrupted => SendHasCause(events[1..], size);
      case SendFailed =>
      case Sent(most) => if most > 0 { SendHasCause(events[1..], size - Least(most, size)); }
    }
  }

  /** A `send` that fails, or takes nothing, while bytes are left ends the sending where it is. */
  lemma {:induction false} FailedSendEnds(before: seq<SendEvent>, failed: SendEvent, later: seq<SendEvent>, size: nat)
    requires failed.SendFailed? || failed == Sent(0)
    requires forall i :: 0 <= i < |before| ==> before[i].SendInterrupted? || (before[i].Sent? && before[i].most > 0)
    requires !Sends(before, size).0
    ensures Sends(before + [failed] + later, size) == (false, Sends(before, size).1, later)
    decreases |before|
  {
    var events := before + [failed] + later;
    if before == [] {
      assert events[0] == failed && events[1..] == later;
    } else {
      assert events[0] == before[0] && events[1..] == before[1..] + [failed] + later;
      if before[0].Sent? {
        FailedSendEnds(before[1..], failed, later, size - Least(before[0].most, size));
      } else {
        FailedSendEnds(before[1..], failed, later, size);
      }
    }
  }

  // ---- Receiving ----

  /** What one turn of the receive loop meets. `Arrives(n)` is a `recv` that delivers at most `n` bytes. */
  datatype ReceiveEvent = Stop | TimeOut | Quiet | PollError | Hangup | Arrives(most: nat) | Again | RecvError

  datatype ReceiveFailure = Stopping | TimedOut | PollFailed | Disconnected | PeerClosed | RecvFailed | BadMagic | BadSize

  /** Both results carry the events to come and the bytes not yet taken. */
  datatype Exact =
    | Filled(data: bytes, events: seq<ReceiveEvent>, incoming: bytes)
    | Unfilled(failure: ReceiveFailure, events: seq<ReceiveEvent>, incoming: bytes)

  /** What `receive_exact` does with the events to come and the bytes the peer has sent. */
  function ReceiveExactly(events: seq<ReceiveEvent>, incoming: bytes, want: nat, timed: bool): Exact
    decreases |events|
  {
    if want == 0 then
      if events != [] && events[0].Stop? then Unfilled(Stopping, events, incoming) else Filled([], events, incoming)
    else if events == [] || events[0].Stop? then Unfilled(Stopping, events, incoming)
    else
      var later := events[1..];
      match events[0]
      case TimeOut => if timed then Unfilled(TimedOut, later, incoming) else ReceiveExactly(later, incoming, want, timed)
      case Quiet => ReceiveExactly(later, incoming, want, timed)
      case PollError => Unfilled(PollFailed, later, incoming)
      case Hangup => Unfilled(Disconnected, later, incoming)
      case Again => ReceiveExactly(later, incoming, want, timed)
      case RecvError => Unfilled(RecvFailed, later, incoming)
      case Arrives(most) =>
        var n := Least(most, Least(want, |incoming|));
        if n == 0 then Unfilled(PeerClosed, later, incoming) else Prepend(incoming[..n], ReceiveExactly(later, incoming[n..], want - n, timed))
  }

  datatype Received =
    | Payload(payload: bytes, events: seq<ReceiveEvent>, incoming: bytes)
    | NoPayload(failure: ReceiveFailure, events: seq<ReceiveEvent>, incoming: bytes)

  function Receive(events: seq<ReceiveEvent>, incoming: bytes, limit: nat, timed: bool): Received {
    match ReceiveExactly(events, incoming, HEADER_BYTES, timed)
    case Unfilled(failure, later, rest) => NoPayload(failure, later, rest)
    case Filled(header, later, rest) =>
      if |header| != HEADER_BYTES || HeaderSize(header).None? then NoPayload(BadMagic, later, rest)
      else if HeaderSize(header).value == 0 || HeaderSize(header).value > limit then NoPayload(BadSize, later, rest)
      else
        match ReceiveExactly(later, rest, HeaderSize(header).value, timed)
        case Unfilled(failure, last, left) => NoPayload(failure, last, left)
        case Filled(payload, last, left) => Payload(payload, last, left)
  }

  function Prepend(data: bytes, r: Exact): Exact { if r.Filled? then r.(data := data + r.data) else r }

  lemma PrependTwice(a: bytes, b: bytes, r: Exact)
    ensures Prepend(a, Prepend(b, r)) == Prepend(a + b, r)
  {
    if r.Filled? { assert a + (b + r.data) == a + b + r.data; }
  }

  /** The receiving end of a connection: the turns to come, and the bytes the peer has sent. */
  class Incoming {
    var events: seq<ReceiveEvent>
    var incoming: bytes

    method ReceiveExact(buffer: array<byte>, timed: bool) returns (failure: Option<ReceiveFailure>)
      modifies this, buffer
      ensures match ReceiveExactly(old(events), old(incoming), buffer.Length, timed)
              case Unfilled(f, later, rest) => failure == Some(f) && events == later && incoming == rest
              case Filled(data, later, rest) => failure == None && buffer[..] == data && events == later && incoming == rest
    {
      ghost var all := ReceiveExactly(events, incoming, buffer.Length, timed);
      var offset: nat := 0;
      assert Prepend(buffer[..0], all) == all;
      while offset < buffer.Length && events != [] && !events[0].Stop?
        invariant offset <= buffer.Length
        invariant all == Prepend(buffer[..offset], ReceiveExactly(events, incoming, buffer.Length - offset, timed))
        decreases |events|
      {
        var event := events[0];
        events := events[1..];
        match event
        case TimeOut => if timed { return Some(TimedOut); }
        case Quiet =>
        case PollError => return Some(PollFailed);
        case Hangup => return Some(Disconnected);
        case Again =>
        case RecvError => return Some(RecvFailed);
        case Arrives(most) =>
          var count := Least(most, Least(buffer.Length - offset, |incoming|));
          if count == 0 {
            return Some(PeerClosed);
          }
          PrependTwice(buffer[..offset], incoming[..count], ReceiveExactly(events, incoming[count..], buffer.Length - offset - count, timed));
          Store(buffer, offset, incoming[..count]);
          incoming := incoming[count..];
          offset := offset + count;
      }
      if offset < buffer.Length || (events != [] && events[0].Stop?) {
        return Some(Stopping);
      }
      assert buffer[..offset] == buffer[..];
      return None;
    }

    /** `recv` writes behind what is already there. */
    static method Store(buffer: array<byte>, offset: nat, data: bytes)
      requires offset + |data| <= buffer.Length
      modifies buffer
      ensures buffer[..offset + |data|] == old(buffer[..offset]) + data
    {
      for i := 0 to |data|
        invariant buffer[..offset + i] == old(buffer[..offset]) + data[..i]
      {
        buffer[offset + i] := data[i];
      }
    }

    method ReceiveFrame(limit: nat, timed: bool) returns (result: Received)
      modifies this
      ensures match Receive(old(events), old(incoming), limit, timed)
              case NoPayload(failure, later, rest) => result == NoPayload(failure, later, rest) && events == later && incoming == rest
              case Payload(payload, later, rest) => result == Payload(payload, later, rest) && events == later && incoming == rest
    {
      var header := new byte[HEADER_BYTES];
      var failure := ReceiveExact(header, timed);
      if failure != None {
        return NoPayload(failure.value, events, incoming);
      }
      var ok, size := DecodeFrameHeader(header[..]);
      if !ok {
        return NoPayload(BadMagic, events, incoming);
      }
      if size == 0 || size > limit {
        return NoPayload(BadSize, events, incoming);
      }
      var buffer := new byte[size];
      failure := ReceiveExact(buffer, timed);
      if failure != None {
        return NoPayload(failure.value, events, incoming);
      }
      return Payload(buffer[..], events, incoming);
    }
  }

  /** However the bytes arrive, a filled buffer holds the next ones and the others stay. */
  lemma {:induction false} ExactlyTheNext(events: seq<ReceiveEvent>, incoming: bytes, want: nat, timed: bool)
    ensures var r := ReceiveExactly(events, incoming, want, timed);
            r.Filled? ==> want <= |incoming| && r.data == incoming[..want] && r.incoming == incoming[want..]
    ensures var r := ReceiveExactly(events, incoming, want, timed); r.Unfilled? ==> r.failure != BadMagic && r.failure != BadSize
    decreases |events|
  {
    if want != 0 && events != [] {
      match events[0]
      case Arrives(most) =>
        var n := Least(most, Least(want, |incoming|));
        if n > 0 {
          ExactlyTheNext(events[1..], incoming[n..], want - n, timed);
          var r := ReceiveExactly(events[1..], incoming[n..], want - n, timed);
          if r.Filled? { assert incoming[..n] + incoming[n..][..want - n] == incoming[..want]; }
        }
      case _ => ExactlyTheNext(events[1..], incoming, want, timed);
    }
  }

  /** A frame at the front of what arrives is received whole, or not at all. */
  lemma FrameReceived(events: seq<ReceiveEvent>, payload: bytes, rest: bytes, limit: nat, timed: bool)
    requires 1 <= |payload| <= limit && |payload| < 0x1_0000_0000
    ensures var r := Receive(events, Frame(payload) + rest, limit, timed);
            if r.Payload? then r.payload == payload && r.incoming == rest else r.failure != BadMagic && r.failure != BadSize
  {
    hide Frame, HeaderSize, ReceiveExactly;
    var incoming := Frame(payload) + rest;
    HeaderOfFrame(payload);
    ExactlyTheNext(events, incoming, HEADER_BYTES, timed);
    var header := ReceiveExactly(events, incoming, HEADER_BYTES, timed);
    if header.Filled? {
      assert header.data == Frame(payload)[..HEADER_BYTES];
      assert header.incoming == payload + rest;
      ExactlyTheNext(header.events, header.incoming, |payload|, timed);
    }
  }

  /** A cut frame is never received. */
  lemma CutFrame(events: seq<ReceiveEvent>, payload: bytes, n: nat, limit: nat, timed: bool)
    requires 1 <= |payload| <= limit && |payload| < 0x1_0000_0000 && n < |Frame(payload)|
    ensures Receive(events, Frame(payload)[..n], limit, timed).NoPayload?
  {
    hide Frame, HeaderSize, ReceiveExactly;
    var incoming := Frame(payload)[..n];
    HeaderOfFrame(payload);
    ExactlyTheNext(events, incoming, HEADER_BYTES, timed);
    var header := ReceiveExactly(events, incoming, HEADER_BYTES, timed);
    if header.Filled? {
      assert header.data == Frame(payload)[..HEADER_BYTES];
      ExactlyTheNext(header.events, header.incoming, |payload|, timed);
    }
  }

  /** Whatever is received is the payload of the frame in front, within the limit. */
  lemma ReceivedIsFrame(events: seq<ReceiveEvent>, incoming: bytes, limit: nat, timed: bool)
    ensures var r := Receive(events, incoming, limit, timed);
            r.Payload? ==> 1 <= |r.payload| <= limit && |r.payload| < 0x1_0000_0000 && incoming == Frame(r.payload) + r.incoming
  {
    hide ReceiveExactly;
    ExactlyTheNext(events, incoming, HEADER_BYTES, timed);
    var header := ReceiveExactly(events, incoming, HEADER_BYTES, timed);
    if header.Filled? && HeaderSize(header.data).Some? {
      var size := HeaderSize(header.data).value;
      HeaderIs(header.data, size);
      ExactlyTheNext(header.events, header.incoming, size, timed);
      assert incoming == header.data + header.incoming;
    }
  }

  lemma HeaderIs(header: bytes, size: nat)
    requires |header| == HEADER_BYTES && HeaderSize(header) == Some(size)
    ensures size < 0x1_0000_0000 && header == MAGIC + BigEndian(size)
  {
    Digits(header[4], header[5], header[6], header[7]);
    assert header == header[..4] + [header[4], header[5], header[6], header[7]];
  }

  /** A frame that announces nothing, or more than the limit, is refused behind its header; not one byte more is taken. */
  lemma BadSizeRefused(events: seq<ReceiveEvent>, size: nat, rest: bytes, limit: nat, timed: bool)
    requires size < 0x1_0000_0000 && (size == 0 || size > limit)
    requires ReceiveExactly(events, MAGIC + BigEndian(size) + rest, HEADER_BYTES, timed).Filled?
    ensures var incoming := MAGIC + BigEndian(size) + rest;
            Receive(events, incoming, limit, timed) == NoPayload(BadSize, ReceiveExactly(events, incoming, HEADER_BYTES, timed).events, rest)
  {
    hide ReceiveExactly;
    var header := MAGIC + BigEndian(size);
    ExactlyTheNext(events, header + rest, HEADER_BYTES, timed);
    assert (header + rest)[..HEADER_BYTES] == header && (header + rest)[HEADER_BYTES..] == rest;
    assert header[..4] == MAGIC;
    Assemble(size);
  }

  /** So is a header with another magic. */
  lemma BadMagicRefused(events: seq<ReceiveEvent>, incoming: bytes, limit: nat, timed: bool)
    requires |incoming| >= HEADER_BYTES && incoming[..4] != Ascii("LTS1")
    requires ReceiveExactly(events, incoming, HEADER_BYTES, timed).Filled?
    ensures Receive(events, incoming, limit, timed)
         == NoPayload(BadMagic, ReceiveExactly(events, incoming, HEADER_BYTES, timed).events, incoming[HEADER_BYTES..])
  {
    hide ReceiveExactly;
    ExactlyTheNext(events, incoming, HEADER_BYTES, timed);
    assert incoming[..HEADER_BYTES][..4] == incoming[..4];
    assert Ascii("LTS1") == MAGIC;
  }

  /** The failure an event ends a wait for bytes with, if it ends it; `rest` is what the peer has sent and was not taken. */
  function Cause(event: ReceiveEvent, rest: bytes, timed: bool): Option<ReceiveFailure> {
    match event
    case TimeOut => if timed then Some(TimedOut) else None
    case PollError => Some(PollFailed)
    case Hangup => Some(Disconnected)
    case RecvError => Some(RecvFailed)
    case Arrives(most) => if most == 0 || rest == [] then Some(PeerClosed) else None
    case Stop => Some(Stopping)
    case _ => None
  }

  /** Which event ends in which failure: a wait that fails was stopped, or the last event taken is the cause. */
  lemma {:induction false} FailureHasCause(events: seq<ReceiveEvent>, incoming: bytes, want: nat, timed: bool)
    requires ReceiveExactly(events, incoming, want, timed).Unfilled?
    ensures Caused(events, timed, ReceiveExactly(events, incoming, want, timed))
    decreases |events|
  {
    if want != 0 && events != [] && !events[0].Stop? {
      hide Caused;
      if events[0].Arrives? {
        var n := Least(events[0].most, Least(want, |incoming|));
        if n > 0 {
          FailureHasCause(events[1..], incoming[n..], want - n, timed);
          CausedLater(events, timed, ReceiveExactly(events, incoming, want, timed));
        } else {
          CausedNow(events, timed, ReceiveExactly(events, incoming, want, timed));
        }
      } else if Cause(events[0], incoming, timed).None? {
        FailureHasCause(events[1..], incoming, want, timed);
        CausedLater(events, timed, ReceiveExactly(events, incoming, want, timed));
      } else {
        CausedNow(events, timed, ReceiveExactly(events, incoming, want, timed));
      }
    }
  }

  /** The failure was a stop, or its cause is the last of the events taken. */
  predicate Caused(events: seq<ReceiveEvent>, timed: bool, r: Exact)
    requires r.Unfilled?
  {
    var taken := |events| - |r.events|;
    && 0 <= taken && r.events == events[taken..]
    && (if r.failure == Stopping then r.events == [] || r.events[0].Stop?
        else taken > 0 && Cause(events[taken - 1], r.incoming, timed) == Some(r.failure))
  }

  lemma CausedNow(events: seq<ReceiveEvent>, timed: bool, r: Exact)
    requires events != [] && r.Unfilled? && r.events == events[1..] && r.failure != Stopping
    requires Cause(events[0], r.incoming, timed) == Some(r.failure)
    ensures Caused(events, timed, r)
  {
    hide Cause;
  }

  lemma CausedLater(events: seq<ReceiveEvent>, timed: bool, r: Exact)
    requires events != [] && r.Unfilled? && Caused(events[1..], timed, r)
    ensures Caused(events, timed, r)
  {
    hide Cause;
  }

  /** What such a wait took are the next bytes, and no more than wanted. */
  lemma {:induction false} FailureTakesNext(events: seq<ReceiveEvent>, incoming: bytes, want: nat, timed: bool)
    requires ReceiveExactly(events, incoming, want, timed).Unfilled?
    ensures var r := ReceiveExactly(events, incoming, want, timed); var taken := |incoming| - |r.incoming|;
            0 <= taken <= want && incoming[taken..] == r.incoming
    decreases |events|
  {
    if want != 0 && events != [] && !events[0].Stop? {
      if events[0].Arrives? {
        var n := Least(events[0].most, Least(want, |incoming|));
        if n > 0 { FailureTakesNext(events[1..], incoming[n..], want - n, timed); }
      } else if Cause(events[0], incoming, timed).None? {
        FailureTakesNext(events[1..], incoming, want, timed);
      }
    }
  }

  /** And the other way round: while bytes are wanted, an event with a cause ends the wait with it. */
  lemma CauseFails(events: seq<ReceiveEvent>, incoming: bytes, want: nat, timed: bool)
    requires want > 0 && events != [] && Cause(events[0], incoming, timed).Some?
    ensures var r := ReceiveExactly(events, incoming, want, timed);
            r.Unfilled? && r.failure == Cause(events[0], incoming, timed).value && r.incoming == incoming
  {
  }

  lemma {:induction false} FilledLeaves(events: seq<ReceiveEvent>, incoming: bytes, want: nat, timed: bool)
    requires ReceiveExactly(events, incoming, want, timed).Filled?
    ensures var later := ReceiveExactly(events, incoming, want, timed).events;
            |later| <= |events| && later == events[|events| - |later|..]
    decreases |events|
  {
    if want != 0 {
      if events[0].Arrives? {
        var n := Least(events[0].most, Least(want, |incoming|));
        FilledLeaves(events[1..], incoming[n..], want - n, timed);
      } else {
        FilledLeaves(events[1..], incoming, want, timed);
      }
    }
  }

  /** Why no frame was received: another magic, a size of nothing or above the limit, or a wait that was cut short. */
  lemma NoFrameHasCause(events: seq<ReceiveEvent>, incoming: bytes, limit: nat, timed: bool)
    requires Receive(events, incoming, limit, timed).NoPayload?
    ensures var r := Receive(events, incoming, limit, timed);
            match r.failure
            case BadMagic => |incoming| >= HEADER_BYTES && incoming[..4] != Ascii("LTS1") && r.incoming == incoming[HEADER_BYTES..]
            case BadSize =>
              && |incoming| >= HEADER_BYTES && incoming[..4] == Ascii("LTS1") && r.incoming == incoming[HEADER_BYTES..]
              && (Network(incoming[4..HEADER_BYTES]) == 0 || Network(incoming[4..HEADER_BYTES]) > limit)
            case _ => Caused(events, timed, Unfilled(r.failure, r.events, r.incoming))
  {
    hide ReceiveExactly, Caused, Network, HeaderSize;
    ExactlyTheNext(events, incoming, HEADER_BYTES, timed);
    var header := ReceiveExactly(events, incoming, HEADER_BYTES, timed);
    if header.Unfilled? {
      FailureHasCause(events, incoming, HEADER_BYTES, timed);
    } else {
      FilledLeaves(events, incoming, HEADER_BYTES, timed);
      HeaderMeans(header.data);
      assert incoming[..HEADER_BYTES][..4] == incoming[..4] && incoming[..HEADER_BYTES][4..] == incoming[4..HEADER_BYTES];
      if HeaderSize(header.data).Some? {
        var size := HeaderSize(header.data).value;
        if 0 < size <= limit {
          ExactlyTheNext(header.events, header.incoming, size, timed);
          FailureHasCause(header.events, header.incoming, size, timed);
          CausedBehind(events, header.events, timed, ReceiveExactly(header.events, header.incoming, size, timed));
        }
      }
    }
  }

  lemma HeaderMeans(header: bytes)
    requires |header| == HEADER_BYTES
    ensures HeaderSize(header) == if header[..4] == Ascii("LTS1") then Some(Network(header[4..])) else None
  {
    assert Ascii("LTS1") == MAGIC;
    if header[..4] == MAGIC {
      var size := HeaderSize(header).value;
      HeaderIs(header, size);
      assert header[4..] == BigEndian(size);
      NetworkOrder(size);
    }
  }

  lemma CausedBehind(events: seq<ReceiveEvent>, later: seq<ReceiveEvent>, timed: bool, r: Exact)
    requires r.Unfilled? && |later| <= |events| && later == events[|events| - |later|..] && Caused(later, timed, r)
    ensures Caused(events, timed, r)
  {
    hide Cause;
    var taken := |later| - |r.events|;
    assert later[taken..] == events[|events| - |r.events|..];
    if taken > 0 { assert later[taken - 1] == events[|events| - |r.events| - 1]; }
  }

  // ---- Many frames ----

  predicate Sendable(payloads: seq<bytes>, limit: nat) {
    limit < 0x1_0000_0000 && forall i :: 0 <= i < |payloads| ==> 1 <= |payloads[i]| <= limit
  }

  /** The payloads that `n` receives in a row return, up to the first failure. */
  function ReceiveMany(events: seq<ReceiveEvent>, incoming: bytes, limit: nat, n: nat): seq<bytes>
    decreases n
  {
    if n == 0 then []
    else
      match Receive(events, incoming, limit, false)
      case NoPayload(_, _, _) => []
      case Payload(payload, later, rest) => [payload] + ReceiveMany(later, rest, limit, n - 1)
  }

  /** Whatever part of a stream of frames has arrived, and however it was cut up, what is received is the payloads in order. */
  lemma {:induction false} ReceivedInOrder(events: seq<ReceiveEvent>, payloads: seq<bytes>, arrived: nat, limit: nat, n: nat)
    requires Sendable(payloads, limit) && arrived <= |Stream(payloads)|
    ensures ReceiveMany(events, Stream(payloads)[..arrived], limit, n) <= payloads
    decreases n
  {
    hide Frame, Receive;
    var incoming := Stream(payloads)[..arrived];
    if n > 0 {
      if payloads == [] {
        ExactlyTheNext(events, [], HEADER_BYTES, false);
        NothingReceived(events, limit);
      } else {
        var frame, tail := Frame(payloads[0]), Stream(payloads[1..]);
        if arrived < |frame| {
          assert incoming == frame[..arrived];
          CutFrame(events, payloads[0], arrived, limit, false);
        } else {
          var rest := tail[..arrived - |frame|];
          assert incoming == frame + rest;
          FrameReceived(events, payloads[0], rest, limit, false);
          var r := Receive(events, incoming, limit, false);
          if r.Payload? { ReceivedInOrder(r.events, payloads[1..], arrived - |frame|, limit, n - 1); }
        }
      }
    }
  }

  lemma NothingReceived(events: seq<ReceiveEvent>, limit: nat)
    ensures Receive(events, [], limit, false).NoPayload?
  {
    ExactlyTheNext(events, [], HEADER_BYTES, false);
  }

  /** Nothing but partial deliveries and idle turns. */
  predicate Healthy(events: seq<ReceiveEvent>) {
    forall i :: 0 <= i < |events| ==> events[i].Quiet? || events[i].Again? || (events[i].Arrives? && events[i].most > 0)
  }

  function Arrivals(events: seq<ReceiveEvent>): nat {
    if events == [] then 0 else (if events[0].Arrives? then 1 else 0) + Arrivals(events[1..])
  }

  /** With one delivery per wanted byte, a healthy connection fills the buffer. */
  lemma {:induction false} HealthyFills(events: seq<ReceiveEvent>, incoming: bytes, want: nat)
    requires Healthy(events) && want <= |incoming| && Arrivals(events) >= want
    ensures var r := ReceiveExactly(events, incoming, want, false);
            r.Filled? && Healthy(r.events) && Arrivals(r.events) >= Arrivals(events) - want
    decreases |events|
  {
    if want != 0 {
      if events[0].Arrives? {
        var n := Least(events[0].most, Least(want, |incoming|));
        HealthyFills(events[1..], incoming[n..], want - n);
      } else {
        HealthyFills(events[1..], incoming, want);
      }
    }
  }

  /** On a healthy connection that delivers everything, exactly the payloads are received. */
  lemma {:induction false} AllReceived(events: seq<ReceiveEvent>, payloads: seq<bytes>, limit: nat)
    requires Sendable(payloads, limit) && Healthy(events) && Arrivals(events) >= |Stream(payloads)|
    ensures ReceiveMany(events, Stream(payloads), limit, |payloads|) == payloads
    decreases |payloads|
  {
    hide Frame, HeaderSize, ReceiveExactly, Arrivals, Healthy;
    if payloads != [] {
      var payload, rest := payloads[0], Stream(payloads[1..]);
      var incoming := Frame(payload) + rest;
      HeaderOfFrame(payload);
      HealthyFills(events, incoming, HEADER_BYTES);
      ExactlyTheNext(events, incoming, HEADER_BYTES, false);
      var header := ReceiveExactly(events, incoming, HEADER_BYTES, false);
      assert header.data == Frame(payload)[..HEADER_BYTES];
      assert header.incoming == payload + rest;
      HealthyFills(header.events, header.incoming, |payload|);
      ExactlyTheNext(header.events, header.incoming, |payload|, false);
      FrameReceived(events, payload, rest, limit, false);
      AllReceived(Receive(events, incoming, limit, false).events, payloads[1..], limit);
    }
  }

  // ---- One socket, many senders ----

  datatype Holder = Free | Held(payload: bytes, offset: nat)

  /** What was written to the socket, the sender that holds `send_mutex`, the payloads whose send succeeded, and whether one failed. */
  datatype Wire = Wire(written: bytes, holder: Holder, done: seq<bytes>, failed: bool)

  datatype WireStep = Lock(payload: bytes) | Transfer(count: nat) | Interrupt | Fail | Unlock

  predicate WireEnabled(w: Wire, limit: nat, step: WireStep) {
    match step
    case Lock(payload) => w.holder.Free? && 1 <= |payload| <= limit
    case Transfer(count) => w.holder.Held? && w.holder.offset < |Frame(w.holder.payload)| && 1 <= count <= |Frame(w.holder.payload)| - w.holder.offset
    case Interrupt => w.holder.Held? && w.holder.offset < |Frame(w.holder.payload)|
    case Fail => w.holder.Held? && w.holder.offset < |Frame(w.holder.payload)|
    case Unlock => w.holder.Held? && w.holder.offset == |Frame(w.holder.payload)|
  }

  function WireApply(w: Wire, limit: nat, step: WireStep): Wire
    requires WireEnabled(w, limit, step)
  {
    match step
    case Lock(payload) => w.(holder := Held(payload, 0))
    case Transfer(count) =>
      w.(written := w.written + Frame(w.holder.payload)[w.holder.offset..w.holder.offset + count],
         holder := Held(w.holder.payload, w.holder.offset + count))
    case Interrupt => w
    case Fail => w.(holder := Free, failed := true)
    case Unlock => w.(holder := Free, done := w.done + [w.holder.payload])
  }

  ghost predicate WireRun(run: seq<WireStep>, limit: nat, w: Wire, end: Wire)
    decreases |run|
  {
    if run == [] then w == end else WireEnabled(w, limit, run[0]) && WireRun(run[1..], limit, WireApply(w, limit, run[0]), end)
  }

  /** The payloads sent or being sent. */
  function Begun(w: Wire): seq<bytes> { if w.holder.Held? then w.done + [w.holder.payload] else w.done }

  /** Whole frames, and the part of the one being sent. */
  predicate Orderly(w: Wire, limit: nat) {
    && limit < 0x1_0000_0000 && Sendable(Begun(w), limit)
    && (w.holder.Held? ==> w.holder.offset <= |Frame(w.holder.payload)|)
    && (!w.failed ==> w.written == Stream(w.done) + if w.holder.Held? then Frame(w.holder.payload)[..w.holder.offset] else [])
  }

  lemma OrderlyKept(w: Wire, limit: nat, step: WireStep)
    requires Orderly(w, limit) && WireEnabled(w, limit, step)
    ensures Orderly(WireApply(w, limit, step), limit)
    ensures !WireApply(w, limit, step).failed ==> !w.failed
  {
    match step
    case Lock(payload) => OrderlyLock(w, limit, payload);
    case Transfer(count) => OrderlyTransfer(w, limit, count);
    case Unlock => OrderlyUnlock(w, limit);
    case Fail => assert forall i :: 0 <= i < |w.done| ==> Begun(w)[i] == w.done[i];
    case Interrupt =>
  }

  lemma OrderlyLock(w: Wire, limit: nat, payload: bytes)
    requires Orderly(w, limit) && WireEnabled(w, limit, Lock(payload))
    ensures Orderly(WireApply(w, limit, Lock(payload)), limit)
  {
    hide Frame, Stream;
    assert Frame(payload)[..0] == [] && Stream(w.done) + [] == Stream(w.done);
  }

  lemma OrderlyTransfer(w: Wire, limit: nat, count: nat)
    requires Orderly(w, limit) && WireEnabled(w, limit, Transfer(count))
    ensures Orderly(WireApply(w, limit, Transfer(count)), limit)
  {
    hide Frame, Stream, Sendable;
    var frame, offset := Frame(w.holder.payload), w.holder.offset;
    assert frame[..offset] + frame[offset..offset + count] == frame[..offset + count];
    assert Stream(w.done) + frame[..offset] + frame[offset..offset + count] == Stream(w.done) + frame[..offset + count];
  }

  lemma OrderlyUnlock(w: Wire, limit: nat)
    requires Orderly(w, limit) && WireEnabled(w, limit, Unlock)
    ensures Orderly(WireApply(w, limit, Unlock), limit)
  {
    hide Frame, Stream, Sendable;
    var frame := Frame(w.holder.payload);
    StreamAppend(w.done, w.holder.payload);
    assert frame[..w.holder.offset] == frame;
    assert Stream(w.done) + frame + [] == Stream(w.done) + frame;
  }

  lemma {:induction false} WireRunOrderly(run: seq<WireStep>, limit: nat, w: Wire, end: Wire)
    requires Orderly(w, limit) && WireRun(run, limit, w, end)
    ensures Orderly(end, limit)
    decreases |run|
  {
    hide Orderly, WireEnabled, WireApply;
    if run != [] {
      OrderlyKept(w, limit, run[0]);
      WireRunOrderly(run[1..], limit, WireApply(w, limit, run[0]), end);
    }
  }

  const QUIET_WIRE := Wire([], Free, [], false)

  /** With `send_mutex` and no failed send, what is written is whole frames of the payloads sent, however `send` splits them. */
  lemma WrittenIsFrames(run: seq<WireStep>, limit: nat, end: Wire)
    requires limit < 0x1_0000_0000 && WireRun(run, limit, QUIET_WIRE, end) && !end.failed
    ensures end.holder.Free? ==> end.written == Stream(end.done)
    ensures end.written <= Stream(Begun(end))
  {
    hide Frame, Stream, WireRun;
    WireStartsEmpty(limit);
    WireRunOrderly(run, limit, QUIET_WIRE, end);
    if end.holder.Held? {
      StreamAppend(end.done, end.holder.payload);
    }
  }

  lemma WireStartsEmpty(limit: nat)
    requires limit < 0x1_0000_0000
    ensures Orderly(QUIET_WIRE, limit)
  {
  }

  /** End to end: whatever interleaving of senders wrote the bytes, whatever part of them has arrived, and however it is cut up,
      the peer receives payloads that were sent, whole and in order. */
  lemma EndToEnd(run: seq<WireStep>, end: Wire, events: seq<ReceiveEvent>, arrived: nat, limit: nat, n: nat)
    requires limit < 0x1_0000_0000 && WireRun(run, limit, QUIET_WIRE, end) && !end.failed && arrived <= |end.written|
    ensures ReceiveMany(events, end.written[..arrived], limit, n) <= Begun(end)
  {
    hide Frame, Stream, WireRun, ReceiveMany;
    WrittenIsFrames(run, limit, end);
    WireStartsEmpty(limit);
    WireRunOrderly(run, limit, QUIET_WIRE, end);
    var all := Stream(Begun(end));
    assert end.written[..arrived] == all[..arrived];
    ReceivedInOrder(events, Begun(end), arrived, limit, n);
  }
}
