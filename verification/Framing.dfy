/** Length-prefixed worker frames: the kernel's channel reader and writer and the host's
    strict decoder. */
module Framing {
  import opened Wrappers
  import opened Sequences

  type Byte = b: int | 0 <= b < 256

  const MAX_WRITE := 0x7fff_ffff
  const HEADER_BYTES := 4

  datatype ReadError = CleanEof | Truncated | FrameTooLarge(length: nat)

  // ----- the frame of a payload

  /** Big-endian, 32 bits. */
  function Header(length: nat): (h: seq<Byte>)
    ensures |h| == 4
  {
    [(length / 0x100_0000) % 0x100, (length / 0x1_0000) % 0x100, (length / 0x100) % 0x100, length % 0x100]
  }

  function HeaderValue(first: Byte, second: Byte, third: Byte, fourth: Byte): (n: nat)
    ensures n < 0x1_0000_0000
  {
    first * 0x100_0000 + second * 0x1_0000 + third * 0x100 + fourth
  }

  function Frame(payload: seq<Byte>): seq<Byte> {
    Header(|payload|) + payload
  }

  lemma ShiftByte(q: nat, r: Byte)
    ensures (q * 0x100 + r) / 0x100 == q && (q * 0x100 + r) % 0x100 == r
  {
  }

  lemma Shifts(n: nat)
    ensures n / 0x1_0000 == (n / 0x100) / 0x100
    ensures n / 0x100_0000 == ((n / 0x100) / 0x100) / 0x100
  {
  }

  lemma HeaderRoundTrip(n: nat)
    requires n < 0x1_0000_0000
    ensures HeaderValue(Header(n)[0], Header(n)[1], Header(n)[2], Header(n)[3]) == n
  {
    Shifts(n);
    var a, b, c := n / 0x100, (n / 0x100) / 0x100, ((n / 0x100) / 0x100) / 0x100;
    assert n == a * 0x100 + n % 0x100;
    assert a == b * 0x100 + a % 0x100;
    assert b == c * 0x100 + b % 0x100;
    assert c < 0x100 && c % 0x100 == c;
  }

  lemma HeaderUnique(a: Byte, b: Byte, c: Byte, d: Byte)
    ensures Header(HeaderValue(a, b, c, d)) == [a, b, c, d]
  {
    var ab := a * 0x100 + b;
    var abc := ab * 0x100 + c;
    var n := abc * 0x100 + d;
    assert n == HeaderValue(a, b, c, d);
    ShiftByte(abc, d);
    ShiftByte(ab, c);
    ShiftByte(a, b);
    Shifts(n);
    assert n / 0x100 == abc && n / 0x1_0000 == ab && n / 0x100_0000 == a;
    assert a % 0x100 == a;
  }

  // ----- channels

  class InChannel {
    /** The bytes still to be read before end of file. */
    var rest: seq<Byte>

    constructor (bytes: seq<Byte>)
      ensures rest == bytes
    {
      rest := bytes;
    }

    method InputChar() returns (r: Option<Byte>)
      modifies this
      ensures old(rest) == [] ==> r == None && rest == []
      ensures old(rest) != [] ==> r == Some(old(rest)[0]) && rest == old(rest)[1..]
    {
      if rest == [] {
        return None;
      }
      r := Some(rest[0]);
      rest := rest[1..];
    }

    /** Exactly `length` bytes, or end of file with everything consumed. */
    method ReallyInput(length: nat) returns (r: Option<seq<Byte>>)
      modifies this
      ensures length <= |old(rest)| ==> r == Some(old(rest)[..length]) && rest == old(rest)[length..]
      ensures length > |old(rest)| ==> r == None && rest == []
    {
      if length > |rest| {
        rest := [];
        return None;
      }
      r := Some(rest[..length]);
      rest := rest[length..];
    }
  }

  class OutChannel {
    var written: seq<Byte>

    constructor ()
      ensures written == []
    {
      written := [];
    }

    method OutputChar(b: Byte)
      modifies this
      ensures written == old(written) + [b]
    {
      written := written + [b];
    }

    method OutputString(bytes: seq<Byte>)
      modifies this
      ensures written == old(written) + bytes
    {
      written := written + bytes;
    }
  }

  /** Refuses payloads whose length does not fit; otherwise appends exactly one frame. */
  method WriteFrame(channel: OutChannel, payload: seq<Byte>) returns (ok: bool)
    modifies channel
    ensures ok <==> |payload| <= 0x7fff_ffff
    ensures channel.written == old(channel.written) + if ok then Frame(payload) else []
  {
    var length := |payload|;
    if length > MAX_WRITE {
      return false;
    }
    channel.OutputChar((length / 0x100_0000) % 0x100);
    channel.OutputChar((length / 0x1_0000) % 0x100);
    channel.OutputChar((length / 0x100) % 0x100);
    channel.OutputChar(length % 0x100);
    channel.OutputString(payload);
    ok := true;
  }

  // ----- reading

  datatype Reading<T> = Reading(result: Result<T, ReadError>, rest: seq<Byte>)

  function HeaderOf(bytes: seq<Byte>): Reading<nat> {
    if bytes == [] then Reading(Err(CleanEof), [])
    else if |bytes| < 4 then Reading(Err(Truncated), [])
    else Reading(Ok(HeaderValue(bytes[0], bytes[1], bytes[2], bytes[3])), bytes[4..])
  }

  function FrameOf(bytes: seq<Byte>, maxLength: nat): Reading<seq<Byte>> {
    var header := HeaderOf(bytes);
    match header.result
    case Err(error) => Reading(Err(error), header.rest)
    case Ok(length) =>
      if length > maxLength then Reading(Err(FrameTooLarge(length)), header.rest)
      else if length > |header.rest| then Reading(Err(Truncated), [])
      else Reading(Ok(header.rest[..length]), header.rest[length..])
  }

  method ReadHeader(channel: InChannel) returns (r: Result<nat, ReadError>)
    modifies channel
    ensures Reading(r, channel.rest) == HeaderOf(old(channel.rest))
  {
    var first := channel.InputChar();
    if first.None? {
      return Err(CleanEof);
    }
    var second := channel.InputChar();
    if second.None? {
      return Err(Truncated);
    }
    var third := channel.InputChar();
    if third.None? {
      return Err(Truncated);
    }
    var fourth := channel.InputChar();
    if fourth.None? {
      return Err(Truncated);
    }
    r := Ok(HeaderValue(first.value, second.value, third.value, fourth.value));
  }

  method ReadFrame(maxLength: nat, channel: InChannel) returns (r: Result<seq<Byte>, ReadError>)
    modifies channel
    ensures Reading(r, channel.rest) == FrameOf(old(channel.rest), maxLength)
  {
    var header := ReadHeader(channel);
    if header.Err? {
      return Err(header.error);
    }
    var length := header.value;
    if length > maxLength {
      return Err(FrameTooLarge(length));
    }
    var payload := channel.ReallyInput(length);
    if payload.None? {
      return Err(Truncated);
    }
    r := Ok(payload.value);
  }

  // ----- streams

  function Stream(payloads: seq<seq<Byte>>): seq<Byte> {
    if payloads == [] then [] else Frame(payloads[0]) + Stream(payloads[1..])
  }

  /** All frames of a byte string, and why reading stopped. */
  datatype Session = Session(payloads: seq<seq<Byte>>, stop: ReadError)

  lemma FrameShrinks(bytes: seq<Byte>, maxLength: nat)
    ensures FrameOf(bytes, maxLength).result.Ok? ==> |FrameOf(bytes, maxLength).rest| < |bytes|
  {
  }

  function ReadAll(bytes: seq<Byte>, maxLength: nat): Session
    decreases |bytes|
  {
    var reading := FrameOf(bytes, maxLength);
    match reading.result
    case Err(error) => Session([], error)
    case Ok(payload) =>
      FrameShrinks(bytes, maxLength);
      var later := ReadAll(reading.rest, maxLength);
      Session([payload] + later.payloads, later.stop)
  }

  /** Payloads the writer accepts and the reader admits. */
  ghost predicate Fits(payloads: seq<seq<Byte>>, maxLength: nat) {
    forall p :: p in payloads ==> |p| <= maxLength && |p| <= MAX_WRITE
  }

  lemma HeaderThenRest(n: nat, rest: seq<Byte>)
    requires n < 0x1_0000_0000
    ensures HeaderOf(Header(n) + rest) == Reading(Ok(n), rest)
  {
    HeaderRoundTrip(n);
    var bytes := Header(n) + rest;
    assert bytes[0] == Header(n)[0] && bytes[1] == Header(n)[1];
    assert bytes[2] == Header(n)[2] && bytes[3] == Header(n)[3];
    assert bytes[4..] == rest;
  }

  lemma BodyThenRest(bytes: seq<Byte>, payload: seq<Byte>, rest: seq<Byte>, maxLength: nat)
    requires HeaderOf(bytes) == Reading(Ok(|payload|), payload + rest)
    requires |payload| <= maxLength
    ensures FrameOf(bytes, maxLength) == Reading(Ok(payload), rest)
  {
    assert (payload + rest)[..|payload|] == payload;
    assert (payload + rest)[|payload|..] == rest;
  }

  lemma FrameThenRest(payload: seq<Byte>, rest: seq<Byte>, maxLength: nat)
    requires |payload| <= maxLength && |payload| <= MAX_WRITE
    ensures FrameOf(Frame(payload) + rest, maxLength) == Reading(Ok(payload), rest)
  {
    assert Frame(payload) + rest == Header(|payload|) + (payload + rest);
    HeaderThenRest(|payload|, payload + rest);
    BodyThenRest(Frame(payload) + rest, payload, rest, maxLength);
  }

  lemma ReadAllStep(bytes: seq<Byte>, payload: seq<Byte>, rest: seq<Byte>, maxLength: nat)
    requires FrameOf(bytes, maxLength) == Reading(Ok(payload), rest)
    ensures ReadAll(bytes, maxLength)
            == Session([payload] + ReadAll(rest, maxLength).payloads, ReadAll(rest, maxLength).stop)
  {
  }

  lemma ReadAfterFrame(first: seq<Byte>, tail: seq<Byte>, maxLength: nat, session: Session)
    requires |first| <= maxLength && |first| <= MAX_WRITE
    requires ReadAll(tail, maxLength) == session
    ensures ReadAll(Frame(first) + tail, maxLength) == Session([first] + session.payloads, session.stop)
  {
    FrameThenRest(first, tail, maxLength);
    ReadAllStep(Frame(first) + tail, first, tail, maxLength);
  }

  /** Frames written back to back are read back as written, then a clean end. */
  lemma {:induction false} StreamRoundTrip(payloads: seq<seq<Byte>>, maxLength: nat)
    requires Fits(payloads, maxLength)
    ensures ReadAll(Stream(payloads), maxLength) == Session(payloads, CleanEof)
  {
    if payloads != [] {
      StreamRoundTrip(payloads[1..], maxLength);
      ReadAfterFrame(payloads[0], Stream(payloads[1..]), maxLength, Session(payloads[1..], CleanEof));
      assert payloads == [payloads[0]] + payloads[1..];
    }
  }

  lemma CutFrame(payload: seq<Byte>, bytes: seq<Byte>, maxLength: nat)
    requires |payload| <= maxLength && |payload| <= MAX_WRITE
    requires bytes < Frame(payload)
    ensures FrameOf(bytes, maxLength).result == Err(if bytes == [] then CleanEof else Truncated)
  {
    if |bytes| >= 4 {
      var tail := bytes[4..];
      assert bytes == Header(|payload|) + tail by {
        assert bytes[..4] == Frame(payload)[..4] == Header(|payload|);
      }
      HeaderThenRest(|payload|, tail);
    }
  }

  lemma {:induction false} CutInFirst(payloads: seq<seq<Byte>>, cut: seq<Byte>, maxLength: nat)
    requires payloads != [] && Fits(payloads, maxLength)
    requires cut < Frame(payloads[0])
    ensures ReadAll(cut, maxLength) == Session([], if cut == [] then CleanEof else Truncated)
  {
    CutFrame(payloads[0], cut, maxLength);
  }

  /** A stream cut anywhere is read back as a prefix of what was written, and reading stops
      cleanly exactly when the cut falls between two frames. */
  lemma {:induction false} CutStream(payloads: seq<seq<Byte>>, cut: seq<Byte>, maxLength: nat) returns (k: nat)
    requires Fits(payloads, maxLength)
    requires cut <= Stream(payloads)
    ensures k <= |payloads|
    ensures ReadAll(cut, maxLength).payloads == payloads[..k]
    ensures ReadAll(cut, maxLength).stop == if cut == Stream(payloads[..k]) then CleanEof else Truncated
  {
    if payloads == [] {
      k := 0;
    } else {
      var first := payloads[0];
      var frame, tail := Frame(first), Stream(payloads[1..]);
      if |cut| < |frame| {
        assert cut == (frame + tail)[..|cut|] == frame[..|cut|];
        CutInFirst(payloads, cut, maxLength);
        k := 0;
      } else {
        var rest := cut[|frame|..];
        SplitCut(frame, tail, cut);
        var j := CutStream(payloads[1..], rest, maxLength);
        k := j + 1;
        CutAfterFrame(payloads, rest, maxLength, j);
      }
    }
  }

  /** The session of a cut whose first `j` frames are whole. */
  ghost function CutSession(payloads: seq<seq<Byte>>, cut: seq<Byte>, j: nat): Session
    requires j <= |payloads|
  {
    Session(payloads[..j], if cut == Stream(payloads[..j]) then CleanEof else Truncated)
  }

  lemma {:induction false} CutSessionStep(payloads: seq<seq<Byte>>, rest: seq<Byte>, j: nat)
    requires payloads != [] && j < |payloads|
    ensures CutSession(payloads, Frame(payloads[0]) + rest, j + 1)
            == Session([payloads[0]] + CutSession(payloads[1..], rest, j).payloads,
                       CutSession(payloads[1..], rest, j).stop)
  {
    assert payloads[..j + 1] == [payloads[0]] + payloads[1..][..j];
    StreamTake(payloads, j);
    PrefixCancels(Frame(payloads[0]), rest, Stream(payloads[1..][..j]));
  }

  lemma {:induction false} CutAfterFrame(payloads: seq<seq<Byte>>, rest: seq<Byte>, maxLength: nat, j: nat)
    requires payloads != [] && Fits(payloads, maxLength) && j < |payloads|
    requires ReadAll(rest, maxLength) == CutSession(payloads[1..], rest, j)
    ensures ReadAll(Frame(payloads[0]) + rest, maxLength)
            == CutSession(payloads, Frame(payloads[0]) + rest, j + 1)
  {
    ReadAfterFrame(payloads[0], rest, maxLength, CutSession(payloads[1..], rest, j));
    CutSessionStep(payloads, rest, j);
  }

  lemma {:induction false} StreamTake(payloads: seq<seq<Byte>>, j: nat)
    requires payloads != [] && j < |payloads|
    ensures Stream(payloads[..j + 1]) == Frame(payloads[0]) + Stream(payloads[1..][..j])
  {
    assert payloads[..j + 1][1..] == payloads[1..][..j];
  }

  lemma SplitCut(frame: seq<Byte>, tail: seq<Byte>, cut: seq<Byte>)
    requires cut <= frame + tail && |cut| >= |frame|
    ensures cut == frame + cut[|frame|..] && cut[|frame|..] <= tail
  {
    assert cut[..|frame|] == (frame + tail)[..|frame|] == frame;
    assert cut[|frame|..] == (frame + tail)[|frame|..|cut|];
  }

  // ----- the host's decoder

  datatype DecodeError =
    | IncompleteHeader
    | DeclaredTooLarge(length: nat, limit: nat)
    | IncompletePayload(declared: nat, available: nat)
    | TrailingBytes(trailing: nat)

  function CheckedLength(header: seq<Byte>, maxPayload: nat): Result<nat, DecodeError>
    requires |header| == 4
  {
    var length := HeaderValue(header[0], header[1], header[2], header[3]);
    if length > maxPayload then Err(DeclaredTooLarge(length, maxPayload)) else Ok(length)
  }

  function DecodeFrame(frame: seq<Byte>, maxPayload: nat): Result<seq<Byte>, DecodeError> {
    if |frame| < HEADER_BYTES then Err(IncompleteHeader)
    else
      match CheckedLength(frame[..4], maxPayload)
      case Err(error) => Err(error)
      case Ok(length) =>
        var available := |frame| - HEADER_BYTES;
        if available < length then Err(IncompletePayload(length, available))
        else if available > length then Err(TrailingBytes(available - length))
        else Ok(frame[4..])
  }

  lemma CheckedMeaning(header: seq<Byte>, maxPayload: nat, declared: nat)
    requires |header| == 4 && declared == HeaderValue(header[0], header[1], header[2], header[3])
    ensures CheckedLength(header, maxPayload)
            == if declared > maxPayload then Err(DeclaredTooLarge(declared, maxPayload)) else Ok(declared)
  {
  }

  /** Why the host's decoder refuses bytes: fewer than a header, a declared length beyond the bound,
      fewer bytes than declared, or more. */
  lemma DecodeFrameRefuses(frame: seq<Byte>, maxPayload: nat, header: seq<Byte>, declared: nat)
    requires |frame| >= 4 ==>
               && header == frame[..4]
               && declared == HeaderValue(header[0], header[1], header[2], header[3])
    ensures |frame| < 4 ==> DecodeFrame(frame, maxPayload) == Err(IncompleteHeader)
    ensures |frame| >= 4 && declared > maxPayload ==>
              DecodeFrame(frame, maxPayload) == Err(DeclaredTooLarge(declared, maxPayload))
    ensures |frame| >= 4 && declared <= maxPayload && |frame| - 4 < declared ==>
              DecodeFrame(frame, maxPayload) == Err(IncompletePayload(declared, |frame| - 4))
    ensures |frame| >= 4 && declared <= maxPayload && |frame| - 4 > declared ==>
              DecodeFrame(frame, maxPayload) == Err(TrailingBytes(|frame| - 4 - declared))
  {
    if |frame| >= 4 {
      CheckedMeaning(header, maxPayload, declared);
    }
  }

  /** The decoder accepts exactly the byte strings that are one frame within the bound. */
  lemma DecodeFrameExact(frame: seq<Byte>, maxPayload: nat, payload: seq<Byte>)
    ensures DecodeFrame(frame, maxPayload) == Ok(payload) <==>
            frame == Frame(payload) && |payload| <= maxPayload && |payload| < 0x1_0000_0000
  {
    if DecodeFrame(frame, maxPayload) == Ok(payload) {
      HeaderUnique(frame[0], frame[1], frame[2], frame[3]);
      assert frame == frame[..4] + frame[4..];
      assert frame[..4] == [frame[0], frame[1], frame[2], frame[3]];
    }
    if frame == Frame(payload) && |payload| <= maxPayload && |payload| < 0x1_0000_0000 {
      HeaderRoundTrip(|payload|);
      assert frame[..4] == Header(|payload|) && frame[4..] == payload;
    }
  }

  /** The strict decoder and the channel reader agree on whole frames. */
  lemma DecoderAgreesWithReader(frame: seq<Byte>, maxLength: nat)
    ensures DecodeFrame(frame, maxLength).Ok? <==>
            FrameOf(frame, maxLength).result.Ok? && FrameOf(frame, maxLength).rest == []
    ensures DecodeFrame(frame, maxLength).Ok? ==>
              DecodeFrame(frame, maxLength).value == FrameOf(frame, maxLength).result.value
  {
    if |frame| >= 4 {
      assert frame[..4][0] == frame[0] && frame[..4][1] == frame[1]
          && frame[..4][2] == frame[2] && frame[..4][3] == frame[3];
    }
  }
}
