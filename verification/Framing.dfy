/** Message framing (crates/flowsdn-bgp-proto/src/lib.rs; section 4.1 of RFC 4271). */
module Framing {
  import opened Bytes

  const HEADER_LENGTH := 19
  const MAX_MESSAGE_LENGTH := 4096
  const MAX_BODY := MAX_MESSAGE_LENGTH - HEADER_LENGTH

  datatype ErrorScope = InFraming | AttributeStructure | UpdateContent | InOpen

  datatype ProtocolError = ProtocolError(code: byte, subcode: byte, scope: ErrorScope)

  datatype DecodeError = NeedMore | Protocol(error: ProtocolError)

  datatype Kind = KOpen | KUpdate | KNotification | KKeepalive | KRouteRefresh

  datatype Frame = Frame(kind: Kind, body: seq<byte>)

  function FramingError(subcode: byte): ProtocolError
  {
    ProtocolError(1, subcode, InFraming)
  }

  function KindByte(k: Kind): byte
  {
    match k
    case KOpen => 1
    case KUpdate => 2
    case KNotification => 3
    case KKeepalive => 4
    case KRouteRefresh => 5
  }

  function KindOf(b: byte): Option<Kind>
  {
    match b
    case 1 => Some(KOpen)
    case 2 => Some(KUpdate)
    case 3 => Some(KNotification)
    case 4 => Some(KKeepalive)
    case 5 => Some(KRouteRefresh)
    case _ => None
  }

  /** The length bounds of each message kind, header included. */
  predicate LengthAllowed(k: Kind, length: nat)
  {
    match k
    case KOpen => length >= 29
    case KUpdate => length >= 23
    case KNotification => length >= 21
    case KKeepalive => length == 19
    case KRouteRefresh => length == 23
  }

  /** One frame and the bytes it took; trailing bytes belong to the next frame. */
  function Decode(bytes: seq<byte>): (r: Result<(Frame, nat), DecodeError>)
    ensures r.Ok? ==> HEADER_LENGTH <= r.value.1 <= Min(|bytes|, MAX_MESSAGE_LENGTH)
    ensures r.Ok? ==> |r.value.0.body| == r.value.1 - HEADER_LENGTH
    ensures r == Err(NeedMore) ==> |bytes| < MAX_MESSAGE_LENGTH
  {
    if |bytes| < HEADER_LENGTH then Err(NeedMore) else
    var length := U16Of(bytes[16..18]);
    if !(HEADER_LENGTH <= length <= MAX_MESSAGE_LENGTH) then Err(Protocol(FramingError(2))) else
    var kind := KindOf(bytes[18]);
    if kind.None? then Err(Protocol(FramingError(3))) else
    if !LengthAllowed(kind.value, length) then Err(Protocol(FramingError(2))) else
    if |bytes| < length then Err(NeedMore) else
    Ok((Frame(kind.value, bytes[HEADER_LENGTH..length]), length))
  }

  function Marker(): (r: seq<byte>)
    ensures |r| == 16
  {
    [255, 255, 255, 255, 255, 255, 255, 255, 255, 255, 255, 255, 255, 255, 255, 255]
  }

  function Envelope(kind: Kind, body: seq<byte>): (r: seq<byte>)
    requires |body| <= MAX_BODY
    ensures |r| == HEADER_LENGTH + |body|
  {
    Marker() + U16Bytes(HEADER_LENGTH + |body|) + [KindByte(kind)] + body
  }

  function Encode(kind: Kind, body: seq<byte>): Result<seq<byte>, ProtocolError>
  {
    if |body| > MAX_BODY then Err(FramingError(2)) else
    var bytes := Envelope(kind, body);
    match Decode(bytes)
    case Ok(_) => Ok(bytes)
    case Err(Protocol(e)) => Err(e)
    case Err(NeedMore) => Err(FramingError(2))
  }

  lemma EnvelopeDecodes(kind: Kind, body: seq<byte>, rest: seq<byte>)
    requires |body| <= MAX_BODY
    ensures Decode(Envelope(kind, body) + rest) ==
            if LengthAllowed(kind, HEADER_LENGTH + |body|)
            then Ok((Frame(kind, body), HEADER_LENGTH + |body|))
            else Err(Protocol(FramingError(2)))
  {
    var e := Envelope(kind, body);
    var length := HEADER_LENGTH + |body|;
    assert (e + rest)[16..18] == U16Bytes(length);
    assert (e + rest)[18] == KindByte(kind);
    assert (e + rest)[HEADER_LENGTH..length] == body;
    U16RoundTrip(length);
    assert e + [] == e;
  }

  /** Encoding succeeds exactly on the sizes the kind allows, and what it
      produces decodes to the same frame whatever bytes follow. */
  lemma EncodeDecode(kind: Kind, body: seq<byte>, rest: seq<byte>)
    ensures Encode(kind, body).Ok? <==>
            |body| <= MAX_BODY && LengthAllowed(kind, HEADER_LENGTH + |body|)
    ensures Encode(kind, body).Err? ==> Encode(kind, body).error == FramingError(2)
    ensures Encode(kind, body).Ok? ==>
              |Encode(kind, body).value| == HEADER_LENGTH + |body|
              && Decode(Encode(kind, body).value + rest)
                 == Ok((Frame(kind, body), |Encode(kind, body).value|))
  {
    if |body| <= MAX_BODY {
      EnvelopeDecodes(kind, body, rest);
      EnvelopeDecodes(kind, body, []);
      assert Envelope(kind, body) + [] == Envelope(kind, body);
    }
  }

  /** Whatever decides a prefix of the stream decides the stream: a frame or an
      error found early does not change when more bytes arrive. */
  lemma DecodeStable(bytes: seq<byte>, more: seq<byte>)
    ensures Decode(bytes) != Err(NeedMore) ==> Decode(bytes + more) == Decode(bytes)
  {
    if |bytes| >= HEADER_LENGTH {
      assert (bytes + more)[16..18] == bytes[16..18];
      var length := U16Of(bytes[16..18]);
      if HEADER_LENGTH <= length <= |bytes| {
        assert (bytes + more)[HEADER_LENGTH..length] == bytes[HEADER_LENGTH..length];
      }
    }
  }

  /** Body sizes of the five messages. */
  predicate Fits(kind: Kind, size: nat)
  {
    && size <= 4077
    && match kind
       case KOpen => size >= 10
       case KUpdate => size >= 4
       case KNotification => size >= 2
       case KKeepalive => size == 0
       case KRouteRefresh => size == 4
  }

  /** The messages in the order of their type numbers, from one on. */
  const KINDS := [KOpen, KUpdate, KNotification, KKeepalive, KRouteRefresh]

  function HeaderLength(bytes: seq<byte>): nat
    requires |bytes| >= 19
  {
    256 * bytes[16] as int + bytes[17] as int
  }

  /** The header is acceptable: a known type, and a length that fits it. */
  predicate GoodHeader(bytes: seq<byte>)
    requires |bytes| >= 19
  {
    19 <= HeaderLength(bytes) && 1 <= bytes[18] <= 5 && Fits(KINDS[bytes[18] - 1], HeaderLength(bytes) - 19)
  }

  /** What is read from every buffer: a frame exactly when its header is acceptable
      and its bytes are all there; more is waited for only when they are not; an
      unknown type is reported as such only when the length could be right. */
  lemma DecodeExactly(bytes: seq<byte>)
    ensures Decode(bytes) ==
            if |bytes| < 19 then Err(NeedMore)
            else if GoodHeader(bytes) then
              if |bytes| < HeaderLength(bytes) then Err(NeedMore)
              else Ok((Frame(KINDS[bytes[18] - 1], bytes[19..HeaderLength(bytes)]), HeaderLength(bytes)))
            else if 19 <= HeaderLength(bytes) <= 4096 && !(1 <= bytes[18] <= 5) then
              Err(Protocol(ProtocolError(1, 3, InFraming)))
            else Err(Protocol(ProtocolError(1, 2, InFraming)))
  {
    if |bytes| >= 19 {
      assert bytes[16..18] == [bytes[16], bytes[17]];
      assert KindOf(bytes[18]) == if 1 <= bytes[18] <= 5 then Some(KINDS[bytes[18] - 1]) else None;
    }
  }

  /** What is written: sixteen octets of ones, the length, the type, the body; and
      when. */
  lemma EncodeExactly(kind: Kind, body: seq<byte>)
    ensures Encode(kind, body).Ok? <==> Fits(kind, |body|)
    ensures Encode(kind, body).Ok? ==>
              var bytes := Encode(kind, body).value;
              && |bytes| == 19 + |body| && (forall i :: 0 <= i < 16 ==> bytes[i] == 255)
              && HeaderLength(bytes) == |bytes| && 1 <= bytes[18] <= 5 && KINDS[bytes[18] - 1] == kind
              && bytes[19..] == body
    ensures Encode(kind, body).Err? ==> Encode(kind, body).error == ProtocolError(1, 2, InFraming)
  {
    EncodeDecode(kind, body, []);
  }

  /** The whole stream of `frames`, each in its envelope. */
  function Stream(frames: seq<Frame>): seq<byte>
    requires forall f :: f in frames ==> Encode(f.kind, f.body).Ok?
  {
    if frames == [] then [] else Encode(frames[0].kind, frames[0].body).value + Stream(frames[1..])
  }

  datatype Parsed = Parsed(frames: seq<Frame>, rest: seq<byte>, fault: Option<ProtocolError>)

  /** Decode until the buffer runs dry or breaks. */
  function Drain(buffer: seq<byte>): Parsed
    decreases |buffer|
  {
    match Decode(buffer)
    case Err(NeedMore) => Parsed([], buffer, None)
    case Err(Protocol(e)) => Parsed([], buffer, Some(e))
    case Ok((frame, used)) =>
      var tail := Drain(buffer[used..]);
      tail.(frames := [frame] + tail.frames)
  }

  /** Cutting the input differently finds the same frames: draining a first
      fragment and then the rest is draining everything at once. */
  lemma {:induction false} DrainFragments(first: seq<byte>, second: seq<byte>)
    ensures var p := Drain(first);
            Drain(first + second) ==
              if p.fault.Some? then p.(rest := p.rest + second)
              else var q := Drain(p.rest + second); q.(frames := p.frames + q.frames)
    decreases |first|
  {
    DecodeStable(first, second);
    match Decode(first)
    case Err(NeedMore) =>
      var q := Drain(first + second);
      assert q == q.(frames := [] + q.frames);
    case Err(Protocol(e)) =>
    case Ok((frame, used)) =>
      assert (first + second)[used..] == first[used..] + second;
      DrainFragments(first[used..], second);
      var p := Drain(first[used..]);
      if p.fault.None? {
        var q := Drain(p.rest + second);
        assert [frame] + (p.frames + q.frames) == ([frame] + p.frames) + q.frames;
      }
  }

  lemma DrainNothing()
    ensures Drain([]) == Parsed([], [], None)
  {
  }

  /** A stream of encoded frames drains back to exactly those frames. */
  lemma {:induction false} DrainStream(frames: seq<Frame>)
    requires forall f :: f in frames ==> Encode(f.kind, f.body).Ok?
    ensures Drain(Stream(frames)) == Parsed(frames, [], None)
  {
    hide Encode, Decode;
    if frames == [] {
      DrainNothing();
    } else {
      var f := frames[0];
      var tail := Stream(frames[1..]);
      EncodeDecode(f.kind, f.body, tail);
      DrainStream(frames[1..]);
      var used := |Encode(f.kind, f.body).value|;
      assert Stream(frames)[used..] == tail;
      assert frames == [f] + frames[1..];
    }
  }

  datatype ErrorAction = NotifyAndClose | CountLogAndDiscard

  function ErrorActionOf(error: ProtocolError, strictUpdateErrors: bool): ErrorAction
  {
    if error.scope == UpdateContent && !strictUpdateErrors then CountLogAndDiscard
    else NotifyAndClose
  }
}
