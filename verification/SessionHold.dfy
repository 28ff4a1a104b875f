/** The hold timer counts from the last message heard, and fires exactly when the
    peer was silent for the negotiated time; keepalives go out exactly when due
    (crates/flowsdn-bgp-proto/src/session.rs:229-281, 508-607; section 4.4 of
    RFC 4271). */
module SessionHold {
  import opened Bytes
  import opened Framing
  import OpenCodec
  import Negotiation
  import Messages
  import OpenParameters
  import Update
  import opened SessionCore
  import opened SessionInvariants
  import opened SessionRuns

  function At(input: Input): u64 { input.now }

  /** Every input moves the timers, except bytes that are not yet a message. */
  predicate Ticks(input: Input)
  {
    input.ReceiveAt? ==> Framing.Decode(input.bytes) != Err(NeedMore)
  }

  /** The message an input delivers, and the connection it came on. */
  function Delivered(input: Input): Option<(u64, Frame)>
  {
    match input
    case PollAt(_, _) => None
    case HandleAt(event, _, _) => if event.Message? then Some((event.generation, event.frame)) else None
    case ReceiveAt(generation, bytes, _, _) =>
      match Framing.Decode(bytes)
      case Ok((frame, _)) => Some((generation, frame))
      case Err(_) => None
  }

  /** The messages that show the peer alive: its OPEN, any KEEPALIVE, and an UPDATE
      that is in order. */
  predicate Heard(s: Session, frame: Frame)
  {
    match s.state
    case OpenSent => frame.kind == KOpen
    case OpenConfirm => frame.kind == KKeepalive
    case Established =>
      || frame.kind == KKeepalive
      || (frame.kind == KUpdate && s.negotiated.Some?
          && Update.Validate(frame.body, s.negotiated.value.fourOctetAsn).Ok?)
    case _ => false
  }

  predicate Hears(s: Session, input: Input)
    requires Timed(s)
  {
    && Apply(s, input).Ok?
    && Delivered(input).Some? && Delivered(input).value.0 == s.generation && Heard(s, Delivered(input).value.1)
  }

  /** The hold deadline counted from a time. */
  function HoldFrom(s: Session, now: nat): Option<nat>
    requires s.negotiated.Some?
  {
    if s.negotiated.value.holdTime == 0 then None else Some(now + 1000 * s.negotiated.value.holdTime)
  }

  /** What an input does to the hold timer of a connection that lives on. */
  ghost predicate HoldKept(s: Session, t: Session, heard: bool, now: nat)
  {
    Exchanging(t) && t.negotiated.Some? ==>
      && t.generation == s.generation && Connected(s)
      && (s.state == OpenSent ==> heard)
      && t.deadlines.hold == (if heard then HoldFrom(t, now) else s.deadlines.hold)
      && (s.state != OpenSent ==> t.negotiated == s.negotiated)
  }

  lemma ResetLeaves(s: Session, now: u64, cause: Option<Messages.Notification>)
    ensures Reset(s, now, cause).Ok? ==>
              Reset(s, now, cause).value.session.generation == s.generation + 1
              && !Connected(Reset(s, now, cause).value.session)
  {
    hide Farewell, Disposition;
  }

  lemma HoldAtFrom(s: Session, now: u64)
    requires s.negotiated.Some?
    ensures HoldAt(s, now).Ok? ==> HoldAt(s, now).value == HoldFrom(s, now)
  {
  }

  /** The timer step leaves a connection's hold timer alone, or ends the connection. */
  lemma AdvanceHold(s: Session, now: u64, entropy: u64)
    requires Inv(s) && Timed(s) && Advance(s, now, entropy).Ok?
    ensures var t := Advance(s, now, entropy).value.session;
            && s.generation <= t.generation
            && (Exchanging(t) ==> t.generation == s.generation)
            && (t.generation == s.generation ==> t.state == s.state && t.negotiated == s.negotiated)
            && (t.generation == s.generation && Connected(s) ==> t.deadlines.hold == s.deadlines.hold)
            && (Due(s.deadlines.hold, now) ==> t.generation == s.generation + 1 && !Connected(t))
            && (Connected(s) && !Due(s.deadlines.hold, now) ==> t.generation == s.generation)
            && (!Connected(s) ==> !Connected(t))
  {
    hide ConfigAccepted, RetryAt, KeepaliveAt, Reset;
    ResetLeaves(s.(lastTime := now), now, Some(Messages.Notification(4, 0, [])));
  }

  lemma OpenHold(s: Session, body: seq<byte>, now: u64)
    requires s.state == OpenSent
    ensures OnOpen(s, body, now).Ok? ==> HoldKept(s, OnOpen(s, body, now).value.session, true, now)
  {
    hide Reset, OpenCodec.DecodeOpen, Negotiation.Negotiate, OpenRefusal, KeepaliveAt, HoldAt;
    forall cause ensures Reset(s, now, cause).Ok? ==> !Connected(Reset(s, now, cause).value.session) {
      ResetLeaves(s, now, cause);
    }
    forall n ensures var open := s.(negotiated := Some(n), state := OpenConfirm, deadlines := DISARMED);
                     HoldAt(open, now).Ok? ==> HoldAt(open, now).value == HoldFrom(open, now)
    {
      HoldAtFrom(s.(negotiated := Some(n), state := OpenConfirm, deadlines := DISARMED), now);
    }
  }

  lemma FrameHold(s: Session, frame: Frame, now: u64)
    requires Inv(s)
    ensures Coherent(s)
    ensures OnFrame(s, frame, now).Ok? ==> HoldKept(s, OnFrame(s, frame, now).value.session, Heard(s, frame), now)
  {
    hide Reset, OnOpen, Framing.Encode, Update.Validate, HoldAt, Inv;
    CoherentInv(s);
    forall cause ensures Reset(s, now, cause).Ok? ==> !Connected(Reset(s, now, cause).value.session) {
      ResetLeaves(s, now, cause);
    }
    if s.state == OpenSent { OpenHold(s, frame.body, now); }
    if Exchanging(s) {
      HoldAtFrom(s, now);
      HoldAtFrom(s.(state := Established), now);
    }
  }

  lemma ProcessHold(s: Session, event: Event, now: u64, entropy: u64)
    requires Inv(s)
    ensures Coherent(s)
    ensures Process(s, event, now, entropy).Ok? ==>
              HoldKept(s, Process(s, event, now, entropy).value.session,
                       event.Message? && event.generation == s.generation && Heard(s, event.frame), now)
  {
    hide Reset, OnFrame, ConfigAccepted, OpenCodec.EncodeOpen, RetryAt;
    CoherentInv(s);
    forall t: Session, cause
      ensures Reset(t, now, cause).Ok? ==> !Connected(Reset(t, now, cause).value.session)
    {
      ResetLeaves(t, now, cause);
    }
    if event.Message? { FrameHold(s, event.frame, now); }
  }

  /** The same with the timer step before it. */
  lemma HandleHold(s: Session, event: Event, now: u64, entropy: u64)
    requires Inv(s) && Timed(s) && Handle(s, event, now, entropy).Ok?
    ensures HoldKept(s, Handle(s, event, now, entropy).value.session,
                     event.Message? && event.generation == s.generation && Heard(s, event.frame), now)
  {
    hide Advance, Process, Inv;
    AdvanceHold(s, now, entropy);
    AdvanceGood(s, now, entropy);
    ProcessHold(Advance(s, now, entropy).value.session, event, now, entropy);
  }

  /** One input: a connection that exchanges messages afterwards was there before;
      its hold timer was set anew exactly if the peer was heard, and is as it was
      otherwise. */
  lemma InputHold(s: Session, input: Input)
    requires Inv(s)
    ensures Timed(s)
    ensures Apply(s, input).Ok? ==> HoldKept(s, After(s, input), Hears(s, input), At(input))
  {
    hide Advance, Handle, Reset, Framing.Decode, Inv, Heard;
    InvTimed(s);
    match input
    case PollAt(now, entropy) => if Advance(s, now, entropy).Ok? { AdvanceHold(s, now, entropy); }
    case HandleAt(event, now, entropy) => if Handle(s, event, now, entropy).Ok? { HandleHold(s, event, now, entropy); }
    case ReceiveAt(generation, bytes, now, entropy) =>
      match Framing.Decode(bytes) {
        case Ok((frame, consumed)) =>
          var event := Message(generation, frame);
          if Handle(s, event, now, entropy).Ok? { HandleHold(s, event, now, entropy); }
        case Err(NeedMore) =>
        case Err(Protocol(e)) =>
          if Advance(s, now, entropy).Ok? {
            AdvanceHold(s, now, entropy);
            ResetLeaves(Advance(s, now, entropy).value.session, now,
                        Some(Messages.Notification(e.code, e.subcode, FramingData(bytes, e.subcode))));
          }
      }
  }

  // ---------- over runs ----------

  /** Input `k` of the run shows the peer alive. */
  ghost predicate HearsAt(s: Session, inputs: seq<Input>, k: nat)
    requires Inv(s) && k < |inputs|
  {
    StatesInv(s, inputs, k);
    Hears(States(s, inputs)[k], inputs[k])
  }

  /** Input `j` is the last before state `i` that did, on the same connection. */
  ghost predicate HeardLast(s: Session, inputs: seq<Input>, j: nat, i: nat)
    requires Inv(s) && i <= |inputs|
  {
    && j < i && HearsAt(s, inputs, j)
    && States(s, inputs)[j].generation == States(s, inputs)[i].generation
    && forall k: nat :: j < k < i ==> !HearsAt(s, inputs, k)
  }

  /** On every run, whenever messages are exchanged, the hold deadline is the
      negotiated time after the last input on this connection that showed the peer
      alive. */
  lemma {:induction false} HoldFromLastHeard(s: Session, inputs: seq<Input>, i: nat)
    requires Inv(s) && !Connected(s) && i <= |inputs|
    ensures Exchanging(States(s, inputs)[i]) ==>
              && States(s, inputs)[i].negotiated.Some?
              && exists j: nat ::
                   HeardLast(s, inputs, j, i)
                   && States(s, inputs)[i].deadlines.hold == HoldFrom(States(s, inputs)[i], At(inputs[j]))
    decreases i
  {
    hide Inv, States, After, Hears, Apply;
    StatesInv(s, inputs, i);
    var t := States(s, inputs)[i];
    if Exchanging(t) {
      CoherentInv(t);
      StartsThere(s, inputs);
      StatesInv(s, inputs, i - 1);
      var p, input := States(s, inputs)[i - 1], inputs[i - 1];
      StepHold(p, input);
      if Hears(p, input) {
        assert HearsAt(s, inputs, i - 1) && HeardLast(s, inputs, i - 1, i);
      } else {
        HoldFromLastHeard(s, inputs, i - 1);
        var j: nat :| HeardLast(s, inputs, j, i - 1)
                      && p.deadlines.hold == HoldFrom(p, At(inputs[j]));
        assert !HearsAt(s, inputs, i - 1);
        assert HeardLast(s, inputs, j, i);
      }
    }
  }

  lemma StartsThere(s: Session, inputs: seq<Input>)
    requires Inv(s)
    ensures States(s, inputs)[0] == s
  {
  }

  /** A failed input changes nothing, so the step law covers it. */
  lemma StepHold(s: Session, input: Input)
    requires Inv(s)
    ensures Timed(s)
    ensures Exchanging(After(s, input)) && After(s, input).negotiated.Some? ==>
              && After(s, input).generation == s.generation && Connected(s)
              && (s.state == OpenSent ==> Hears(s, input))
              && After(s, input).deadlines.hold ==
                 (if Hears(s, input) then HoldFrom(After(s, input), At(input)) else s.deadlines.hold)
              && (s.state != OpenSent ==> After(s, input).negotiated == s.negotiated)
  {
    hide Inv, Apply, Hears;
    InputHold(s, input);
    if Apply(s, input).Err? { Unheard(s, input); }
  }

  lemma Unheard(s: Session, input: Input)
    requires Timed(s) && Apply(s, input).Err?
    ensures !Hears(s, input)
  {
  }

  // ---------- the expiry ----------

  const EXPIRY := Send(KNotification, [4, 0])

  /** No notification among the actions has code 4. */
  ghost predicate NoFour(actions: seq<Action>)
  {
    forall i :: 0 <= i < |actions| && actions[i].Send? && actions[i].kind == KNotification ==>
      |actions[i].body| >= 1 && actions[i].body[0] != 4
  }

  lemma NoFourSplit(a: seq<Action>, b: seq<Action>)
    requires NoFour(a) && NoFour(b)
    ensures NoFour(a + b) && EXPIRY !in a + b
  {
  }

  /** The code a reset tells the peer is that of its cause, wrapped or not. */
  lemma FarewellCode(s: Session, cause: Option<Messages.Notification>)
    ensures Farewell(s, cause).Ok? ==>
              match cause
              case None => Farewell(s, cause).value == []
              case Some(n) =>
                exists body :: Farewell(s, cause).value == [Send(KNotification, body)]
                               && |body| >= 2 && body[0] == n.code
                               && (!HardCause(n) ==> body == [n.code, n.subcode] + n.data)
  {
    if cause.Some? && Farewell(s, cause).Ok? {
      var n := cause.value;
      var wrapped := if HardCause(n) then Messages.HardReset(n, BothNotify(s)) else Ok(n);
      var body := Messages.EncodeNotification(wrapped.value).value;
      assert Farewell(s, cause).value == [Send(KNotification, body)];
    }
  }

  lemma ResetNoFour(s: Session, now: u64, cause: Option<Messages.Notification>)
    requires cause.Some? ==> cause.value.code != 4
    ensures Reset(s, now, cause).Ok? ==> NoFour(Reset(s, now, cause).value.actions)
  {
    hide Farewell, Disposition;
    FarewellCode(s, cause);
  }

  lemma OpenCodes(local: OpenCodec.Open, body: seq<byte>, asn: u32)
    ensures OpenCodec.DecodeOpen(body).Err? ==> OpenCodec.DecodeOpen(body).error.code == 2
    ensures OpenCodec.DecodeOpen(body).Ok?
            && Negotiation.Negotiate(local, OpenCodec.DecodeOpen(body).value, asn).Err? ==>
              Negotiation.Negotiate(local, OpenCodec.DecodeOpen(body).value, asn).error.code == 2
  {
    if |body| >= 10 {
      CapsCode(body[10..]);
      var caps := OpenCodec.Capabilities(body[10..]);
      if caps.Ok? {
        EncodeCode(OpenCodec.Open(U16Of(body[1..3]), U16Of(body[3..5]), U32Of(body[5..9]), caps.value));
      }
    }
    if OpenCodec.DecodeOpen(body).Ok? {
      var peer := OpenCodec.DecodeOpen(body).value;
      EncodeCode(local);
      EncodeCode(peer);
      OpenCodec.AsnsAgree(peer);
    }
  }

  lemma EncodeCode(open: OpenCodec.Open)
    ensures OpenCodec.EncodeOpen(open).Err? ==> OpenCodec.EncodeOpen(open).error.code == 2
    ensures OpenCodec.EffectiveAsn(open).Err? ==> OpenCodec.EffectiveAsn(open).error.code == 2
  {
    OpenCodec.EffectiveAsnExactly(open, 0);
    ParamsCode(open.capabilities);
  }

  lemma {:induction false} ParamsCode(caps: seq<OpenCodec.Capability>)
    ensures OpenCodec.Parameters(caps).Err? ==> OpenCodec.Parameters(caps).error.code == 2
  {
    if caps != [] { ParamsCode(caps[1..]); }
  }

  lemma {:induction false} CapsCode(bytes: seq<byte>)
    ensures OpenCodec.Capabilities(bytes).Err? ==> OpenCodec.Capabilities(bytes).error.code == 2
    decreases |bytes|
  {
    if |bytes| >= 2 && |bytes| >= 2 + bytes[1] as int {
      var end := 2 + bytes[1] as int;
      ParamCode(bytes[2..end]);
      CapsCode(bytes[end..]);
    }
  }

  lemma {:induction false} ParamCode(bytes: seq<byte>)
    ensures OpenCodec.ParameterCapabilities(bytes).Err? ==> OpenCodec.ParameterCapabilities(bytes).error.code == 2
    decreases |bytes|
  {
    if |bytes| >= 2 && |bytes| >= 2 + bytes[1] as int { ParamCode(bytes[2 + bytes[1] as int..]); }
  }

  lemma OpenNoFour(s: Session, body: seq<byte>, now: u64)
    requires s.state == OpenSent
    ensures OnOpen(s, body, now).Ok? ==> NoFour(OnOpen(s, body, now).value.actions)
  {
    hide Reset, OpenCodec.DecodeOpen, Negotiation.Negotiate, OpenParameters.OpenParameterSubcode, OfferedFamilies;
    hide HoldAt, KeepaliveAt;
    OpenCodes(s.config.local, body, s.config.peerAsn);
    forall cause: Option<Messages.Notification> | cause.Some? && cause.value.code == 2
      ensures Reset(s, now, cause).Ok? ==> NoFour(Reset(s, now, cause).value.actions)
    {
      ResetNoFour(s, now, cause);
    }
  }

  lemma UpdateNoFour(s: Session, body: seq<byte>, now: u64)
    requires Coherent(s) && s.state == Established
    ensures OnUpdate(s, body, now).Ok? ==> NoFour(OnUpdate(s, body, now).value.actions)
  {
    hide Reset, Update.Validate, HoldAt;
    var four := s.negotiated.value.fourOctetAsn;
    if Update.Validate(body, four).Err? {
      Update.ErrorCodes(body, four);
      var f := Update.Validate(body, four).error;
      ResetNoFour(s, now, Some(Messages.Notification(f.error.code, f.error.subcode, f.data)));
    }
  }

  lemma FrameNoFour(s: Session, frame: Frame, now: u64)
    requires Coherent(s)
    ensures OnFrame(s, frame, now).Ok? ==> NoFour(OnFrame(s, frame, now).value.actions)
  {
    hide Reset, OnOpen, OnUpdate, Framing.Encode, HoldAt, Messages.DecodeNotification, Messages.DecodeRefresh;
    EncodeDecode(frame.kind, frame.body, []);
    forall cause: Option<Messages.Notification> | cause.Some? ==> cause.value.code in {1, 5}
      ensures Reset(s, now, cause).Ok? ==> NoFour(Reset(s, now, cause).value.actions)
    {
      ResetNoFour(s, now, cause);
    }
    if s.state == OpenSent { OpenNoFour(s, frame.body, now); }
    if s.state == Established { UpdateNoFour(s, frame.body, now); }
  }

  lemma ProcessNoFour(s: Session, event: Event, now: u64, entropy: u64)
    requires Coherent(s)
    ensures Process(s, event, now, entropy).Ok? ==> NoFour(Process(s, event, now, entropy).value.actions)
  {
    hide Reset, OnFrame, OpenCodec.EncodeOpen, RetryAt;
    forall t: Session, cause: Option<Messages.Notification> | cause.Some? ==> cause.value.code == 6
      ensures Reset(t, now, cause).Ok? ==> NoFour(Reset(t, now, cause).value.actions)
    {
      ResetNoFour(t, now, cause);
    }
    if event.Message? { FrameNoFour(s, event.frame, now); }
  }

  lemma AdvanceExpires(s: Session, now: u64, entropy: u64)
    requires Inv(s) && Timed(s) && Connected(s) && Advance(s, now, entropy).Ok?
    ensures Due(s.deadlines.hold, now) ==> Advance(s, now, entropy).value.actions == [EXPIRY, Close]
    ensures !Due(s.deadlines.hold, now) ==> NoFour(Advance(s, now, entropy).value.actions)
  {
    hide ConfigAccepted, Farewell, Disposition, KeepaliveAt;
    FarewellCode(s.(lastTime := now), Some(Messages.Notification(4, 0, [])));
    assert [4, 0] + [] == [4, 0];
  }

  /** A connected session sends the hold expiry on an input exactly when its hold
      deadline has come. */
  lemma ExpiresWhenDue(s: Session, input: Input)
    requires Inv(s) && Timed(s) && Connected(s) && Ticks(input) && Apply(s, input).Ok?
    ensures EXPIRY in Emitted(s, input) <==> Due(s.deadlines.hold, At(input))
  {
    hide Advance, Process, Reset, Framing.Decode, Inv, NoFour;
    match input
    case PollAt(now, entropy) =>
      AdvanceExpires(s, now, entropy);
      NoFourSplit2(Advance(s, now, entropy).value.actions, [], Due(s.deadlines.hold, now));
    case HandleAt(event, now, entropy) => HandleExpires(s, event, now, entropy);
    case ReceiveAt(generation, bytes, now, entropy) =>
      match Framing.Decode(bytes) {
        case Ok((frame, consumed)) => HandleExpires(s, Message(generation, frame), now, entropy);
        case Err(Protocol(e)) =>
          AdvanceExpires(s, now, entropy);
          BadFrameCode(bytes);
          var timed := Advance(s, now, entropy).value;
          var cause := Some(Messages.Notification(e.code, e.subcode, FramingData(bytes, e.subcode)));
          ResetNoFour(timed.session, now, cause);
          NoFourSplit2(timed.actions, [], Due(s.deadlines.hold, now));
          if Reset(timed.session, now, cause).Ok? {
            NoFourSplit2(timed.actions, Reset(timed.session, now, cause).value.actions, Due(s.deadlines.hold, now));
          }
      }
  }

  lemma BadFrameCode(bytes: seq<byte>)
    requires Framing.Decode(bytes).Err? && Framing.Decode(bytes).error.Protocol?
    ensures Framing.Decode(bytes).error.error.code == 1
  {
  }

  lemma NoFourSplit2(a: seq<Action>, b: seq<Action>, due: bool)
    requires if due then a == [EXPIRY, Close] else NoFour(a) && (NoFour(b) || b == [])
    ensures (EXPIRY in a + b <==> due) && (EXPIRY in a <==> due)
  {
    if due {
      assert a[0] == EXPIRY && (a + b)[0] == EXPIRY;
    } else {
      assert NoFour([]);
      NoFourSplit(a, b);
      NoFourSplit(a, []);
      assert a + [] == a;
    }
  }

  lemma HandleExpires(s: Session, event: Event, now: u64, entropy: u64)
    requires Inv(s) && Timed(s) && Connected(s) && Handle(s, event, now, entropy).Ok?
    ensures EXPIRY in Handle(s, event, now, entropy).value.actions <==> Due(s.deadlines.hold, now)
  {
    hide Advance, Process, Inv, NoFour;
    AdvanceExpires(s, now, entropy);
    AdvanceGood(s, now, entropy);
    var timed := Advance(s, now, entropy).value;
    ProcessNoFour(timed.session, event, now, entropy);
    NoFourSplit2(timed.actions, Process(timed.session, event, now, entropy).value.actions, Due(s.deadlines.hold, now));
  }

  /** On every run, an input to an established conversation ends it for silence
      exactly when the negotiated hold time has passed since the peer was last
      heard. */
  lemma ExpiresExactly(s: Session, inputs: seq<Input>, i: nat)
    requires Inv(s) && !Connected(s) && i < |inputs|
    ensures Timed(States(s, inputs)[i])
    ensures var t := States(s, inputs)[i];
            Exchanging(t) && Ticks(inputs[i]) && Apply(t, inputs[i]).Ok? ==>
              && t.negotiated.Some?
              && (EXPIRY in Emitted(t, inputs[i]) <==>
                    && t.negotiated.value.holdTime != 0
                    && exists j: nat :: HeardLast(s, inputs, j, i)
                                        && At(inputs[i]) >= At(inputs[j]) + 1000 * t.negotiated.value.holdTime)
  {
    hide Inv, States, Emitted, Apply, HearsAt;
    StatesInv(s, inputs, i);
    HoldFromLastHeard(s, inputs, i);
    var t := States(s, inputs)[i];
    if Exchanging(t) && Ticks(inputs[i]) && Apply(t, inputs[i]).Ok? {
      ExpiresWhenDue(t, inputs[i]);
      var j: nat :| HeardLast(s, inputs, j, i) && t.deadlines.hold == HoldFrom(t, At(inputs[j]));
      forall k: nat | HeardLast(s, inputs, k, i) ensures k == j {}
    }
  }

  /** If the peer is heard within every hold interval, no conversation of the run
      ends for silence. */
  lemma ConversationLasts(s: Session, inputs: seq<Input>, i: nat)
    requires Inv(s) && !Connected(s) && i < |inputs| && Exchanging(States(s, inputs)[i])
    requires States(s, inputs)[i].negotiated.Some? && Ticks(inputs[i])
    requires exists j: nat ::
               HeardLast(s, inputs, j, i)
               && At(inputs[i]) < At(inputs[j]) + 1000 * States(s, inputs)[i].negotiated.value.holdTime
    ensures Timed(States(s, inputs)[i]) && EXPIRY !in Emitted(States(s, inputs)[i], inputs[i])
  {
    hide Inv, States, Apply, HearsAt;
    StatesInv(s, inputs, i);
    ExpiresExactly(s, inputs, i);
    var j: nat :| HeardLast(s, inputs, j, i)
                  && At(inputs[i]) < At(inputs[j]) + 1000 * States(s, inputs)[i].negotiated.value.holdTime;
    forall k: nat | HeardLast(s, inputs, k, i) ensures k == j {}
  }
}
