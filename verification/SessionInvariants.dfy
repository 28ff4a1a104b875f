/** What every step of a session keeps: which timers are armed in which state,
    that they lie in the future, and that only clock and counter limits fail. */
module SessionInvariants {
  import opened Bytes
  import opened Framing
  import opened OpenCodec
  import opened Negotiation
  import opened Messages
  import Update
  import opened SessionCore

  predicate Later(deadline: Option<u64>, now: u64) { deadline.Some? ==> deadline.value > now }

  /** Every armed deadline lies after `now`. */
  predicate AllLater(d: Deadlines, now: u64)
  {
    Later(d.retry, now) && Later(d.hold, now) && Later(d.keepalive, now) && Later(d.idle, now)
  }

  /** The armed timers of each state. */
  predicate Shape(s: Session)
  {
    var d := s.deadlines;
    match s.state
    case Idle => d.retry.None? && d.hold.None? && d.keepalive.None? && (d.idle.Some? <==> s.running)
    case Connect => s.running && !s.config.passive && d == DISARMED.(retry := d.retry) && d.retry.Some?
    case Active => s.running && d == DISARMED.(retry := d.retry) && d.retry.Some?
    case OpenSent => s.running && d == DISARMED.(hold := d.hold) && d.hold.Some?
    case _ =>
      && s.running && s.negotiated.Some? && d.retry.None? && d.idle.None?
      && (d.hold.Some? <==> s.negotiated.value.holdTime != 0)
      && (d.keepalive.Some? <==> s.negotiated.value.holdTime != 0)
  }

  ghost predicate Inv(s: Session)
  {
    && ConfigAccepted(s.config)
    && Coherent(s)
    && (s.negotiated.Some? ==> s.negotiated.value.holdTime !in {1, 2})
    && Shape(s)
    && AllLater(s.deadlines, s.lastTime)
  }

  lemma InvTimed(s: Session)
    requires Inv(s)
    ensures ConfigAccepted(s.config) && Timed(s)
  {
    hide ConfigAccepted;
  }

  lemma NewInv(config: Config)
    requires New(config).Ok?
    ensures Inv(New(config).value)
  {
  }

  /** The longest delay any timer of this configuration is given. */
  function Slack(c: Config): nat { 2 * c.retryMs + 65_535_000 }

  /** An error is never a configuration error, and points at an exhausted range. */
  predicate Excused(e: Error, s: Session, now: u64, generations: nat)
  {
    match e
    case InvalidConfig => false
    case ClockReversed => now < s.lastTime
    case TimeOverflow => now + Slack(s.config) > U64_MAX
    case GenerationExhausted => s.generation + generations > U64_MAX
  }

  /** One internal step at time `now` from a state already at that time. */
  ghost predicate GoodStep(s: Session, now: u64, r: Outcome)
  {
    match r
    case Ok(step) =>
      && step.session.config == s.config && step.session.lastTime == now
      && s.generation <= step.session.generation <= s.generation + 1
      && Inv(step.session)
    case Err(e) => e != ClockReversed && Excused(e, s, now, 1)
  }

  lemma RetryAtGood(s: Session, now: u64, entropy: u64)
    requires ConfigAccepted(s.config)
    ensures RetryAt(s, now, entropy).Ok? ==> RetryAt(s, now, entropy).value > now
    ensures RetryAt(s, now, entropy).Err? ==>
              RetryAt(s, now, entropy).error == TimeOverflow && now + Slack(s.config) > U64_MAX
  {
    RetryDelayBounded(s.config.retryMs, entropy);
  }

  lemma DialGood(s: Session, now: u64, entropy: u64)
    requires ConfigAccepted(s.config) && s.negotiated.None? && s.running && s.lastTime == now
    ensures GoodStep(s, now, DialOrListen(s, now, entropy))
  {
    RetryAtGood(s, now, entropy);
  }

  lemma FallBackGood(s: Session, now: u64, entropy: u64, deadlines: Deadlines)
    requires ConfigAccepted(s.config) && s.negotiated.None? && s.running && s.lastTime == now
    requires deadlines == DISARMED.(retry := deadlines.retry)
    ensures GoodStep(s, now, FallBack(s, now, entropy, deadlines))
  {
    RetryAtGood(s, now, entropy);
  }

  /** Causes whose NOTIFICATION always encodes. */
  predicate Sayable(cause: Option<Notification>)
  {
    cause.Some? ==> |cause.value.data| <= (if HardCause(cause.value) then MAX_DATA - 2 else MAX_DATA)
  }

  lemma FarewellOk(s: Session, cause: Option<Notification>)
    requires Sayable(cause)
    ensures Farewell(s, cause).Ok?
  {
    if cause.Some? {
      var n := cause.value;
      NotificationRoundTrip(n, []);
      if HardCause(n) && BothNotify(s) {
        NotificationRoundTrip(Notification(6, 9, EncodeNotification(n).value), []);
      }
    }
  }

  lemma ResetGood(s: Session, now: u64, cause: Option<Notification>)
    requires ConfigAccepted(s.config) && s.lastTime == now && Sayable(cause)
    ensures GoodStep(s, now, Reset(s, now, cause))
  {
    FarewellOk(s, cause);
  }

  lemma HoldGood(s: Session, now: u64)
    requires s.negotiated.Some? && s.negotiated.value.holdTime !in {1, 2} && ConfigAccepted(s.config)
    ensures HoldAt(s, now).Ok? ==>
              Later(HoldAt(s, now).value, now) && (HoldAt(s, now).value.Some? <==> s.negotiated.value.holdTime != 0)
    ensures HoldAt(s, now).Err? ==> HoldAt(s, now).error == TimeOverflow && now + Slack(s.config) > U64_MAX
    ensures KeepaliveAt(s, now).Ok? ==>
              Later(KeepaliveAt(s, now).value, now)
              && (KeepaliveAt(s, now).value.Some? <==> s.negotiated.value.holdTime != 0)
    ensures KeepaliveAt(s, now).Err? ==> KeepaliveAt(s, now).error == TimeOverflow && now + Slack(s.config) > U64_MAX
  {
  }

  /** After the timer step everything still armed lies strictly ahead. */
  lemma AdvanceGood(s: Session, now: u64, entropy: u64)
    requires Inv(s)
    ensures Timed(s)
    ensures Advance(s, now, entropy).Ok? ==> GoodStep(s.(lastTime := now), now, Advance(s, now, entropy))
    ensures Advance(s, now, entropy).Err? ==> Excused(Advance(s, now, entropy).error, s, now, 1)
    ensures Advance(s, now, entropy) == Err(ClockReversed) <==> now < s.lastTime
  {
    hide ConfigAccepted, DialOrListen, Reset, KeepaliveAt;
    if now >= s.lastTime {
      var at := s.(lastTime := now);
      if Due(at.deadlines.hold, now) {
        ResetGood(at, now, Some(Notification(4, 0, [])));
      } else if at.deadlines.idle.Some? || s.state in {Connect, Active} {
        DialGood(at, now, entropy);
      } else if Exchanging(s) {
        HoldGood(at, now);
      }
    }
  }

  lemma {:induction false} OfferedBound(caps: seq<Capability>)
    requires Parameters(caps).Ok?
    ensures OfferedFamilies(caps).Ok?
    ensures |OfferedFamilies(caps).value| <= |Parameters(caps).value|
  {
    if caps != [] { OfferedBound(caps[1..]); }
  }

  lemma OpenGood(s: Session, body: seq<byte>, now: u64)
    requires Inv(s) && s.state == OpenSent && s.lastTime == now
    ensures GoodStep(s, now, OnOpen(s, body, now))
  {
    var verdict := match DecodeOpen(body)
      case Err(e) => Err(e)
      case Ok(peer) => Negotiate(s.config.local, peer, s.config.peerAsn);
    match verdict
    case Err(e) =>
      OfferedBound(s.config.local.capabilities);
      ResetGood(s, now, Some(OpenRefusal(s, body, e).value));
    case Ok(negotiated) =>
      HoldGood(s.(negotiated := Some(negotiated), state := OpenConfirm, deadlines := DISARMED), now);
  }

  lemma UpdateGood(s: Session, body: seq<byte>, now: u64)
    requires Inv(s) && s.state == Established && s.lastTime == now
    ensures GoodStep(s, now, OnUpdate(s, body, now))
  {
    var four := s.negotiated.value.fourOctetAsn;
    HoldGood(s, now);
    if Update.Validate(body, four).Err? {
      Update.LenientDiscardsOnlyStructured(body, four);
      Update.ErrorCodes(body, four);
      var f := Update.Validate(body, four).error;
      ResetGood(s, now, Some(Notification(f.error.code, f.error.subcode, f.data)));
    }
  }

  lemma FrameGood(s: Session, frame: Frame, now: u64)
    requires Inv(s) && s.lastTime == now
    ensures GoodStep(s, now, OnFrame(s, frame, now))
  {
    hide Framing.Encode, OnOpen, OnUpdate, Reset, ConfigAccepted, HoldAt;
    if !Connected(s) { return; }
    EncodeDecode(frame.kind, frame.body, []);
    match Framing.Encode(frame.kind, frame.body)
    case Err(e) => ResetGood(s, now, Some(Notification(e.code, e.subcode, U16Bytes(ReportedLength(frame.body)))));
    case Ok(_) =>
      ResetGood(s, now, None);
      ResetGood(s, now, Some(Notification(5, if s.state == OpenSent then 1 else if s.state == OpenConfirm then 2 else 3,
                                          [KindByte(frame.kind)])));
      if s.state == OpenSent && frame.kind == KOpen {
        OpenGood(s, frame.body, now);
      } else if s.state == Established && frame.kind == KUpdate {
        UpdateGood(s, frame.body, now);
      } else if Exchanging(s) {
        HoldGood(s, now);
        HoldGood(s.(state := Established), now);
      }
  }

  lemma ProcessGood(s: Session, event: Event, now: u64, entropy: u64)
    requires Inv(s) && s.lastTime == now
    ensures GoodStep(s, now, Process(s, event, now, entropy))
  {
    hide OnFrame;
    match event
    case Start => if s.state == Idle && s.deadlines.idle.None? { DialGood(s.(running := true), now, entropy); }
    case AdminReset => ResetGood(s, now, Some(Notification(6, 4, [])));
    case Shutdown =>
      ResetGood(s.(running := false), now, None);
      ResetGood(s.(running := false), now, Some(Notification(6, 2, [])));
    case SoftResetOut =>
    case TcpEstablished(generation, inbound) =>
    case TcpFailed(generation) =>
      if s.state in {Connect, Active} { FallBackGood(s, now, entropy, s.deadlines); }
    case TcpClosed(generation) =>
      ResetGood(s, now, None);
      if s.state == OpenSent { FallBackGood(s, now, entropy, DISARMED); }
      if s.state in {Connect, Active} { FallBackGood(s, now, entropy, s.deadlines); }
    case Message(generation, frame) => FrameGood(s, frame, now);
  }

  /** Over one input: the invariant, with the clock at `now` and every deadline
      after it; the same configuration; at most two new generations. */
  ghost predicate GoodInput(s: Session, now: u64, r: Outcome)
  {
    match r
    case Ok(step) =>
      && Inv(step.session) && step.session.lastTime == now && AllLater(step.session.deadlines, now)
      && step.session.config == s.config
      && s.generation <= step.session.generation <= s.generation + 2
    case Err(e) => Excused(e, s, now, 2)
  }

  lemma PollGood(s: Session, now: u64, entropy: u64)
    requires Inv(s)
    ensures Timed(s) && GoodInput(s, now, Poll(s, now, entropy))
  {
    AdvanceGood(s, now, entropy);
  }

  lemma HandleGood(s: Session, event: Event, now: u64, entropy: u64)
    requires Inv(s)
    ensures Timed(s) && GoodInput(s, now, Handle(s, event, now, entropy))
  {
    hide Advance, Process;
    AdvanceGood(s, now, entropy);
    if Advance(s, now, entropy).Ok? {
      ProcessGood(Advance(s, now, entropy).value.session, event, now, entropy);
    }
  }

  function ReceiveOutcome(s: Session, generation: u64, bytes: seq<byte>, now: u64, entropy: u64): Outcome
    requires Timed(s)
  {
    match Receive(s, generation, bytes, now, entropy)
    case Err(e) => Err(e)
    case Ok(None) => Ok(Step(s, []))
    case Ok(Some(r)) => Ok(r.step)
  }

  /** Receiving: either nothing changes for want of bytes, or one good input. */
  lemma ReceiveGood(s: Session, generation: u64, bytes: seq<byte>, now: u64, entropy: u64)
    requires Inv(s)
    ensures Timed(s)
    ensures Receive(s, generation, bytes, now, entropy) == Ok(None) <==> Framing.Decode(bytes) == Err(NeedMore)
    ensures Framing.Decode(bytes) != Err(NeedMore) ==>
              GoodInput(s, now, ReceiveOutcome(s, generation, bytes, now, entropy))
    ensures var r := Receive(s, generation, bytes, now, entropy);
            r.Ok? && r.value.Some? ==> 0 < r.value.value.consumed <= |bytes|
  {
    hide Advance, Process, Reset;
    AdvanceGood(s, now, entropy);
    match Framing.Decode(bytes)
    case Ok((frame, consumed)) => HandleGood(s, Message(generation, frame), now, entropy);
    case Err(NeedMore) =>
    case Err(Protocol(e)) =>
      if Advance(s, now, entropy).Ok? {
        var timed := Advance(s, now, entropy).value.session;
        ResetGood(timed, now, Some(Notification(e.code, e.subcode, FramingData(bytes, e.subcode))));
      }
  }

  /** With the clock moving forward and room in both counters, no input fails. */
  lemma NeverStuck(s: Session, event: Event, now: u64, entropy: u64)
    requires Inv(s) && s.lastTime <= now
    requires now + Slack(s.config) <= U64_MAX && s.generation + 2 <= U64_MAX
    ensures Timed(s) && Handle(s, event, now, entropy).Ok? && Poll(s, now, entropy).Ok?
  {
    HandleGood(s, event, now, entropy);
    PollGood(s, now, entropy);
  }
}
