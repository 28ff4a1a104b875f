/** How long a session can wait: over every run each armed timer lies within its
    configured interval of the clock (crates/flowsdn-bgp-proto/src/session.rs:92-280). */
module SessionTimers {
  import opened Bytes
  import opened Framing
  import OpenCodec
  import Negotiation
  import Messages
  import Update
  import opened SessionCore
  import opened SessionInvariants
  import opened SessionRuns

  predicate Within(deadline: Option<u64>, now: u64, horizon: nat)
  {
    deadline.Some? ==> deadline.value <= now + horizon
  }

  /** Reconnecting takes less than twice the retry interval, idling five seconds,
      an OPEN four minutes, silence the hold time; keepalives go out at least
      three times per hold time and as often as configured. */
  predicate Bounded(s: Session)
  {
    var d := s.deadlines;
    && (d.retry.Some? ==> d.retry.value < s.lastTime + 2 * s.config.retryMs)
    && Within(d.idle, s.lastTime, RESET_IDLE_MS)
    && Within(d.hold, s.lastTime, if s.state == OpenSent then OPEN_HOLD_MS else HoldDelay(s))
    && Within(d.keepalive, s.lastTime, s.config.keepaliveMs)
    && (d.keepalive.Some? ==> 3 * (d.keepalive.value - s.lastTime) <= HoldDelay(s))
  }

  ghost predicate BoundedStep(r: Outcome) { r.Ok? ==> Bounded(r.value.session) }

  /** Letting time pass keeps every bound. */
  lemma LaterBounded(s: Session, now: u64)
    requires Bounded(s) && s.lastTime <= now
    ensures Bounded(s.(lastTime := now))
  {
  }

  lemma ResetBounded(s: Session, now: u64, cause: Option<Messages.Notification>)
    requires s.lastTime == now
    ensures BoundedStep(Reset(s, now, cause))
  {
    hide Farewell, Disposition;
  }

  lemma RetryBounded(s: Session, now: u64, entropy: u64)
    requires RetryAt(s, now, entropy).Ok?
    ensures RetryAt(s, now, entropy).value < now + 2 * s.config.retryMs
  {
  }

  lemma DialBounded(s: Session, now: u64, entropy: u64)
    requires s.negotiated.None? && s.lastTime == now
    ensures BoundedStep(DialOrListen(s, now, entropy))
  {
    hide RetryAt;
    if RetryAt(s, now, entropy).Ok? { RetryBounded(s, now, entropy); }
  }

  lemma DelaysBounded(s: Session, now: u64)
    ensures HoldAt(s, now).Ok? ==> Within(HoldAt(s, now).value, now, HoldDelay(s))
    ensures KeepaliveAt(s, now).Ok? ==> Within(KeepaliveAt(s, now).value, now, s.config.keepaliveMs)
    ensures KeepaliveAt(s, now).Ok? && KeepaliveAt(s, now).value.Some? ==>
              3 * (KeepaliveAt(s, now).value.value - now) <= HoldDelay(s)
  {
  }

  lemma AdvanceBounded(s: Session, now: u64, entropy: u64)
    requires Inv(s) && Timed(s) && Bounded(s)
    ensures BoundedStep(Advance(s, now, entropy))
  {
    hide Reset, KeepaliveAt, RetryAt, Inv, HoldDelay;
    if now >= s.lastTime {
      var at := s.(lastTime := now);
      LaterBounded(s, now);
      ResetBounded(at, now, Some(Messages.Notification(4, 0, [])));
      if at.negotiated.None? { DialBounded(at, now, entropy); }
      DelaysBounded(at, now);
      SameDelays(at, now);
    }
  }

  /** The hold interval depends on the negotiated parameters alone. */
  lemma SameDelays(s: Session, now: u64)
    ensures forall t: Session :: t.config == s.config && t.negotiated == s.negotiated ==> HoldDelay(t) == HoldDelay(s)
  {
  }

  lemma OpenBounded(s: Session, body: seq<byte>, now: u64)
    requires s.state == OpenSent && s.lastTime == now
    ensures BoundedStep(OnOpen(s, body, now))
  {
    hide Reset, OpenCodec.DecodeOpen, Negotiation.Negotiate, OpenRefusal, HoldAt, KeepaliveAt, HoldDelay;
    forall cause ensures BoundedStep(Reset(s, now, cause)) { ResetBounded(s, now, cause); }
    forall n ensures var open := s.(negotiated := Some(n), state := OpenConfirm, deadlines := DISARMED);
                     && (HoldAt(open, now).Ok? ==> Within(HoldAt(open, now).value, now, HoldDelay(open)))
                     && (KeepaliveAt(open, now).Ok? ==> Within(KeepaliveAt(open, now).value, now, s.config.keepaliveMs))
                     && (KeepaliveAt(open, now).Ok? && KeepaliveAt(open, now).value.Some? ==>
                           3 * (KeepaliveAt(open, now).value.value - now) <= HoldDelay(open))
    {
      DelaysBounded(s.(negotiated := Some(n), state := OpenConfirm, deadlines := DISARMED), now);
    }
    forall t: Session, d ensures HoldDelay(t.(deadlines := d)) == HoldDelay(t) { SameHold(t, d); }
  }

  lemma SameHold(t: Session, d: Deadlines)
    ensures HoldDelay(t.(deadlines := d)) == HoldDelay(t)
  {
  }

  lemma ReholdBounded(s: Session, now: u64, actions: seq<Action>)
    requires Coherent(s) && Exchanging(s) && s.lastTime == now && Bounded(s)
    ensures BoundedStep(Rehold(s, now, actions))
  {
    hide HoldAt;
    DelaysBounded(s, now);
  }

  lemma FrameBounded(s: Session, frame: Frame, now: u64)
    requires Inv(s) && s.lastTime == now && Bounded(s)
    ensures Coherent(s) && BoundedStep(OnFrame(s, frame, now))
  {
    hide Reset, OnOpen, Rehold, Framing.Encode, Update.Validate;
    forall cause ensures BoundedStep(Reset(s, now, cause)) { ResetBounded(s, now, cause); }
    if s.state == OpenSent { OpenBounded(s, frame.body, now); }
    if Exchanging(s) {
      var up := s.(state := Established);
      SameDelays(s, now);
      ReholdBounded(up, now, [Export(s.negotiated.value.families, true)]);
      ReholdBounded(s, now, []);
      forall summary ensures BoundedStep(Rehold(s, now, [ObserveUpdate(summary)])) {
        ReholdBounded(s, now, [ObserveUpdate(summary)]);
      }
    }
  }

  lemma FallBackBounded(s: Session, now: u64, entropy: u64, deadlines: Deadlines)
    requires s.negotiated.None? && s.lastTime == now && deadlines == DISARMED.(retry := deadlines.retry)
    ensures BoundedStep(FallBack(s, now, entropy, deadlines))
  {
    hide RetryAt;
    if RetryAt(s, now, entropy).Ok? { RetryBounded(s, now, entropy); }
  }

  lemma ProcessBounded(s: Session, event: Event, now: u64, entropy: u64)
    requires Inv(s) && s.lastTime == now && Bounded(s)
    ensures BoundedStep(Process(s, event, now, entropy))
  {
    hide OnFrame, Reset, DialOrListen, FallBack, ConfigAccepted, OpenCodec.EncodeOpen, HoldDelay;
    SameDelays(s, now);
    match event
    case Start => if s.state == Idle && s.deadlines.idle.None? { DialBounded(s.(running := true), now, entropy); }
    case AdminReset => ResetBounded(s, now, Some(Messages.Notification(6, 4, [])));
    case Shutdown =>
      ResetBounded(s.(running := false), now, None);
      ResetBounded(s.(running := false), now, Some(Messages.Notification(6, 2, [])));
    case SoftResetOut =>
    case TcpEstablished(generation, inbound) =>
    case TcpFailed(generation) =>
      if s.state in {Connect, Active} { FallBackBounded(s, now, entropy, s.deadlines); }
    case TcpClosed(generation) =>
      ResetBounded(s, now, None);
      if s.state == OpenSent { FallBackBounded(s, now, entropy, DISARMED); }
      if s.state in {Connect, Active} { FallBackBounded(s, now, entropy, s.deadlines); }
    case Message(generation, frame) => FrameBounded(s, frame, now);
  }

  lemma HandleBounded(s: Session, event: Event, now: u64, entropy: u64)
    requires Inv(s) && Timed(s) && Bounded(s)
    ensures BoundedStep(Handle(s, event, now, entropy))
  {
    hide Advance, Process, Inv, Bounded;
    AdvanceBounded(s, now, entropy);
    AdvanceGood(s, now, entropy);
    if Advance(s, now, entropy).Ok? {
      ProcessBounded(Advance(s, now, entropy).value.session, event, now, entropy);
    }
  }

  lemma AfterBounded(s: Session, input: Input)
    requires Inv(s) && Bounded(s)
    ensures Timed(s) && Bounded(After(s, input))
  {
    hide Advance, Process, Reset, Framing.Decode, Inv, Bounded, Handle;
    InvTimed(s);
    match input
    case PollAt(now, entropy) => AdvanceBounded(s, now, entropy);
    case HandleAt(event, now, entropy) => HandleBounded(s, event, now, entropy);
    case ReceiveAt(generation, bytes, now, entropy) =>
      AdvanceBounded(s, now, entropy);
      AdvanceGood(s, now, entropy);
      match Framing.Decode(bytes) {
        case Ok((frame, consumed)) => HandleBounded(s, Message(generation, frame), now, entropy);
        case Err(NeedMore) =>
        case Err(Protocol(e)) =>
          if Advance(s, now, entropy).Ok? {
            var timed := Advance(s, now, entropy).value.session;
            ResetBounded(timed, now, Some(Messages.Notification(e.code, e.subcode, FramingData(bytes, e.subcode))));
          }
      }
  }

  /** In every state of every run each timer is within its interval. */
  lemma {:induction false} TimersBounded(s: Session, inputs: seq<Input>, i: nat)
    requires Inv(s) && Bounded(s) && i <= |inputs|
    ensures Bounded(States(s, inputs)[i])
    decreases i
  {
    hide Inv, Bounded, After, States;
    if i > 0 {
      TimersBounded(s, inputs, i - 1);
      StatesInv(s, inputs, i - 1);
      AfterBounded(States(s, inputs)[i - 1], inputs[i - 1]);
    }
  }

  /** From a new session: an armed session is never asked to wait longer. */
  lemma NoLongWait(config: SessionCore.Config, inputs: seq<Input>, i: nat)
    requires New(config).Ok? && i <= |inputs|
    ensures Inv(New(config).value) && Bounded(States(New(config).value, inputs)[i])
  {
    hide Inv, States;
    NewInv(config);
    TimersBounded(New(config).value, inputs, i);
  }
}
