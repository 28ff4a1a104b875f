/** When connections are taken up, given up and retried, and what each timer is set
    to (crates/flowsdn-bgp-proto/src/session.rs:142-281, 303-425; section 8.2.2 of
    RFC 4271). */
module SessionTransitions {
  import opened Bytes
  import opened Framing
  import OpenCodec
  import OpenGrammar
  import Negotiation
  import Messages
  import Update
  import opened SessionCore
  import opened SessionInvariants
  import opened SessionRuns
  import opened SessionHold

  // ---------- the timer step ----------

  /** The next attempt is one to two retry intervals away, by the entropy given. */
  predicate RetriesIn(t: Session, interval: nat, now: nat, entropy: nat)
  {
    t.deadlines.retry.Some? && now <= t.deadlines.retry.value
    && Jittered(t.deadlines.retry.value - now, interval, entropy)
  }

  /** A new attempt under a new generation: dialing, or listening when passive. */
  ghost predicate Attempts(s: Session, t: Session, actions: seq<Action>, now: nat, entropy: nat)
  {
    && t.generation == s.generation + 1 && t.negotiated.None? && t.running && t.config == s.config
    && t.state == (if s.config.passive then Active else Connect)
    && actions == (if s.config.passive then [] else [DoConnect(t.generation)])
    && RetriesIn(t, s.config.retryMs, now, entropy)
  }

  /** How often keepalives go out: as configured, and three times per hold time. */
  function Interval(s: Session): nat
    requires s.negotiated.Some?
  {
    if 3 * s.config.keepaliveMs <= 1000 * s.negotiated.value.holdTime then s.config.keepaliveMs
    else 1000 * s.negotiated.value.holdTime / 3
  }

  /** The next keepalive counted from a time; none without a hold time. */
  function NextBeat(s: Session, now: nat): Option<nat>
    requires s.negotiated.Some?
  {
    if s.negotiated.value.holdTime == 0 then None else Some(now + Interval(s))
  }

  lemma DialAttempts(s: Session, now: u64, entropy: u64)
    requires ConfigAccepted(s.config) && s.negotiated.None? && s.running
    ensures DialOrListen(s, now, entropy).Ok? ==>
              Attempts(s, DialOrListen(s, now, entropy).value.session,
                       DialOrListen(s, now, entropy).value.actions, now, entropy)
  {
    hide Jittered;
    RetryDelayBounded(s.config.retryMs, entropy);
  }

  lemma BeatAt(s: Session, now: u64)
    requires s.negotiated.Some? && s.negotiated.value.holdTime !in {1, 2} && s.config.keepaliveMs != 0
    ensures KeepaliveAt(s, now).Ok? ==> KeepaliveAt(s, now).value == NextBeat(s, now)
  {
  }

  lemma AcceptedRates(s: Session)
    requires ConfigAccepted(s.config)
    ensures s.config.keepaliveMs != 0
  {
  }

  /** The timer step, by the one timer it finds due: silence ends the connection,
      the idle wait and the retry wait end in a new attempt, a due keepalive goes
      out. Nothing else changes. */
  lemma TickExactly(s: Session, now: u64, entropy: u64)
    requires Inv(s) && Timed(s) && Advance(s, now, entropy).Ok?
    ensures var t, actions := Advance(s, now, entropy).value.session, Advance(s, now, entropy).value.actions;
            if Due(s.deadlines.hold, now) then
              && t.state == Idle && t.generation == s.generation + 1 && t.deadlines.idle == Some(now + 5000)
              && actions == [EXPIRY, Close]
            else if Due(s.deadlines.idle, now) then Attempts(s, t, actions, now, entropy)
            else if Due(s.deadlines.retry, now) then
              actions != [] && actions[0] == Close && Attempts(s, t, actions[1..], now, entropy)
            else if Due(s.deadlines.keepalive, now) then
              && s.negotiated.Some? && actions == [Send(KKeepalive, [])]
              && t == s.(lastTime := now, deadlines := s.deadlines.(keepalive := NextBeat(s, now)))
            else actions == [] && t == s.(lastTime := now)
  {
    hide ConfigAccepted, RetryAt, KeepaliveAt, Farewell, Disposition, Attempts, DialOrListen;
    var at := s.(lastTime := now);
    FarewellCode(at, Some(Messages.Notification(4, 0, [])));
    assert [4, 0] + [] == [4, 0];
    if !Due(s.deadlines.hold, now) {
      if Exchanging(s) {
        AcceptedRates(s);
        BeatAt(at, now);
      } else if at.deadlines.idle.Some? || at.deadlines.retry.Some? {
        DialAttempts(at, now, entropy);
        if DialOrListen(at, now, entropy).Ok? {
          var step := DialOrListen(at, now, entropy).value;
          assert ([Close] + step.actions)[1..] == step.actions && step.actions + [] == step.actions;
          assert [Close] + step.actions + [] == [Close] + step.actions;
          SameAttempts(s, at, step.session, step.actions, now, entropy);
          NewAttempt(at, step.session, step.actions, now, entropy);
        }
      }
    }
  }

  lemma SameAttempts(s: Session, at: Session, t: Session, actions: seq<Action>, now: nat, entropy: nat)
    requires at == s.(lastTime := at.lastTime)
    ensures Attempts(at, t, actions, now, entropy) <==> Attempts(s, t, actions, now, entropy)
  {
  }

  lemma NewAttempt(s: Session, t: Session, actions: seq<Action>, now: nat, entropy: nat)
    requires Attempts(s, t, actions, now, entropy)
    ensures !Exchanging(t)
  {
  }

  // ---------- configurations ----------

  /** The AS number is zero: all four-octet capabilities say so, or there is none and
      the field does. */
  ghost predicate Anonymous(open: OpenCodec.Open)
  {
    && OpenCodec.AgreeOn(open.capabilities, 0)
    && (open.asn == 0 || exists cap :: cap in open.capabilities && OpenCodec.IsFourOctet(cap))
  }

  /** A session is made exactly of an OPEN that can be sent, names a router and an AS
      number, a role that can be connected at all, and intervals that are not zero and
      whose jittered delay stays in range; it starts idle. */
  lemma AcceptedExactly(c: Config)
    ensures New(c).Ok? <==>
            && OpenGrammar.Sendable(c.local) && c.local.routerId > 0
            && !Anonymous(c.local)
            && (c.listen || !c.passive)
            && c.retryMs >= 1 && 2 * c.retryMs <= U64_MAX && c.keepaliveMs >= 1
    ensures New(c).Ok? ==>
      var s := New(c).value; s.config == c && s.state == Idle && !s.running && s.deadlines == DISARMED
  {
    hide OpenCodec.EncodeOpen, OpenCodec.EffectiveAsn, OpenGrammar.Sendable;
    OpenGrammar.EncodeExactly(c.local);
    OpenCodec.EffectiveAsnExactly(c.local, 0);
  }

  // ---------- connections ----------

  /** The connection a waiting session is waiting for: of its current generation,
      dialed by itself unless passive, or by the peer if it listens. */
  predicate Wants(s: Session, generation: u64, inbound: bool)
  {
    && generation == s.generation && s.state in {Connect, Active}
    && (if inbound then s.config.listen else !s.config.passive)
  }

  /** A session that waits always waits for some connection. */
  lemma WaitsForSome(s: Session)
    requires Inv(s) && s.state in {Connect, Active}
    ensures exists inbound :: Wants(s, s.generation, inbound)
  {
    assert Wants(s, s.generation, s.config.listen);
  }

  /** A connection is taken up exactly when the session waits for it; then the
      configured OPEN goes out and the peer has four minutes for its own. Any other
      is told to drop. */
  lemma TakesUpExactly(s: Session, generation: u64, inbound: bool, now: u64, entropy: u64)
    requires Inv(s)
    ensures Coherent(s)
    ensures var r := Process(s, TcpEstablished(generation, inbound), now, entropy);
            r.Ok? ==>
              if Wants(s, generation, inbound) then
                && r.value.session == s.(state := OpenSent, deadlines := DISARMED.(hold := Some(now + 240000)))
                && exists body ::
                     r.value.actions == [Send(KOpen, body)] && OpenCodec.DecodeOpen(body) == Ok(s.config.local)
              else r.value == Step(s, [DropConnection])
  {
    hide OpenCodec.EncodeOpen, OpenCodec.DecodeOpen;
    if Wants(s, generation, inbound) { OpenCodec.OpenRoundTrip(s.config.local); }
  }

  /** Nothing but the clock. */
  ghost predicate Unmoved(s: Session, r: Outcome) { r == Ok(Step(s, [])) }

  /** Back to listening under a new generation, the retry timer started anew. */
  ghost predicate FallsBack(s: Session, r: Outcome, now: nat, entropy: nat)
  {
    r.Ok? ==>
      var t := r.value.session;
      && r.value.actions == [] && t.state == Active && t.generation == s.generation + 1 && t.running
      && RetriesIn(t, s.config.retryMs, now, entropy)
  }

  /** Out of the connection: the last thing asked for is to close it; idle for five
      seconds, or for good when stopped. */
  ghost predicate Leaves(s: Session, r: Outcome, now: nat, running: bool)
  {
    r.Ok? ==>
      var t := r.value.session;
      && t.state == Idle && t.generation == s.generation + 1 && t.running == running
      && t.deadlines == DISARMED.(idle := t.deadlines.idle)
      && t.deadlines.idle == (if running then Some(now + 5000) else None)
      && r.value.actions != [] && r.value.actions[|r.value.actions| - 1] == Close
  }

  lemma ResetLeavesBy(s: Session, now: u64, cause: Option<Messages.Notification>)
    ensures Leaves(s, Reset(s, now, cause), now, s.running)
  {
    hide Farewell, Disposition;
  }

  lemma FallBackFalls(s: Session, now: u64, entropy: u64, deadlines: Deadlines)
    requires ConfigAccepted(s.config) && s.negotiated.None? && s.running
    ensures FallsBack(s, FallBack(s, now, entropy, deadlines), now, entropy)
  {
    hide Jittered;
    RetryDelayBounded(s.config.retryMs, entropy);
  }

  /** What starting, stopping, resetting and losing a connection do, in every state
      a run can reach. */
  lemma TransitionsExactly(s: Session, event: Event, now: u64, entropy: u64)
    requires Inv(s)
    ensures Coherent(s)
    ensures var r := Process(s, event, now, entropy);
            match event
            case Start =>
              if s.running then Unmoved(s, r)
              else r.Ok? ==> Attempts(s, r.value.session, r.value.actions, now, entropy)
            case AdminReset => Leaves(s, r, now, s.running)
            case Shutdown => Leaves(s, r, now, false)
            case TcpFailed(generation) =>
              if generation == s.generation && s.state in {Connect, Active} then FallsBack(s, r, now, entropy)
              else Unmoved(s, r)
            case TcpClosed(generation) =>
              if generation != s.generation || s.state == Idle then Unmoved(s, r)
              else if Exchanging(s) then Leaves(s, r, now, s.running) && (r.Ok? ==> r.value.actions == [Close])
              else FallsBack(s, r, now, entropy)
            case Message(generation, frame) =>
              generation != s.generation || !Connected(s) ==> Unmoved(s, r)
            case _ => true
  {
    hide ConfigAccepted, Reset, FallBack, OnFrame, DialOrListen, Leaves, FallsBack, Attempts;
    match event
    case Start => if !s.running { StartAttempts(s, now, entropy); }
    case AdminReset => ResetLeavesBy(s, now, Some(Messages.Notification(6, 4, [])));
    case Shutdown => ShutdownLeaves(s, now, entropy);
    case TcpFailed(generation) => if s.state in {Connect, Active} { FallBackFalls(s, now, entropy, s.deadlines); }
    case TcpClosed(generation) =>
      ResetLeavesBy(s, now, None);
      PlainClose(s, now);
      if s.state == OpenSent { FallBackFalls(s, now, entropy, DISARMED); }
      if s.state in {Connect, Active} { FallBackFalls(s, now, entropy, s.deadlines); }
    case Message(generation, frame) => if !Connected(s) { IgnoresFrame(s, frame, now); }
    case _ =>
  }

  lemma StartAttempts(s: Session, now: u64, entropy: u64)
    requires Inv(s) && !s.running && Coherent(s)
    ensures var r := Process(s, Start, now, entropy);
            r.Ok? ==> Attempts(s, r.value.session, r.value.actions, now, entropy)
  {
    DialAttempts(s.(running := true), now, entropy);
  }

  lemma ShutdownLeaves(s: Session, now: u64, entropy: u64)
    requires Inv(s) && Coherent(s)
    ensures Leaves(s, Process(s, Shutdown, now, entropy), now, false)
  {
    hide Reset;
    ResetLeavesBy(s.(running := false), now, None);
    ResetLeavesBy(s.(running := false), now, Some(Messages.Notification(6, 2, [])));
  }

  lemma PlainClose(s: Session, now: u64)
    ensures Reset(s, now, None).Ok? ==> Reset(s, now, None).value.actions == [Close]
  {
  }

  lemma IgnoresFrame(s: Session, frame: Frame, now: u64)
    requires Coherent(s) && !Connected(s)
    ensures OnFrame(s, frame, now) == Ok(Step(s, []))
  {
  }

  // ---------- messages that move a connection on ----------

  /** The peer's OPEN is answered with a KEEPALIVE exactly when it decodes and
      negotiates; the timers then follow the negotiated hold time. */
  lemma OpenMovesOn(s: Session, body: seq<byte>, now: u64, entropy: u64)
    requires Inv(s) && s.state == OpenSent && OpenCodec.DecodeOpen(body).Ok? && Framing.Encode(KOpen, body).Ok?
    requires Negotiation.Negotiate(s.config.local, OpenCodec.DecodeOpen(body).value, s.config.peerAsn).Ok?
    ensures Coherent(s)
    ensures var r := Process(s, Message(s.generation, Frame(KOpen, body)), now, entropy);
            var n := Negotiation.Negotiate(s.config.local, OpenCodec.DecodeOpen(body).value, s.config.peerAsn).value;
            r.Ok? ==>
              && r.value.actions == [Send(KKeepalive, [])]
              && r.value.session.state == OpenConfirm && r.value.session.negotiated == Some(n)
              && r.value.session.generation == s.generation
              && r.value.session.deadlines.hold == HoldFrom(r.value.session, now)
              && r.value.session.deadlines.keepalive == NextBeat(r.value.session, now)
  {
    hide OpenCodec.DecodeOpen, Negotiation.Negotiate, Framing.Encode, HoldAt, KeepaliveAt, ConfigAccepted;
    var n := Negotiation.Negotiate(s.config.local, OpenCodec.DecodeOpen(body).value, s.config.peerAsn).value;
    var open := s.(negotiated := Some(n), state := OpenConfirm, deadlines := DISARMED);
    AcceptedRates(s);
    HoldAtFrom(open, now);
    BeatAt(open, now);
    SoundTimes(s.config.local, OpenCodec.DecodeOpen(body).value, s.config.peerAsn);
  }

  lemma SoundTimes(local: OpenCodec.Open, peer: OpenCodec.Open, asn: u32)
    requires Negotiation.Negotiate(local, peer, asn).Ok?
    ensures Negotiation.Negotiate(local, peer, asn).value.holdTime !in {1, 2}
  {
  }

  /** A message that shows the peer alive keeps the conversation: it goes on under
      the same generation, established, and the hold timer starts anew. */
  lemma HeardGoesOn(s: Session, frame: Frame, now: u64, entropy: u64)
    requires Inv(s) && Exchanging(s) && Heard(s, frame) && Framing.Encode(frame.kind, frame.body).Ok?
    ensures Coherent(s)
    ensures var r := Process(s, Message(s.generation, frame), now, entropy);
            r.Ok? ==>
              && r.value.session == s.(state := Established, deadlines := s.deadlines.(hold := HoldFrom(s, now)))
              && Close !in r.value.actions
  {
    hide Framing.Encode, Update.Validate, HoldAt, ConfigAccepted;
    HoldAtFrom(s, now);
    HoldAtFrom(s.(state := Established), now);
  }

  /** A refused update whose structure is sound costs a lenient session nothing but
      the update: the session is as it was, the hold timer included. */
  lemma DiscardUnmoved(s: Session, body: seq<byte>, now: u64, entropy: u64)
    requires Inv(s) && s.state == Established && s.negotiated.Some? && !s.config.strictUpdateErrors
    requires Update.Structured(body) && 4 <= |body| <= MAX_BODY
    requires Update.Validate(body, s.negotiated.value.fourOctetAsn).Err?
    ensures Coherent(s)
    ensures Process(s, Message(s.generation, Frame(KUpdate, body)), now, entropy) ==
            Ok(Step(s, [DiscardUpdate(Update.Validate(body, s.negotiated.value.fourOctetAsn).error.error)]))
  {
    hide Update.Validate, Update.Structured, ConfigAccepted;
    EncodeDecode(KUpdate, body, []);
    Update.ErrorScopes(body, s.negotiated.value.fourOctetAsn);
  }

  /** A refresh request and a soft reset change nothing of the session. */
  lemma RefreshUnmoved(s: Session, body: seq<byte>, now: u64, entropy: u64)
    requires Inv(s) && s.state == Established && |body| == 4
    ensures Coherent(s)
    ensures Process(s, Message(s.generation, Frame(KRouteRefresh, body)), now, entropy).Ok?
    ensures Process(s, Message(s.generation, Frame(KRouteRefresh, body)), now, entropy).value.session == s
    ensures Process(s, SoftResetOut, now, entropy).Ok? && Process(s, SoftResetOut, now, entropy).value.session == s
  {
    hide ConfigAccepted;
    EncodeDecode(KRouteRefresh, body, []);
  }

  // ---------- keepalives over inputs ----------

  const BEAT := Send(KKeepalive, [])

  /** An input sends a KEEPALIVE exactly when one is due or the peer's OPEN was
      accepted, and then the next is one interval away; otherwise the time of the
      next is as it was. */
  lemma BeatsExactly(s: Session, input: Input)
    requires Inv(s) && Ticks(input)
    ensures Timed(s)
    ensures Apply(s, input).Ok? && Exchanging(After(s, input)) && After(s, input).negotiated.Some? ==>
              var t := After(s, input);
              && (BEAT in Emitted(s, input) <==> s.state == OpenSent || Due(s.deadlines.keepalive, At(input)))
              && t.deadlines.keepalive ==
                 (if BEAT in Emitted(s, input) then NextBeat(t, At(input)) else s.deadlines.keepalive)
  {
    hide Advance, Handle, Reset, Framing.Decode, Inv;
    InvTimed(s);
    match input
    case PollAt(now, entropy) => if Advance(s, now, entropy).Ok? { AdvanceBeats(s, now, entropy); }
    case HandleAt(event, now, entropy) => if Handle(s, event, now, entropy).Ok? { HandleBeats(s, event, now, entropy); }
    case ReceiveAt(generation, bytes, now, entropy) =>
      match Framing.Decode(bytes) {
        case Ok((frame, consumed)) =>
          var event := Message(generation, frame);
          if Handle(s, event, now, entropy).Ok? { HandleBeats(s, event, now, entropy); }
        case Err(Protocol(e)) =>
          if Advance(s, now, entropy).Ok? {
            AdvanceBeats(s, now, entropy);
            ResetLeaves(Advance(s, now, entropy).value.session, now,
                        Some(Messages.Notification(e.code, e.subcode, FramingData(bytes, e.subcode))));
          }
      }
  }

  lemma AdvanceBeats(s: Session, now: u64, entropy: u64)
    requires Inv(s) && Timed(s) && Advance(s, now, entropy).Ok?
    ensures var t := Advance(s, now, entropy).value;
            && (Connected(t.session) ==>
                  && Connected(s) && t.session.generation == s.generation && t.session.state == s.state
                  && t.session.negotiated == s.negotiated && t.session.config == s.config)
            && (Exchanging(t.session) && t.session.negotiated.Some? ==>
                  && (BEAT in t.actions <==> Due(s.deadlines.keepalive, now))
                  && t.session.deadlines.keepalive ==
                     (if BEAT in t.actions then NextBeat(t.session, now) else s.deadlines.keepalive))
            && (t.session.state == OpenSent ==> BEAT !in t.actions)
  {
    hide Advance, ConfigAccepted;
    TickExactly(s, now, entropy);
  }

  lemma ProcessBeats(s: Session, event: Event, now: u64, entropy: u64)
    requires Inv(s)
    ensures Coherent(s)
    ensures Process(s, event, now, entropy).Ok? && Exchanging(Process(s, event, now, entropy).value.session) ==>
              var t := Process(s, event, now, entropy).value;
              && Connected(s) && t.session.negotiated.Some? && t.session.config == s.config
              && (BEAT in t.actions <==> s.state == OpenSent)
              && t.session.deadlines.keepalive ==
                 (if s.state == OpenSent then NextBeat(t.session, now) else s.deadlines.keepalive)
              && (s.state != OpenSent ==> t.session.negotiated == s.negotiated)
  {
    hide Reset, OnFrame, ConfigAccepted, OpenCodec.EncodeOpen, RetryAt;
    forall t: Session, cause
      ensures Reset(t, now, cause).Ok? ==> !Connected(Reset(t, now, cause).value.session)
    {
      ResetLeaves(t, now, cause);
    }
    if event.Message? { FrameBeats(s, event.frame, now); }
  }

  lemma FrameBeats(s: Session, frame: Frame, now: u64)
    requires Inv(s)
    ensures Coherent(s)
    ensures OnFrame(s, frame, now).Ok? && Exchanging(OnFrame(s, frame, now).value.session) ==>
              var t := OnFrame(s, frame, now).value;
              && Connected(s) && t.session.negotiated.Some? && t.session.config == s.config
              && (BEAT in t.actions <==> s.state == OpenSent)
              && t.session.deadlines.keepalive ==
                 (if s.state == OpenSent then NextBeat(t.session, now) else s.deadlines.keepalive)
              && (s.state != OpenSent ==> t.session.negotiated == s.negotiated)
  {
    hide Reset, OnOpen, Framing.Encode, Update.Validate, HoldAt, ConfigAccepted;
    forall cause ensures Reset(s, now, cause).Ok? ==> !Connected(Reset(s, now, cause).value.session) {
      ResetLeaves(s, now, cause);
    }
    if s.state == OpenSent { OpenBeats(s, frame.body, now); }
  }

  lemma OpenBeats(s: Session, body: seq<byte>, now: u64)
    requires Inv(s) && s.state == OpenSent
    ensures OnOpen(s, body, now).Ok? && Exchanging(OnOpen(s, body, now).value.session) ==>
              var t := OnOpen(s, body, now).value;
              && t.actions == [BEAT] && t.session.negotiated.Some? && t.session.config == s.config
              && t.session.deadlines.keepalive == NextBeat(t.session, now)
  {
    hide Reset, OpenCodec.DecodeOpen, Negotiation.Negotiate, OpenRefusal, HoldAt, KeepaliveAt, ConfigAccepted;
    forall cause ensures Reset(s, now, cause).Ok? ==> !Connected(Reset(s, now, cause).value.session) {
      ResetLeaves(s, now, cause);
    }
    AcceptedRates(s);
    if OpenCodec.DecodeOpen(body).Ok? {
      var peer := OpenCodec.DecodeOpen(body).value;
      if Negotiation.Negotiate(s.config.local, peer, s.config.peerAsn).Ok? {
        var n := Negotiation.Negotiate(s.config.local, peer, s.config.peerAsn).value;
        SoundTimes(s.config.local, peer, s.config.peerAsn);
        BeatAt(s.(negotiated := Some(n), state := OpenConfirm, deadlines := DISARMED), now);
      }
    }
  }

  lemma HandleBeats(s: Session, event: Event, now: u64, entropy: u64)
    requires Inv(s) && Timed(s) && Handle(s, event, now, entropy).Ok?
    ensures var t := Handle(s, event, now, entropy).value;
            Exchanging(t.session) && t.session.negotiated.Some? ==>
              && (BEAT in t.actions <==> s.state == OpenSent || Due(s.deadlines.keepalive, now))
              && t.session.deadlines.keepalive ==
                 (if BEAT in t.actions then NextBeat(t.session, now) else s.deadlines.keepalive)
  {
    hide Advance, Process, Inv;
    AdvanceGood(s, now, entropy);
    AdvanceBeats(s, now, entropy);
    var timed := Advance(s, now, entropy).value;
    ProcessBeats(timed.session, event, now, entropy);
    CoherentInv(timed.session);
  }
}
