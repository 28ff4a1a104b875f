/** What a session tells its peer when it leaves, as the peer reads it, and whether
    routes may outlive the connection
    (crates/flowsdn-bgp-proto/src/session.rs:167-228, 426-641; section 6 of
    RFC 4271, RFC 8538). */
module SessionReasons {
  import opened Bytes
  import opened Framing
  import opened OpenCodec
  import opened OpenParameters
  import opened Negotiation
  import opened Messages
  import Update
  import opened SessionCore
  import opened SessionInvariants
  import opened SessionRuns
  import opened SessionHold

  // ---------- what the peer reads ----------

  /** A NOTIFICATION body as its reader takes it: a hard reset stands for the
      notification inside it. */
  function Understood(body: seq<byte>): Option<Notification>
  {
    match DecodeNotification(body)
    case Err(_) => None
    case Ok(n) =>
      if n.code == 6 && n.subcode == 9 && DecodeNotification(n.data).Ok?
      then Some(DecodeNotification(n.data).value) else Some(n)
  }

  /** The notifications among the actions, as read. */
  function Told(actions: seq<Action>): seq<Notification>
  {
    if actions == [] then []
    else
      (if actions[0].Send? && actions[0].kind == KNotification && Understood(actions[0].body).Some?
       then [Understood(actions[0].body).value] else [])
      + Told(actions[1..])
  }

  lemma {:induction false} ToldSplit(a: seq<Action>, b: seq<Action>)
    ensures Told(a + b) == Told(a) + Told(b)
  {
    hide Understood;
    if a == [] {
      assert a + b == b;
    } else {
      assert (a + b)[1..] == a[1..] + b;
      ToldSplit(a[1..], b);
    }
  }

  lemma ToldOne(a: Action)
    ensures Told([a]) == if a.Send? && a.kind == KNotification && Understood(a.body).Some?
                         then [Understood(a.body).value] else []
  {
    assert [a][1..] == [];
  }

  lemma ToldNone()
    ensures Told([]) == []
  {
  }

  /** Whatever the cause of a reset, the peer reads exactly it, wrapped or not. */
  lemma FarewellRead(s: Session, cause: Option<Notification>)
    requires cause.Some? ==> !(cause.value.code == 6 && cause.value.subcode == 9)
    ensures Farewell(s, cause).Ok? ==>
              Told(Farewell(s, cause).value) == if cause.Some? then [cause.value] else []
  {
    hide Told;
    ToldNone();
    if cause.Some? && Farewell(s, cause).Ok? {
      var n := cause.value;
      NotificationRoundTrip(n, []);
      if HardCause(n) && BothNotify(s) { HardResetRecovered(n); }
      ToldOne(Farewell(s, cause).value[0]);
    }
  }

  lemma ResetRead(s: Session, now: u64, cause: Option<Notification>)
    requires cause.Some? ==> !(cause.value.code == 6 && cause.value.subcode == 9)
    ensures Reset(s, now, cause).Ok? ==>
              Told(Reset(s, now, cause).value.actions) == if cause.Some? then [cause.value] else []
  {
    hide Farewell, Told, Disposition;
    if Reset(s, now, cause).Ok? {
      FarewellRead(s, cause);
      ToldSplit(Farewell(s, cause).value, [Close]);
      ToldOne(Close);
    }
  }

  // ---------- why ----------

  lemma FitsExactly(kind: Kind, body: seq<byte>)
    ensures Framing.Encode(kind, body).Ok? <==> Fits(kind, |body|)
    ensures Framing.Encode(kind, body).Err? ==> Framing.Encode(kind, body).error == FramingError(2)
  {
    EncodeDecode(kind, body, []);
  }

  /** The messages a state waits for. */
  predicate Expects(state: State, kind: Kind)
  {
    match state
    case OpenSent => kind == KOpen
    case OpenConfirm => kind == KKeepalive
    case Established => kind in {KKeepalive, KUpdate, KRouteRefresh}
    case _ => false
  }

  /** Which state was surprised (RFC 6608). */
  function Surprise(state: State): byte
  {
    match state case OpenSent => 1 case OpenConfirm => 2 case _ => 3
  }

  /** The outcome of reading and negotiating a peer's OPEN. */
  function Verdict(s: Session, body: seq<byte>): OpenResult<Negotiated>
  {
    match DecodeOpen(body)
    case Err(e) => Err(e)
    case Ok(peer) => Negotiate(s.config.local, peer, s.config.peerAsn)
  }

  /** The reason an OPEN is refused for: an unknown parameter where nothing before
      it is wrong; the version, with the one this end speaks; no common family,
      with the families this end offers. */
  ghost predicate OpenRefused(s: Session, body: seq<byte>, n: Notification)
  {
    && Verdict(s, body).Err? && n.code == 2
    && var subcode := Verdict(s, body).error.subcode;
       && n.subcode == (if subcode == 4 then (if Unsupported(body) then 4 else 0) else subcode)
       && (n.subcode == 1 ==> n.data == [0, 4])
       && (n.subcode == 7 ==> ParameterCapabilities(n.data) == Ok(Multiprotocols(s.config.local.capabilities)))
       && (n.subcode !in {1, 7} ==> n.data == [])
  }

  function Multiprotocols(caps: seq<Capability>): seq<Capability>
  {
    if caps == [] then []
    else (if caps[0].code == 1 then [caps[0]] else []) + Multiprotocols(caps[1..])
  }

  /** The data of a no-common-family refusal reads as the multiprotocol
      capabilities that were offered. */
  lemma {:induction false} OfferedReads(caps: seq<Capability>)
    requires Parameters(caps).Ok? && OfferedFamilies(caps).Ok?
    ensures ParameterCapabilities(OfferedFamilies(caps).value) == Ok(Multiprotocols(caps))
  {
    if caps != [] {
      OfferedReads(caps[1..]);
      if caps[0].code == 1 {
        var rest, cap := OfferedFamilies(caps[1..]).value, caps[0];
        var bytes := [1, |cap.value|] + cap.value + rest;
        assert bytes[1] == |cap.value| && bytes[2..2 + |cap.value|] == cap.value && bytes[2 + |cap.value|..] == rest;
        assert cap == Capability(1, cap.value);
      } else {
        assert [] + Multiprotocols(caps[1..]) == Multiprotocols(caps[1..]);
      }
    }
  }

  /** The reason a message on a live connection is answered with a NOTIFICATION. */
  ghost predicate FrameReason(s: Session, frame: Frame, why: Option<Notification>)
    requires Exchanging(s) ==> s.negotiated.Some?
  {
    if !Fits(frame.kind, |frame.body|) then
      why.Some? && why.value.code == 1 && why.value.subcode == 2
      && why.value.data == U16Bytes(if 19 + |frame.body| > U16_MAX then U16_MAX else 19 + |frame.body|)
    else if frame.kind == KNotification then why.None?
    else if !Expects(s.state, frame.kind) then why == Some(Notification(5, Surprise(s.state), [KindByte(frame.kind)]))
    else if frame.kind == KOpen then
      if Verdict(s, frame.body).Ok? then why.None? else why.Some? && OpenRefused(s, frame.body, why.value)
    else if frame.kind == KUpdate then
      match Update.Validate(frame.body, s.negotiated.value.fourOctetAsn)
      case Ok(_) => why.None?
      case Err(f) =>
        if s.config.strictUpdateErrors || !Update.Structured(frame.body)
        then why == Some(Notification(f.error.code, f.error.subcode, f.data)) else why.None?
    else why.None?
  }

  /** The reason an event is answered with one. */
  ghost predicate Reason(s: Session, event: Event, why: Option<Notification>)
    requires Exchanging(s) ==> s.negotiated.Some?
  {
    match event
    case AdminReset => why == Some(Notification(6, 4, []))
    case Shutdown => why == if s.config.gracefulShutdown then None else Some(Notification(6, 2, []))
    case Message(generation, frame) =>
      if generation == s.generation && Connected(s) then FrameReason(s, frame, why) else why.None?
    case _ => why.None?
  }

  function Asked(why: Option<Notification>): seq<Notification> { if why.Some? then [why.value] else [] }

  lemma OpenTells(s: Session, body: seq<byte>, now: u64) returns (why: Option<Notification>)
    requires Inv(s) && s.state == OpenSent
    ensures OnOpen(s, body, now).Ok? ==> Told(OnOpen(s, body, now).value.actions) == Asked(why)
    ensures if Verdict(s, body).Ok? then why.None? else why.Some? && OpenRefused(s, body, why.value)
  {
    hide Reset, DecodeOpen, Negotiate, OpenParameterSubcode, HoldAt, KeepaliveAt,
      Told, Unsupported, ParameterCapabilities;
    SubcodeExactly(body);
    OpenCodes(s.config.local, body, s.config.peerAsn);
    match Verdict(s, body)
    case Ok(_) =>
      why := None;
      ToldOne(Send(KKeepalive, []));
    case Err(e) =>
      OfferedHere(s);
      var cause := OpenRefusal(s, body, e).value;
      why := Some(cause);
      ResetRead(s, now, why);
  }

  lemma OfferedHere(s: Session)
    requires Inv(s)
    ensures OfferedFamilies(s.config.local.capabilities).Ok?
    ensures ParameterCapabilities(OfferedFamilies(s.config.local.capabilities).value)
            == Ok(Multiprotocols(s.config.local.capabilities))
  {
    OfferedBound(s.config.local.capabilities);
    OfferedReads(s.config.local.capabilities);
  }

  lemma UpdateTells(s: Session, body: seq<byte>, now: u64) returns (why: Option<Notification>)
    requires Coherent(s) && s.state == Established && Fits(KUpdate, |body|)
    ensures OnUpdate(s, body, now).Ok? ==> Told(OnUpdate(s, body, now).value.actions) == Asked(why)
    ensures FrameReason(s, Frame(KUpdate, body), why)
  {
    hide Reset, Update.Validate, HoldAt, Told, Update.Structured;
    var four := s.negotiated.value.fourOctetAsn;
    match Update.Validate(body, four)
    case Ok(summary) =>
      why := None;
      ToldOne(ObserveUpdate(summary));
    case Err(f) =>
      Update.ErrorScopes(body, four);
      Update.ErrorCodes(body, four);
      ToldOne(DiscardUpdate(f.error));
      var cause := Notification(f.error.code, f.error.subcode, f.data);
      why := if s.config.strictUpdateErrors || !Update.Structured(body) then Some(cause) else None;
      ResetRead(s, now, Some(cause));
  }

  /** Every message is answered with a NOTIFICATION exactly for its reason. */
  lemma FrameTells(s: Session, frame: Frame, now: u64) returns (why: Option<Notification>)
    requires Inv(s) && Connected(s)
    ensures Coherent(s) && FrameReason(s, frame, why)
    ensures OnFrame(s, frame, now).Ok? ==> Told(OnFrame(s, frame, now).value.actions) == Asked(why)
  {
    hide Reset, OnOpen, OnUpdate, HoldAt, Told, DecodeNotification, DecodeRefresh, Framing.Encode;
    hide OpenRefused, Verdict, Update.Structured, Update.Validate;
    CoherentInv(s);
    FitsExactly(frame.kind, frame.body);
    ToldNone();
    if !Fits(frame.kind, |frame.body|) {
      why := Some(Notification(1, 2, U16Bytes(ReportedLength(frame.body))));
      ResetRead(s, now, why);
    } else if frame.kind == KNotification {
      why := None;
      NotifiedTells(s, frame.body, now);
    } else if !Expects(s.state, frame.kind) {
      why := Some(Notification(5, Surprise(s.state), [KindByte(frame.kind)]));
      ResetRead(s, now, why);
    } else if frame.kind == KOpen {
      why := OpenTells(s, frame.body, now);
    } else if frame.kind == KUpdate {
      why := UpdateTells(s, frame.body, now);
      assert frame == Frame(KUpdate, frame.body);
    } else {
      why := None;
      ToldOne(Export(s.negotiated.value.families, true));
      forall f ensures Told([Export({f}, false)]) == [] { ToldOne(Export({f}, false)); }
    }
  }

  lemma NotifiedTells(s: Session, body: seq<byte>, now: u64)
    ensures OnNotification(s, body, now).Ok? ==> Told(OnNotification(s, body, now).value.actions) == []
  {
    hide Reset, Told, DecodeNotification;
    ResetRead(s, now, None);
  }

  /** What a session tells its peer on an event is its reason, and nothing without
      one. */
  lemma EventTells(s: Session, event: Event, now: u64, entropy: u64) returns (why: Option<Notification>)
    requires Inv(s)
    ensures Coherent(s) && Reason(s, event, why)
    ensures Process(s, event, now, entropy).Ok? ==> Told(Process(s, event, now, entropy).value.actions) == Asked(why)
  {
    hide Reset, OnFrame, EncodeOpen, RetryAt, Told, ConfigAccepted, FrameReason;
    CoherentInv(s);
    why := None;
    ToldNone();
    ToldOne(DropConnection);
    forall g ensures Told([DoConnect(g)]) == [] { ToldOne(DoConnect(g)); }
    forall body ensures Told([Send(KOpen, body)]) == [] { ToldOne(Send(KOpen, body)); }
    ResetRead(s, now, None);
    ResetRead(s.(running := false), now, None);
    match event
    case AdminReset =>
      why := Some(Notification(6, 4, []));
      ResetRead(s, now, why);
    case Shutdown =>
      if !s.config.gracefulShutdown {
        why := Some(Notification(6, 2, []));
        ResetRead(s.(running := false), now, why);
      }
    case Message(generation, frame) =>
      if generation == s.generation && Connected(s) {
        why := FrameTells(s, frame, now);
      } else if !Connected(s) {
        IgnoredTells(s, frame, now);
      }
    case SoftResetOut => if s.state == Established { ToldOne(Export(s.negotiated.value.families, false)); }
    case _ =>
  }

  lemma IgnoredTells(s: Session, frame: Frame, now: u64)
    requires Coherent(s) && !Connected(s)
    ensures OnFrame(s, frame, now) == Ok(Step(s, []))
  {
  }

  /** Bytes that break the framing are answered with the length or the type that
      did it. */
  lemma FramingTells(s: Session, generation: u64, bytes: seq<byte>, now: u64, entropy: u64)
    requires Inv(s) && Timed(s) && Framing.Decode(bytes).Err? && Framing.Decode(bytes).error.Protocol?
    requires Advance(s, now, entropy).Ok? && Receive(s, generation, bytes, now, entropy).Ok?
    ensures Receive(s, generation, bytes, now, entropy).value.Some?
    ensures var timed := Advance(s, now, entropy).value;
            var r := Receive(s, generation, bytes, now, entropy).value.value;
            var length := 256 * bytes[16] as int + bytes[17] as int;
            && r.consumed == |bytes|
            && (generation == timed.session.generation && Connected(timed.session) ==>
                  Told(r.step.actions) == Told(timed.actions)
                    + [if 19 <= length <= 4096 && !(1 <= bytes[18] <= 5)
                       then Notification(1, 3, [bytes[18]]) else Notification(1, 2, bytes[16..18])])
            && (!(generation == timed.session.generation && Connected(timed.session)) ==> r.step == timed)
  {
    hide Advance, Reset, Told, Inv;
    var e := Framing.Decode(bytes).error.error;
    var timed := Advance(s, now, entropy).value;
    var cause := Notification(e.code, e.subcode, FramingData(bytes, e.subcode));
    assert bytes[16..18] == [bytes[16], bytes[17]] && bytes[18..19] == [bytes[18]];
    ResetRead(timed.session, now, Some(cause));
    if Reset(timed.session, now, Some(cause)).Ok? {
      ToldSplit(timed.actions, Reset(timed.session, now, Some(cause)).value.actions);
    }
  }

  // ---------- whether routes may stay ----------

  /** Both ends announced graceful restart, and both notification support for it. */
  predicate MayRestart(s: Session) { s.negotiated.Some? && s.negotiated.value.graceful.Some? }

  predicate MayNotify(s: Session) { MayRestart(s) && s.negotiated.value.graceful.value.notifications }

  /** When the peer may keep this end's routes: a lost connection or a graceful
      shutdown under graceful restart; an error either end reports, if both support
      that and it is no hard reset; never an administrative reset or shutdown. */
  ghost predicate Retains(s: Session, event: Event)
  {
    match event
    case TcpClosed(_) => MayRestart(s)
    case Shutdown => MayRestart(s) && s.config.gracefulShutdown
    case AdminReset => false
    case Message(_, frame) =>
      && MayNotify(s)
      && (frame.kind == KNotification && Fits(KNotification, |frame.body|) ==> frame.body[..2] != [6, 9])
    case _ => false
  }

  lemma ResetDisposes(s: Session, now: u64, cause: Option<Notification>)
    ensures Reset(s, now, cause).Ok? ==>
              (Reset(s, now, cause).value.session.lastClose == PeerMayRetainExports <==>
                 if cause.None? then MayRestart(s) else MayNotify(s) && !HardCause(cause.value))
  {
    hide Farewell;
  }

  /** An end of a conversation leaves exactly the right word on the routes. */
  lemma RetainsExactly(s: Session, event: Event, now: u64, entropy: u64)
    requires Inv(s) && Exchanging(s)
    ensures Coherent(s)
    ensures var r := Process(s, event, now, entropy);
            r.Ok? ==>
              if r.value.session.generation == s.generation then r.value.session.lastClose == s.lastClose
              else r.value.session.lastClose == PeerMayRetainExports <==> Retains(s, event)
  {
    hide Reset, OnFrame, EncodeOpen, RetryAt, ConfigAccepted;
    CoherentInv(s);
    forall t: Session, cause
      ensures Reset(t, now, cause).Ok? ==>
                && Reset(t, now, cause).value.session.generation == t.generation + 1
                && (Reset(t, now, cause).value.session.lastClose == PeerMayRetainExports <==>
                      if cause.None? then MayRestart(t) else MayNotify(t) && !HardCause(cause.value))
    {
      ResetDisposes(t, now, cause);
      ResetLeaves(t, now, cause);
    }
    if event.Message? { FrameRetains(s, event.frame, now); }
  }

  lemma FrameRetains(s: Session, frame: Frame, now: u64)
    requires Inv(s) && Exchanging(s)
    ensures Coherent(s)
    ensures var r := OnFrame(s, frame, now);
            r.Ok? ==>
              if r.value.session.generation == s.generation then r.value.session.lastClose == s.lastClose
              else r.value.session.lastClose == PeerMayRetainExports <==> Retains(s, Message(s.generation, frame))
  {
    hide Reset, Update.Validate, Framing.Encode, HoldAt, ConfigAccepted, Update.Structured;
    CoherentInv(s);
    FitsExactly(frame.kind, frame.body);
    forall cause
      ensures Reset(s, now, cause).Ok? ==>
                && Reset(s, now, cause).value.session.generation == s.generation + 1
                && (Reset(s, now, cause).value.session.lastClose == PeerMayRetainExports <==>
                      if cause.None? then MayRestart(s) else MayNotify(s) && !HardCause(cause.value))
    {
      ResetDisposes(s, now, cause);
      ResetLeaves(s, now, cause);
    }
    if s.state == Established && frame.kind == KUpdate
       && Update.Validate(frame.body, s.negotiated.value.fourOctetAsn).Err? {
      Update.ErrorCodes(frame.body, s.negotiated.value.fourOctetAsn);
    }
    if frame.kind == KNotification && Fits(KNotification, |frame.body|) {
      assert frame.body[..2] == [frame.body[0], frame.body[1]];
    }
  }

  /** Silence is an error this end reports. */
  lemma ExpiryRetains(s: Session, now: u64, entropy: u64)
    requires Inv(s) && Timed(s) && Exchanging(s) && Due(s.deadlines.hold, now) && Advance(s, now, entropy).Ok?
    ensures Advance(s, now, entropy).value.session.lastClose == PeerMayRetainExports <==> MayNotify(s)
  {
    hide Reset, ConfigAccepted;
    ResetDisposes(s.(lastTime := now), now, Some(Notification(4, 0, [])));
  }
}
