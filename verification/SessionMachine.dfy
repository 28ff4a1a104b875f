/** The session as the object callers hold: fields changed step by step on a
    copy that replaces the original only on success
    (crates/flowsdn-bgp-proto/src/session.rs:104-641). Every method is proved
    against the value-level step of SessionCore. */
module SessionMachine {
  import opened Bytes
  import opened Framing
  import opened OpenCodec
  import opened OpenParameters
  import opened Negotiation
  import opened Messages
  import opened SessionCore
  import opened SessionInvariants
  import Update

  /** A private method's effect: the actions pushed and the new state, or the error. */
  ghost predicate Did(spec: Outcome, r: Result<seq<Action>, Error>, out: seq<Action>, state: Session)
  {
    match spec
    case Ok(step) => r == Ok(out + step.actions) && state == step.session
    case Err(e) => r == Err(e)
  }

  /** A public method's effect: the same, and an error changes nothing. */
  ghost predicate Committed(spec: Outcome, r: Result<seq<Action>, Error>, before: Session, after: Session)
  {
    match spec
    case Ok(step) => r == Ok(step.actions) && after == step.session
    case Err(e) => r == Err(e) && after == before
  }

  /** The capability data of an unsupported-capability refusal, by its loop. */
  method Offered(caps: seq<Capability>) returns (r: Result<seq<byte>, Error>)
    ensures r == OfferedFamilies(caps)
  {
    var data: seq<byte> := [];
    var i := 0;
    ExtendsStart(OfferedFamilies(caps));
    assert caps[0..] == caps;
    while i < |caps|
      invariant 0 <= i <= |caps|
      invariant Extends(OfferedFamilies(caps), data, OfferedFamilies(caps[i..]))
    {
      TakeNext(caps, i);
      var next: seq<byte> := [];
      if caps[i].code == 1 {
        if |caps[i].value| > 255 {
          OfferedError(caps[i + 1..]);
          return Err(InvalidConfig);
        }
        next := [1, |caps[i].value|] + caps[i].value;
      }
      var rest := OfferedFamilies(caps[i + 1..]);
      assert rest.Ok? ==> [] + rest.value == rest.value;
      assert rest.Ok? ==> OfferedFamilies(caps[i..]) == Ok(next + rest.value);
      ExtendsStep(OfferedFamilies(caps), data, next, rest);
      data := data + next;
      i := i + 1;
    }
    assert data + [] == data;
    r := Ok(data);
  }

  lemma {:induction false} OfferedError(caps: seq<Capability>)
    ensures OfferedFamilies(caps).Err? ==> OfferedFamilies(caps).error == InvalidConfig
  {
    if caps != [] { OfferedError(caps[1..]); }
  }

  class Machine {
    var config: Config
    var state: State
    var deadlines: Deadlines
    var negotiated: Option<Negotiated>
    var lastTime: u64
    var generation: u64
    var running: bool
    var lastClose: CloseDisposition

    function Snapshot(): Session
      reads this
    {
      Session(config, state, deadlines, negotiated, lastTime, generation, running, lastClose)
    }

    constructor Start(accepted: Config)
      ensures Snapshot() == Session(accepted, Idle, DISARMED, None, 0, 0, false, Hard)
    {
      config := accepted;
      state := Idle;
      deadlines := DISARMED;
      negotiated := None;
      lastTime := 0;
      generation := 0;
      running := false;
      lastClose := Hard;
    }

    constructor Clone(other: Machine)
      ensures Snapshot() == other.Snapshot()
    {
      config := other.config;
      state := other.state;
      deadlines := other.deadlines;
      negotiated := other.negotiated;
      lastTime := other.lastTime;
      generation := other.generation;
      running := other.running;
      lastClose := other.lastClose;
    }

    method Replace(next: Machine)
      modifies this
      ensures Snapshot() == next.Snapshot()
    {
      config := next.config;
      state := next.state;
      deadlines := next.deadlines;
      negotiated := next.negotiated;
      lastTime := next.lastTime;
      generation := next.generation;
      running := next.running;
      lastClose := next.lastClose;
    }

    static method New(config: Config) returns (r: Result<Machine, Error>)
      ensures match SessionCore.New(config)
              case Ok(s) => r.Ok? && fresh(r.value) && r.value.Snapshot() == s && Inv(s)
              case Err(e) => r == Err(e)
    {
      var encoded := EncodeOpenLoop(config.local);
      var asn := EffectiveAsnLoop(config.local);
      if || encoded.Err? || config.local.routerId == 0 || asn == Ok(0)
         || (config.passive && !config.listen)
         || config.retryMs == 0 || config.retryMs > U64_MAX / 2 || config.keepaliveMs == 0
      {
        return Err(InvalidConfig);
      }
      NewInv(config);
      var made := new Machine.Start(config);
      r := Ok(made);
    }

    method NewGeneration() returns (r: Result<(), Error>)
      modifies this`generation
      ensures match NextGeneration(old(Snapshot()))
              case Ok(g) => r == Ok(()) && generation == g
              case Err(e) => r == Err(e)
    {
      if generation == U64_MAX { return Err(GenerationExhausted); }
      generation := generation + 1;
      r := Ok(());
    }

    method Connect(now: u64, entropy: u64, out: seq<Action>) returns (r: Result<seq<Action>, Error>)
      requires negotiated.None?
      modifies this
      ensures Did(DialOrListen(old(Snapshot()), now, entropy), r, out, Snapshot())
    {
      var _ :- NewGeneration();
      state := if config.passive then Active else State.Connect;
      var delay :- RetryDelay(config.retryMs, entropy);
      var retry :- Deadline(now, delay);
      deadlines := DISARMED.(retry := Some(retry));
      r := Ok(out + if config.passive then [] else [DoConnect(generation)]);
    }

    method ResetNotification(now: u64, cause: Option<Notification>, out: seq<Action>)
      returns (r: Result<seq<Action>, Error>)
      modifies this
      ensures Did(Reset(old(Snapshot()), now, cause), r, out, Snapshot())
    {
      hide EncodeNotification, Messages.HardReset;
      var terms := GracefulTerms(Snapshot());
      var notifications := terms.Some? && terms.value.notifications;
      var hard := cause.Some? && HardCause(cause.value);
      lastClose := if terms.Some? && !hard && (cause.None? || notifications) then PeerMayRetainExports else Hard;
      var said := out;
      if cause.Some? {
        var wrapped := if hard then Messages.HardReset(cause.value, notifications) else Ok(cause.value);
        if wrapped.Err? { return Err(InvalidConfig); }
        var body := EncodeNotification(wrapped.value);
        if body.Err? { return Err(InvalidConfig); }
        said := said + [Send(KNotification, body.value)];
      }
      said := said + [Close];
      assert Farewell(old(Snapshot()), cause).Ok? && said == out + (Farewell(old(Snapshot()), cause).value + [Close]);
      var _ :- NewGeneration();
      state := Idle;
      negotiated := None;
      deadlines := DISARMED;
      if running {
        var idle :- Deadline(now, RESET_IDLE_MS);
        deadlines := deadlines.(idle := Some(idle));
      }
      r := Ok(said);
    }

    method ResetWith(now: u64, code: byte, subcode: byte, out: seq<Action>) returns (r: Result<seq<Action>, Error>)
      modifies this
      ensures Did(ResetCode(old(Snapshot()), now, code, subcode), r, out, Snapshot())
    {
      r := ResetNotification(now,
        Some(if (code, subcode) == (2, 1) then UNSUPPORTED_VERSION else Notification(code, subcode, [])), out);
    }

    method ResetHold(now: u64) returns (r: Result<(), Error>)
      modifies this`deadlines
      ensures match HoldAt(old(Snapshot()), now)
              case Ok(hold) => r == Ok(()) && deadlines == old(deadlines).(hold := hold)
              case Err(e) => r == Err(e)
    {
      var hold := HoldDelay(Snapshot());
      if hold == 0 {
        deadlines := deadlines.(hold := None);
      } else {
        var at :- Deadline(now, hold);
        deadlines := deadlines.(hold := Some(at));
      }
      r := Ok(());
    }

    method ScheduleKeepalive(now: u64) returns (r: Result<(), Error>)
      modifies this`deadlines
      ensures match KeepaliveAt(old(Snapshot()), now)
              case Ok(at) => r == Ok(()) && deadlines == old(deadlines).(keepalive := at)
              case Err(e) => r == Err(e)
    {
      var delay := KeepaliveDelay(Snapshot());
      if delay == 0 {
        deadlines := deadlines.(keepalive := None);
      } else {
        var at :- Deadline(now, delay);
        deadlines := deadlines.(keepalive := Some(at));
      }
      r := Ok(());
    }

    method RedialTimers(now: u64, entropy: u64, out: seq<Action>) returns (r: Result<seq<Action>, Error>)
      requires Timed(Snapshot())
      modifies this
      ensures Did(Redial(old(Snapshot()), now, entropy), r, out, Snapshot())
    {
      hide DialOrListen;
      assert out + [] == out;
      if deadlines.idle.Some? && now >= deadlines.idle.value {
        r := Connect(now, entropy, out);
      } else if deadlines.retry.Some? && now >= deadlines.retry.value && state in {State.Connect, Active} {
        ghost var dialed := DialOrListen(Snapshot(), now, entropy);
        var said :- Connect(now, entropy, out + [Close]);
        assert said == out + ([Close] + dialed.value.actions);
        r := Ok(said);
      } else {
        r := Ok(out);
      }
    }

    method AdvanceTimers(now: u64, entropy: u64, out: seq<Action>) returns (r: Result<seq<Action>, Error>)
      requires Timed(Snapshot())
      modifies this
      ensures Did(Advance(old(Snapshot()), now, entropy), r, out, Snapshot())
    {
      hide ResetCode, Redial, KeepaliveAt;
      ghost var before := Snapshot();
      if now < lastTime { return Err(ClockReversed); }
      lastTime := now;
      if deadlines.hold.Some? && now >= deadlines.hold.value {
        r := ResetWith(now, 4, 0, out);
        return;
      }
      var said :- RedialTimers(now, entropy, out);
      ghost var dialed := Redial(before.(lastTime := now), now, entropy).value;
      if deadlines.keepalive.Some? && now >= deadlines.keepalive.value && state in {OpenConfirm, Established} {
        said := said + [Send(KKeepalive, [])];
        var _ :- ScheduleKeepalive(now);
      }
      assert said == out + (dialed.actions + Beat(dialed.session, now).value.actions);
      r := Ok(said);
    }

    method Establish(fromGeneration: u64, inbound: bool, now: u64, out: seq<Action>)
      returns (r: Result<seq<Action>, Error>)
      requires Coherent(Snapshot())
      modifies this
      ensures Did(Process(old(Snapshot()), TcpEstablished(fromGeneration, inbound), now, 0), r, out, Snapshot())
    {
      hide EncodeOpen;
      if || fromGeneration != generation || !running || (inbound && !config.listen)
         || state in {OpenSent, OpenConfirm, Established} || deadlines.idle.Some?
      {
        return Ok(out + [DropConnection]);
      }
      if !inbound && config.passive { return Ok(out + [DropConnection]); }
      if !inbound && state == Idle { return Ok(out + [DropConnection]); }
      state := OpenSent;
      var hold :- Deadline(now, OPEN_HOLD_MS);
      deadlines := DISARMED.(hold := Some(hold));
      var body := EncodeOpenLoop(config.local);
      if body.Err? { return Err(InvalidConfig); }
      r := Ok(out + [Send(KOpen, body.value)]);
    }

    method Retry(now: u64, entropy: u64, kept: Deadlines) returns (r: Result<(), Error>)
      requires negotiated.None?
      modifies this
      ensures match FallBack(old(Snapshot()), now, entropy, kept)
              case Ok(step) => r == Ok(()) && Snapshot() == step.session && step.actions == []
              case Err(e) => r == Err(e)
    {
      var _ :- NewGeneration();
      state := Active;
      var delay :- RetryDelay(config.retryMs, entropy);
      var retry :- Deadline(now, delay);
      deadlines := kept.(retry := Some(retry));
      r := Ok(());
    }

    method TcpClosedOn(fromGeneration: u64, now: u64, entropy: u64, out: seq<Action>)
      returns (r: Result<seq<Action>, Error>)
      requires Coherent(Snapshot())
      modifies this
      ensures Did(Process(old(Snapshot()), TcpClosed(fromGeneration), now, entropy), r, out, Snapshot())
    {
      hide Reset, FallBack;
      assert out + [] == out;
      if fromGeneration != generation { return Ok(out); }
      match state
      case OpenSent =>
        var _ :- Retry(now, entropy, DISARMED);
        r := Ok(out);
      case OpenConfirm => r := ResetNotification(now, None, out);
      case Established => r := ResetNotification(now, None, out);
      case Connect =>
        var _ :- Retry(now, entropy, deadlines);
        r := Ok(out);
      case Active =>
        var _ :- Retry(now, entropy, deadlines);
        r := Ok(out);
      case Idle => r := Ok(out);
    }

    method ProcessEvent(event: Event, now: u64, entropy: u64, out: seq<Action>)
      returns (r: Result<seq<Action>, Error>)
      requires Coherent(Snapshot())
      modifies this
      ensures Did(Process(old(Snapshot()), event, now, entropy), r, out, Snapshot())
    {
      hide Reset, FallBack, DialOrListen, Accept, OnFrame, ResetCode;
      assert out + [] == out;
      match event
      case Start =>
        running := true;
        if state == Idle && deadlines.idle.None? { r := Connect(now, entropy, out); } else { r := Ok(out); }
      case AdminReset => r := ResetWith(now, 6, 4, out);
      case Shutdown =>
        running := false;
        if config.gracefulShutdown { r := ResetNotification(now, None, out); } else { r := ResetWith(now, 6, 2, out); }
      case SoftResetOut =>
        r := Ok(if state == Established then out + [Export(negotiated.value.families, false)] else out);
      case TcpEstablished(fromGeneration, inbound) => r := Establish(fromGeneration, inbound, now, out);
      case TcpFailed(fromGeneration) =>
        if fromGeneration == generation && state in {State.Connect, Active} {
          var _ :- Retry(now, entropy, deadlines);
        }
        r := Ok(out);
      case TcpClosed(fromGeneration) => r := TcpClosedOn(fromGeneration, now, entropy, out);
      case Message(fromGeneration, frame) =>
        if fromGeneration != generation { return Ok(out); }
        r := ReceiveFrame(frame, now, out);
    }

    method ReceiveOpen(body: seq<byte>, now: u64, out: seq<Action>) returns (r: Result<seq<Action>, Error>)
      requires state == OpenSent
      modifies this
      ensures Did(OnOpen(old(Snapshot()), body, now), r, out, Snapshot())
    {
      hide Reset, DecodeOpen, Negotiate, OpenParameterSubcode, OfferedFamilies, HoldAt, KeepaliveAt;
      var decoded := DecodeOpenLoop(body);
      var verdict :=
        if decoded.Err? then Err(decoded.error) else Negotiate(config.local, decoded.value, config.peerAsn);
      if verdict.Ok? {
        negotiated := Some(verdict.value);
        state := OpenConfirm;
        deadlines := DISARMED;
        ghost var open := Snapshot();
        var _ :- ResetHold(now);
        KeepaliveIgnoresDeadlines(open, Snapshot(), now);
        var _ :- ScheduleKeepalive(now);
        r := Ok(out + [Send(KKeepalive, [])]);
      } else {
        var error := verdict.error;
        var subcode := error.subcode;
        if subcode == 4 { subcode := OpenParameterSubcodeLoop(body); }
        var data: seq<byte> := if subcode == 1 then [0, 4] else [];
        if subcode == 7 {
          data :- Offered(config.local.capabilities);
        }
        r := ResetNotification(now, Some(Notification(error.code, subcode, data)), out);
      }
    }

    method ReceiveUpdate(body: seq<byte>, now: u64, out: seq<Action>) returns (r: Result<seq<Action>, Error>)
      requires Coherent(Snapshot()) && state == Established
      modifies this
      ensures Did(OnUpdate(old(Snapshot()), body, now), r, out, Snapshot())
    {
      hide Reset, Update.Validate, HoldAt;
      var verdict := Update.ValidateLoop(body, negotiated.value.fourOctetAsn);
      if verdict.Ok? {
        var _ :- ResetHold(now);
        r := Ok(out + [ObserveUpdate(verdict.value)]);
      } else {
        var failure := verdict.error;
        match ErrorActionOf(failure.error, config.strictUpdateErrors)
        case NotifyAndClose =>
          r := ResetNotification(now,
            Some(Notification(failure.error.code, failure.error.subcode, failure.data)), out);
        case CountLogAndDiscard => r := Ok(out + [DiscardUpdate(failure.error)]);
      }
    }

    method ReceiveFrame(frame: Frame, now: u64, out: seq<Action>) returns (r: Result<seq<Action>, Error>)
      requires Coherent(Snapshot())
      modifies this
      ensures Did(OnFrame(old(Snapshot()), frame, now), r, out, Snapshot())
    {
      hide Reset, OnOpen, OnUpdate, Framing.Encode, HoldAt, DecodeRefresh, DecodeNotification, PermitsGracefulRestart;
      assert out + [] == out;
      if state !in {OpenSent, OpenConfirm, Established} { return Ok(out); }
      var envelope := Framing.Encode(frame.kind, frame.body);
      if envelope.Err? {
        var e := envelope.error;
        r := ResetNotification(now, Some(Notification(e.code, e.subcode, U16Bytes(ReportedLength(frame.body)))), out);
        return;
      }
      if frame.kind == KNotification {
        var notifications := BothNotify(Snapshot());
        var decoded := DecodeNotification(frame.body);
        var graceful := decoded.Ok? && PermitsGracefulRestart(decoded.value, notifications);
        r := ResetNotification(now, None, out);
        if r.Ok? && !graceful { lastClose := Hard; }
        return;
      }
      if state == OpenSent && frame.kind == KOpen {
        r := ReceiveOpen(frame.body, now, out);
        return;
      }
      if state == OpenConfirm && frame.kind == KKeepalive {
        state := Established;
        var _ :- ResetHold(now);
        return Ok(out + [Export(negotiated.value.families, true)]);
      }
      if state == Established {
        if frame.kind == KKeepalive {
          var _ :- ResetHold(now);
          return Ok(out);
        }
        if frame.kind == KUpdate {
          r := ReceiveUpdate(frame.body, now, out);
          return;
        }
        if frame.kind == KRouteRefresh {
          var family := DecodeRefresh(frame.body);
          return Ok(if family.Ok? && family.value in negotiated.value.families
                    then out + [Export({family.value}, false)] else out);
        }
      }
      var subcode := if state == OpenSent then 1 else if state == OpenConfirm then 2 else 3;
      r := ResetNotification(now, Some(Notification(5, subcode, [KindByte(frame.kind)])), out);
    }

    // ---------- the interface ----------

    /** An input to the timers. On an error nothing changed. */
    method Poll(now: u64, entropy: u64) returns (r: Result<seq<Action>, Error>)
      requires Inv(Snapshot())
      modifies this
      ensures Committed(SessionCore.Poll(old(Snapshot()), now, entropy), r, old(Snapshot()), Snapshot())
      ensures Inv(Snapshot())
    {
      hide Advance;
      PollGood(Snapshot(), now, entropy);
      var next := new Machine.Clone(this);
      var out :- next.AdvanceTimers(now, entropy, []);
      assert out == Advance(old(Snapshot()), now, entropy).value.actions;
      Replace(next);
      r := Ok(out);
    }

    method Handle(event: Event, now: u64, entropy: u64) returns (r: Result<seq<Action>, Error>)
      requires Inv(Snapshot())
      modifies this
      ensures Committed(SessionCore.Handle(old(Snapshot()), event, now, entropy), r, old(Snapshot()), Snapshot())
      ensures Inv(Snapshot())
    {
      hide Advance, Process;
      HandleGood(Snapshot(), event, now, entropy);
      var next := new Machine.Clone(this);
      var out :- next.AdvanceTimers(now, entropy, []);
      assert out == Advance(old(Snapshot()), now, entropy).value.actions;
      out :- next.ProcessEvent(event, now, entropy, out);
      Replace(next);
      r := Ok(out);
    }

    /** One buffered message: the actions and the bytes consumed, or `None` with
        nothing changed while the message is incomplete. */
    method Receive(fromGeneration: u64, bytes: seq<byte>, now: u64, entropy: u64)
      returns (r: Result<Option<(seq<Action>, nat)>, Error>)
      requires Inv(Snapshot())
      modifies this
      ensures Inv(Snapshot())
      ensures match SessionCore.Receive(old(Snapshot()), fromGeneration, bytes, now, entropy)
              case Ok(Some(got)) => r == Ok(Some((got.step.actions, got.consumed))) && Snapshot() == got.step.session
              case Ok(None) => r == Ok(None) && Snapshot() == old(Snapshot())
              case Err(e) => r == Err(e) && Snapshot() == old(Snapshot())
    {
      hide Advance, Process, SessionCore.Handle, Framing.Decode, Reset;
      ReceiveGood(Snapshot(), fromGeneration, bytes, now, entropy);
      var decoded := Framing.Decode(bytes);
      if decoded.Ok? {
        var (frame, consumed) := decoded.value;
        var out :- Handle(Message(fromGeneration, frame), now, entropy);
        return Ok(Some((out, consumed)));
      }
      if decoded.error == NeedMore { return Ok(None); }
      var error := decoded.error.error;
      var next := new Machine.Clone(this);
      var out :- next.AdvanceTimers(now, entropy, []);
      assert out == Advance(old(Snapshot()), now, entropy).value.actions;
      if fromGeneration == next.generation && next.state in {OpenSent, OpenConfirm, Established} {
        var data := FramingData(bytes, error.subcode);
        out :- next.ResetNotification(now, Some(Notification(error.code, error.subcode, data)), out);
      }
      Replace(next);
      r := Ok(Some((out, |bytes|)));
    }
  }

  lemma KeepaliveIgnoresDeadlines(s: Session, t: Session, now: u64)
    requires t == s.(deadlines := t.deadlines)
    ensures KeepaliveAt(t, now) == KeepaliveAt(s, now)
  {
  }
}
