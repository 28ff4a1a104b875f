/** One BGP session as a function of its state: timers, connection generations,
    messages (crates/flowsdn-bgp-proto/src/session.rs; section 8 of RFC 4271).
    Times, delays and generations are 64-bit: the arithmetic that can leave that
    range is checked and fails. */
module SessionCore {
  import opened Bytes
  import opened Framing
  import opened OpenCodec
  import opened OpenParameters
  import opened Negotiation
  import opened Messages
  import Update
  import Arith

  datatype CloseDisposition = Hard | PeerMayRetainExports

  datatype State = Idle | Connect | Active | OpenSent | OpenConfirm | Established

  datatype Error = InvalidConfig | ClockReversed | TimeOverflow | GenerationExhausted

  datatype Config = Config(
    local: Open,
    peerAsn: u32,
    listen: bool,
    passive: bool,
    retryMs: u64,
    keepaliveMs: u64,
    strictUpdateErrors: bool,
    gracefulShutdown: bool)

  datatype Action =
    | DoConnect(generation: u64)
    | Send(kind: Kind, body: seq<byte>)
    | Close
    | Export(families: set<Family>, endOfRib: bool)
    | ObserveUpdate(summary: Update.Summary)
    | DiscardUpdate(error: ProtocolError)
    | DropConnection

  datatype Deadlines = Deadlines(retry: Option<u64>, hold: Option<u64>, keepalive: Option<u64>, idle: Option<u64>)

  const DISARMED := Deadlines(None, None, None, None)

  datatype Session = Session(
    config: Config,
    state: State,
    deadlines: Deadlines,
    negotiated: Option<Negotiated>,
    lastTime: u64,
    generation: u64,
    running: bool,
    lastClose: CloseDisposition)

  datatype Event =
    | Start
    | TcpEstablished(generation: u64, inbound: bool)
    | TcpFailed(generation: u64)
    | TcpClosed(generation: u64)
    | Message(generation: u64, frame: Frame)
    | AdminReset
    | SoftResetOut
    | Shutdown

  /** A state change and the actions it asks for, in order. */
  datatype Step = Step(session: Session, actions: seq<Action>)

  type Outcome = Result<Step, Error>

  const RESET_IDLE_MS := 5000
  const OPEN_HOLD_MS := 240000

  function Deadline(now: u64, delay: u64): Result<u64, Error>
  {
    if now + delay > U64_MAX then Err(TimeOverflow) else Ok(now + delay)
  }

  function RetryDelay(base: u64, entropy: u64): Result<u64, Error>
  {
    if base == 0 then Err(InvalidConfig)
    else if base + entropy % base > U64_MAX then Err(TimeOverflow)
    else Ok(base + entropy % base)
  }

  /** One to two intervals, the jitter being what the entropy leaves of whole ones. */
  predicate Jittered(delay: nat, base: nat, entropy: nat)
  {
    base <= delay < 2 * base && (entropy + base - delay) % base == 0
  }

  /** The delay is one to two intervals, and cannot fail for an accepted interval. */
  lemma RetryDelayBounded(base: u64, entropy: u64)
    requires 0 < base <= U64_MAX / 2
    ensures RetryDelay(base, entropy).Ok?
    ensures Jittered(RetryDelay(base, entropy).value, base, entropy)
  {
    Arith.LessRemainder(entropy, base);
  }

  predicate ConfigAccepted(c: Config)
  {
    && EncodeOpen(c.local).Ok?
    && c.local.routerId != 0
    && EffectiveAsn(c.local) != Ok(0)
    && (c.passive ==> c.listen)
    && 0 < c.retryMs <= U64_MAX / 2
    && c.keepaliveMs != 0
  }

  function New(config: Config): Result<Session, Error>
  {
    if ConfigAccepted(config)
    then Ok(Session(config, Idle, DISARMED, None, 0, 0, false, Hard))
    else Err(InvalidConfig)
  }

  predicate Exchanging(s: Session) { s.state in {OpenConfirm, Established} }

  predicate Connected(s: Session) { s.state == OpenSent || Exchanging(s) }

  /** Negotiated parameters exist exactly while messages are exchanged. */
  predicate Coherent(s: Session) { s.negotiated.Some? <==> Exchanging(s) }

  function NextGeneration(s: Session): Result<u64, Error>
  {
    if s.generation == U64_MAX then Err(GenerationExhausted) else Ok(s.generation + 1)
  }

  function RetryAt(s: Session, now: u64, entropy: u64): Result<u64, Error>
  {
    var delay :- RetryDelay(s.config.retryMs, entropy);
    Deadline(now, delay)
  }

  function DialOrListen(s: Session, now: u64, entropy: u64): (r: Outcome)
    requires s.negotiated.None?
    ensures r.Ok? ==> Coherent(r.value.session)
  {
    var generation :- NextGeneration(s);
    var retry :- RetryAt(s, now, entropy);
    Ok(Step(s.(generation := generation,
               state := if s.config.passive then Active else Connect,
               deadlines := DISARMED.(retry := Some(retry))),
            if s.config.passive then [] else [DoConnect(generation)]))
  }

  /** Reset causes that drop the peer's copy of the routes (RFC 8538). */
  predicate HardCause(n: Notification)
  {
    n.code == 6 && n.subcode in {2, 3, 4, 9}
  }

  function GracefulTerms(s: Session): Option<Graceful>
  {
    if s.negotiated.Some? then s.negotiated.value.graceful else None
  }

  predicate BothNotify(s: Session)
  {
    GracefulTerms(s).Some? && GracefulTerms(s).value.notifications
  }

  /** What the reset says to the peer: nothing, or an encoded NOTIFICATION. */
  function Farewell(s: Session, cause: Option<Notification>): Result<seq<Action>, Error>
  {
    if cause.None? then Ok([]) else
    var wrapped := if HardCause(cause.value) then HardReset(cause.value, BothNotify(s)) else Ok(cause.value);
    if wrapped.Err? then Err(InvalidConfig) else
    match EncodeNotification(wrapped.value)
    case Err(_) => Err(InvalidConfig)
    case Ok(body) => Ok([Send(KNotification, body)])
  }

  function Disposition(s: Session, cause: Option<Notification>): CloseDisposition
  {
    if && GracefulTerms(s).Some?
       && !(cause.Some? && HardCause(cause.value))
       && (cause.None? || BothNotify(s))
    then PeerMayRetainExports else Hard
  }

  /** Leave the connection: say why, close, take a new generation, wait idle. */
  function Reset(s: Session, now: u64, cause: Option<Notification>): (r: Outcome)
    ensures r.Ok? ==> Coherent(r.value.session)
  {
    var farewell :- Farewell(s, cause);
    var generation :- NextGeneration(s);
    var idle :- IdleAt(s, now);
    Ok(Step(s.(lastClose := Disposition(s, cause),
               generation := generation,
               state := Idle,
               negotiated := None,
               deadlines := DISARMED.(idle := idle)),
            farewell + [Close]))
  }

  function IdleAt(s: Session, now: u64): Result<Option<u64>, Error>
  {
    if !s.running then Ok(None) else
    var wake :- Deadline(now, RESET_IDLE_MS);
    Ok(Some(wake))
  }

  function ResetCode(s: Session, now: u64, code: byte, subcode: byte): (r: Outcome)
    ensures r.Ok? ==> Coherent(r.value.session)
  {
    Reset(s, now, Some(if (code, subcode) == (2, 1) then UNSUPPORTED_VERSION else Notification(code, subcode, [])))
  }

  function HoldDelay(s: Session): u64
  {
    if s.negotiated.Some? then s.negotiated.value.holdTime * 1000 else 0
  }

  function HoldAt(s: Session, now: u64): Result<Option<u64>, Error>
  {
    if HoldDelay(s) == 0 then Ok(None) else
    var d :- Deadline(now, HoldDelay(s));
    Ok(Some(d))
  }

  function KeepaliveDelay(s: Session): u64
  {
    Min(s.config.keepaliveMs, HoldDelay(s) / 3)
  }

  function KeepaliveAt(s: Session, now: u64): Result<Option<u64>, Error>
  {
    if KeepaliveDelay(s) == 0 then Ok(None) else
    var d :- Deadline(now, KeepaliveDelay(s));
    Ok(Some(d))
  }

  predicate Due(deadline: Option<u64>, now: u64) { deadline.Some? && now >= deadline.value }

  /** The retry and idle timers. */
  function Redial(s: Session, now: u64, entropy: u64): (r: Outcome)
    requires Coherent(s) && (s.deadlines.idle.Some? ==> s.negotiated.None?)
    ensures r.Ok? ==> Coherent(r.value.session)
  {
    if Due(s.deadlines.idle, now) then DialOrListen(s, now, entropy)
    else if Due(s.deadlines.retry, now) && s.state in {Connect, Active} then
      var step :- DialOrListen(s, now, entropy);
      Ok(Step(step.session, [Close] + step.actions))
    else Ok(Step(s, []))
  }

  function Beat(s: Session, now: u64): (r: Outcome)
    requires Coherent(s)
    ensures r.Ok? ==> Coherent(r.value.session)
  {
    if Due(s.deadlines.keepalive, now) && Exchanging(s) then
      var at :- KeepaliveAt(s, now);
      Ok(Step(s.(deadlines := s.deadlines.(keepalive := at)), [Send(KKeepalive, [])]))
    else Ok(Step(s, []))
  }

  /** What the internal timers need of a state; every reachable state has it. */
  predicate Timed(s: Session)
  {
    Coherent(s) && (s.deadlines.idle.Some? ==> s.negotiated.None?)
  }

  /** The timer step before every input. Hold expiry wins ties. */
  function Advance(s: Session, now: u64, entropy: u64): (r: Outcome)
    requires Timed(s)
    ensures r.Ok? ==> Coherent(r.value.session)
  {
    if now < s.lastTime then Err(ClockReversed) else
    var at := s.(lastTime := now);
    if Due(at.deadlines.hold, now) then ResetCode(at, now, 4, 0) else
    var dialed :- Redial(at, now, entropy);
    var beaten :- Beat(dialed.session, now);
    Ok(Step(beaten.session, dialed.actions + beaten.actions))
  }

  function Poll(s: Session, now: u64, entropy: u64): Outcome
    requires Timed(s)
  {
    Advance(s, now, entropy)
  }

  predicate RefusesConnection(s: Session, generation: u64, inbound: bool)
  {
    || generation != s.generation
    || !s.running
    || (inbound && !s.config.listen)
    || Connected(s)
    || s.deadlines.idle.Some?
    || (!inbound && s.config.passive)
    || (!inbound && s.state == Idle)
  }

  function Accept(s: Session, now: u64): (r: Outcome)
    requires s.negotiated.None?
    ensures r.Ok? ==> Coherent(r.value.session)
  {
    var hold :- Deadline(now, OPEN_HOLD_MS);
    match EncodeOpen(s.config.local)
    case Err(_) => Err(InvalidConfig)
    case Ok(body) =>
      Ok(Step(s.(state := OpenSent, deadlines := DISARMED.(hold := Some(hold))), [Send(KOpen, body)]))
  }

  /** A connection attempt failed or an unopened connection closed: listen and retry. */
  function FallBack(s: Session, now: u64, entropy: u64, deadlines: Deadlines): (r: Outcome)
    requires s.negotiated.None?
    ensures r.Ok? ==> Coherent(r.value.session)
  {
    var generation :- NextGeneration(s);
    var retry :- RetryAt(s, now, entropy);
    Ok(Step(s.(generation := generation, state := Active, deadlines := deadlines.(retry := Some(retry))), []))
  }

  /** The local multiprotocol capabilities, as the unsupported-capability data. */
  function OfferedFamilies(caps: seq<Capability>): Result<seq<byte>, Error>
  {
    if caps == [] then Ok([]) else
    var rest :- OfferedFamilies(caps[1..]);
    if caps[0].code != 1 then Ok(rest)
    else if |caps[0].value| > 255 then Err(InvalidConfig)
    else Ok([1, |caps[0].value|] + caps[0].value + rest)
  }

  /** The NOTIFICATION for a refused OPEN. */
  function OpenRefusal(s: Session, body: seq<byte>, e: ProtocolError): Result<Notification, Error>
  {
    var subcode := if e.subcode == 4 then OpenParameterSubcode(body) else e.subcode;
    if subcode == 1 then Ok(Notification(e.code, 1, [0, 4]))
    else if subcode != 7 then Ok(Notification(e.code, subcode, []))
    else
      var data :- OfferedFamilies(s.config.local.capabilities);
      Ok(Notification(e.code, 7, data))
  }

  function OnOpen(s: Session, body: seq<byte>, now: u64): (r: Outcome)
    requires s.state == OpenSent
    ensures r.Ok? ==> Coherent(r.value.session)
  {
    var verdict := match DecodeOpen(body)
      case Err(e) => Err(e)
      case Ok(peer) => Negotiate(s.config.local, peer, s.config.peerAsn);
    match verdict
    case Err(e) =>
      var cause :- OpenRefusal(s, body, e);
      Reset(s, now, Some(cause))
    case Ok(negotiated) =>
      var open := s.(negotiated := Some(negotiated), state := OpenConfirm, deadlines := DISARMED);
      var hold :- HoldAt(open, now);
      var keepalive :- KeepaliveAt(open, now);
      Ok(Step(open.(deadlines := DISARMED.(hold := hold, keepalive := keepalive)), [Send(KKeepalive, [])]))
  }

  function Rehold(s: Session, now: u64, actions: seq<Action>): (r: Outcome)
    requires Coherent(s)
    ensures r.Ok? ==> Coherent(r.value.session)
  {
    var hold :- HoldAt(s, now);
    Ok(Step(s.(deadlines := s.deadlines.(hold := hold)), actions))
  }

  function OnUpdate(s: Session, body: seq<byte>, now: u64): (r: Outcome)
    requires Coherent(s) && s.state == Established
    ensures r.Ok? ==> Coherent(r.value.session)
  {
    match Update.Validate(body, s.negotiated.value.fourOctetAsn)
    case Ok(summary) => Rehold(s, now, [ObserveUpdate(summary)])
    case Err(failure) =>
      match ErrorActionOf(failure.error, s.config.strictUpdateErrors)
      case NotifyAndClose =>
        Reset(s, now, Some(Notification(failure.error.code, failure.error.subcode, failure.data)))
      case CountLogAndDiscard => Ok(Step(s, [DiscardUpdate(failure.error)]))
  }

  function OnRefresh(s: Session, body: seq<byte>): Step
    requires Coherent(s) && s.state == Established
  {
    match DecodeRefresh(body)
    case Ok(family) =>
      if family in s.negotiated.value.families then Step(s, [Export({family}, false)]) else Step(s, [])
    case Err(_) => Step(s, [])
  }

  function OnNotification(s: Session, body: seq<byte>, now: u64): (r: Outcome)
    ensures r.Ok? ==> Coherent(r.value.session)
  {
    var graceful := match DecodeNotification(body)
      case Ok(n) => PermitsGracefulRestart(n, BothNotify(s))
      case Err(_) => false;
    var step :- Reset(s, now, None);
    Ok(Step(if graceful then step.session else step.session.(lastClose := Hard), step.actions))
  }

  /** The total length an over- or undersized frame reports, capped at 16 bits. */
  function ReportedLength(body: seq<byte>): u16
  {
    if HEADER_LENGTH + |body| > U16_MAX then U16_MAX else HEADER_LENGTH + |body|
  }

  /** A frame received on the current connection. */
  function OnFrame(s: Session, frame: Frame, now: u64): (r: Outcome)
    requires Coherent(s)
    ensures r.Ok? ==> Coherent(r.value.session)
  {
    if !Connected(s) then Ok(Step(s, [])) else
    match Framing.Encode(frame.kind, frame.body)
    case Err(e) => Reset(s, now, Some(Notification(e.code, e.subcode, U16Bytes(ReportedLength(frame.body)))))
    case Ok(_) =>
      if frame.kind == KNotification then OnNotification(s, frame.body, now)
      else if s.state == OpenSent && frame.kind == KOpen then OnOpen(s, frame.body, now)
      else if s.state == OpenConfirm && frame.kind == KKeepalive then
        Rehold(s.(state := Established), now, [Export(s.negotiated.value.families, true)])
      else if s.state == Established && frame.kind == KKeepalive then Rehold(s, now, [])
      else if s.state == Established && frame.kind == KUpdate then OnUpdate(s, frame.body, now)
      else if s.state == Established && frame.kind == KRouteRefresh then Ok(OnRefresh(s, frame.body))
      else
        var subcode := if s.state == OpenSent then 1 else if s.state == OpenConfirm then 2 else 3;
        Reset(s, now, Some(Notification(5, subcode, [KindByte(frame.kind)])))
  }

  /** One event, after the timer step. */
  function Process(s: Session, event: Event, now: u64, entropy: u64): (r: Outcome)
    requires Coherent(s)
    ensures r.Ok? ==> Coherent(r.value.session)
  {
    match event
    case Start =>
      var up := s.(running := true);
      if s.state == Idle && s.deadlines.idle.None? then DialOrListen(up, now, entropy) else Ok(Step(up, []))
    case AdminReset => ResetCode(s, now, 6, 4)
    case Shutdown =>
      var down := s.(running := false);
      if s.config.gracefulShutdown then Reset(down, now, None) else ResetCode(down, now, 6, 2)
    case SoftResetOut =>
      if s.state == Established then Ok(Step(s, [Export(s.negotiated.value.families, false)])) else Ok(Step(s, []))
    case TcpEstablished(generation, inbound) =>
      if RefusesConnection(s, generation, inbound) then Ok(Step(s, [DropConnection])) else Accept(s, now)
    case TcpFailed(generation) =>
      if generation == s.generation && s.state in {Connect, Active}
      then FallBack(s, now, entropy, s.deadlines) else Ok(Step(s, []))
    case TcpClosed(generation) =>
      if generation != s.generation || s.state == Idle then Ok(Step(s, []))
      else if s.state == OpenSent then FallBack(s, now, entropy, DISARMED)
      else if Exchanging(s) then Reset(s, now, None)
      else FallBack(s, now, entropy, s.deadlines)
    case Message(generation, frame) =>
      if generation != s.generation then Ok(Step(s, [])) else OnFrame(s, frame, now)
  }

  function Handle(s: Session, event: Event, now: u64, entropy: u64): Outcome
    requires Timed(s)
  {
    var timed :- Advance(s, now, entropy);
    var done :- Process(timed.session, event, now, entropy);
    Ok(Step(done.session, timed.actions + done.actions))
  }

  /** The data of a framing error's NOTIFICATION. */
  function FramingData(bytes: seq<byte>, subcode: byte): seq<byte>
  {
    if subcode == 2 && |bytes| >= 18 then bytes[16..18]
    else if subcode == 3 && |bytes| >= 19 then bytes[18..19]
    else []
  }

  datatype Received = Received(step: Step, consumed: nat)

  /** Consume one buffered message; `None` leaves everything as it was. */
  function Receive(s: Session, generation: u64, bytes: seq<byte>, now: u64, entropy: u64)
    : Result<Option<Received>, Error>
    requires Timed(s)
  {
    match Framing.Decode(bytes)
    case Ok((frame, consumed)) =>
      var step :- Handle(s, Message(generation, frame), now, entropy);
      Ok(Some(Received(step, consumed)))
    case Err(NeedMore) => Ok(None)
    case Err(Protocol(e)) =>
      var timed :- Advance(s, now, entropy);
      if generation == timed.session.generation && Connected(timed.session) then
        var closed :- Reset(timed.session, now,
                            Some(Notification(e.code, e.subcode, FramingData(bytes, e.subcode))));
        Ok(Some(Received(Step(closed.session, timed.actions + closed.actions), |bytes|)))
      else Ok(Some(Received(timed, |bytes|)))
  }
}
