/** Whole runs of a session: generations, connection attempts and the end-of-RIB
    export, over every sequence of inputs. */
module SessionRuns {
  import opened Bytes
  import opened Framing
  import OpenCodec
  import Negotiation
  import Messages
  import Update
  import opened SessionCore
  import opened SessionInvariants

  datatype Input =
    | PollAt(now: u64, entropy: u64)
    | HandleAt(event: Event, now: u64, entropy: u64)
    | ReceiveAt(generation: u64, bytes: seq<byte>, now: u64, entropy: u64)

  function Apply(s: Session, input: Input): Outcome
    requires Timed(s)
  {
    match input
    case PollAt(now, entropy) => Poll(s, now, entropy)
    case HandleAt(event, now, entropy) => Handle(s, event, now, entropy)
    case ReceiveAt(generation, bytes, now, entropy) => ReceiveOutcome(s, generation, bytes, now, entropy)
  }

  /** The session after an input: unchanged when the input fails. */
  function After(s: Session, input: Input): Session
    requires Timed(s)
  {
    match Apply(s, input) case Ok(step) => step.session case Err(_) => s
  }

  function Emitted(s: Session, input: Input): seq<Action>
    requires Timed(s)
  {
    match Apply(s, input) case Ok(step) => step.actions case Err(_) => []
  }

  lemma AfterInv(s: Session, input: Input)
    requires Inv(s)
    ensures Timed(s) && Inv(After(s, input)) && After(s, input).config == s.config
  {
    hide Poll, Handle, Receive, Inv;
    match input
    case PollAt(now, entropy) => PollGood(s, now, entropy);
    case HandleAt(event, now, entropy) => HandleGood(s, event, now, entropy);
    case ReceiveAt(generation, bytes, now, entropy) =>
      ReceiveGood(s, generation, bytes, now, entropy);
  }

  /** The states of a run, first to last. */
  ghost function States(s: Session, inputs: seq<Input>): (states: seq<Session>)
    requires Inv(s)
    ensures |states| == |inputs| + 1 && states[0] == s
    decreases |inputs|
  {
    if inputs == [] then [s] else
    AfterInv(s, inputs[0]);
    [s] + States(After(s, inputs[0]), inputs[1..])
  }

  lemma {:induction false} StatesInv(s: Session, inputs: seq<Input>, i: nat)
    requires Inv(s) && i <= |inputs|
    ensures Inv(States(s, inputs)[i]) && Timed(States(s, inputs)[i])
    ensures States(s, inputs)[i].config == s.config
    ensures i < |inputs| ==> States(s, inputs)[i + 1] == After(States(s, inputs)[i], inputs[i])
    decreases |inputs|
  {
    hide Inv, After;
    InvTimed(s);
    if inputs != [] {
      AfterInv(s, inputs[0]);
      var rest := States(After(s, inputs[0]), inputs[1..]);
      if i > 0 { StatesInv(After(s, inputs[0]), inputs[1..], i - 1); }
      assert States(s, inputs) == [s] + rest;
    }
  }

  /** Every state of every run from a new session: parameters are negotiated
      exactly in the last two states; a stopped session is idle with no timer; a
      running one that is not yet exchanging messages always has a timer to wake
      it; keepalives run exactly when the hold timer does; and nothing armed is
      already due. */
  lemma EveryReachableState(config: SessionCore.Config, inputs: seq<Input>, i: nat)
    requires New(config).Ok? && i <= |inputs|
    ensures Inv(New(config).value)
    ensures var s := States(New(config).value, inputs)[i];
            var d := s.deadlines;
            && (s.negotiated.Some? <==> s.state in {OpenConfirm, Established})
            && (!s.running ==> s.state == Idle && d == DISARMED)
            && (s.running && s.state == Idle ==> d.idle.Some?)
            && (s.state in {Connect, Active} ==> d.retry.Some?)
            && (s.state == OpenSent ==> d.hold.Some?)
            && (Exchanging(s) ==>
                  && (d.keepalive.Some? <==> d.hold.Some?)
                  && (d.hold.Some? <==> s.negotiated.value.holdTime != 0))
            && AllLater(d, s.lastTime)
            && s.config == config
  {
    NewInv(config);
    StatesInv(New(config).value, inputs, i);
  }

  // ---------- generations ----------

  /** How far a connection has come under its generation. */
  function Phase(s: Session): nat
  {
    match s.state case OpenSent => 1 case OpenConfirm => 2 case Established => 3 case _ => 0
  }

  function Connects(actions: seq<Action>): seq<nat>
  {
    if actions == [] then []
    else (if actions[0].DoConnect? then [actions[0].generation] else []) + Connects(actions[1..])
  }

  lemma {:induction false} ConnectsSplit(a: seq<Action>, b: seq<Action>)
    ensures Connects(a + b) == Connects(a) + Connects(b)
    ensures EorCount(a + b) == EorCount(a) + EorCount(b)
  {
    if a == [] {
      assert a + b == b;
    } else {
      assert (a + b)[1..] == a[1..] + b;
      ConnectsSplit(a[1..], b);
      var head := if a[0].DoConnect? then [a[0].generation] else [];
      assert head + (Connects(a[1..]) + Connects(b)) == (head + Connects(a[1..])) + Connects(b);
    }
  }

  /** End-of-RIB exports among the actions. */
  function EorCount(actions: seq<Action>): nat
  {
    if actions == [] then 0
    else (if actions[0].Export? && actions[0].endOfRib then 1 else 0) + EorCount(actions[1..])
  }

  /** Strictly increasing numbers above `lo`, none above `hi`. */
  predicate Rising(xs: seq<nat>, lo: nat, hi: nat)
  {
    if xs == [] then lo <= hi else lo < xs[0] <= hi && Rising(xs[1..], xs[0], hi)
  }

  lemma {:induction false} RisingSplit(a: seq<nat>, b: seq<nat>, lo: nat, mid: nat, hi: nat)
    requires Rising(a, lo, mid) && Rising(b, mid, hi)
    ensures Rising(a + b, lo, hi)
  {
    if a == [] {
      assert a + b == b;
      if b != [] { assert lo < b[0]; }
    } else {
      assert (a + b)[1..] == a[1..] + b;
      RisingSplit(a[1..], b, a[0], mid, hi);
      assert Rising(a + b, lo, hi);
    }
  }

  /** What one internal step does to the generation. */
  ghost predicate Moves(s: Session, r: Outcome)
  {
    r.Ok? ==>
      var t := r.value.session;
      && s.generation <= t.generation
      && (t.generation == s.generation ==>
            Phase(t) >= Phase(s) && (Phase(t) == 0 ==> t.state == s.state))
      && Rising(Connects(r.value.actions), s.generation, t.generation)
      && (EorCount(r.value.actions) > 0 ==>
            EorCount(r.value.actions) == 1 && Phase(s) == 2 && t.state == Established && t.generation == s.generation)
  }

  ghost predicate Quiet(r: Outcome)
  {
    r.Ok? ==> Connects(r.value.actions) == [] && EorCount(r.value.actions) == 0
  }

  lemma ResetMoves(s: Session, now: u64, cause: Option<Messages.Notification>)
    ensures Moves(s, Reset(s, now, cause)) && Quiet(Reset(s, now, cause))
  {
    if Reset(s, now, cause).Ok? {
      ConnectsSplit(Farewell(s, cause).value, [Close]);
    }
  }

  lemma DialMoves(s: Session, now: u64, entropy: u64)
    requires s.negotiated.None?
    ensures Moves(s, DialOrListen(s, now, entropy))
    ensures DialOrListen(s, now, entropy).Ok? ==> EorCount(DialOrListen(s, now, entropy).value.actions) == 0
  {
    if DialOrListen(s, now, entropy).Ok? && !s.config.passive {
      var g := DialOrListen(s, now, entropy).value.session.generation;
      assert Connects([DoConnect(g)]) == [g] + Connects([]);
    }
  }

  lemma RedialMoves(s: Session, now: u64, entropy: u64)
    requires Timed(s)
    ensures Moves(s, Redial(s, now, entropy))
    ensures Redial(s, now, entropy).Ok? ==> EorCount(Redial(s, now, entropy).value.actions) == 0
  {
    hide DialOrListen;
    if Due(s.deadlines.idle, now) {
      DialMoves(s, now, entropy);
    } else if Due(s.deadlines.retry, now) && s.state in {Connect, Active} {
      DialMoves(s, now, entropy);
      if DialOrListen(s, now, entropy).Ok? {
        ConnectsSplit([Close], DialOrListen(s, now, entropy).value.actions);
        assert Connects([Close]) == [] && EorCount([Close]) == 0;
        var dials := Connects(DialOrListen(s, now, entropy).value.actions);
        assert [] + dials == dials;
      }
    }
  }

  lemma BeatQuiet(s: Session, now: u64)
    requires Coherent(s)
    ensures Quiet(Beat(s, now))
    ensures Beat(s, now).Ok? ==> Beat(s, now).value.session.state == s.state
    ensures Beat(s, now).Ok? ==> Beat(s, now).value.session.generation == s.generation
  {
  }

  lemma ThenQuiet(s: Session, r1: Outcome, r2: Outcome)
    requires r1.Ok? && r2.Ok? && Moves(s, r1) && EorCount(r1.value.actions) == 0 && Quiet(r2)
    requires r2.value.session.state == r1.value.session.state
    requires r2.value.session.generation == r1.value.session.generation
    ensures var r := Ok(Step(r2.value.session, r1.value.actions + r2.value.actions));
            Moves(s, r) && EorCount(r.value.actions) == 0
  {
    ConnectsSplit(r1.value.actions, r2.value.actions);
    assert Connects(r1.value.actions) + [] == Connects(r1.value.actions);
  }

  lemma AdvanceMoves(s: Session, now: u64, entropy: u64)
    requires Timed(s)
    ensures Moves(s, Advance(s, now, entropy))
    ensures Advance(s, now, entropy).Ok? ==> EorCount(Advance(s, now, entropy).value.actions) == 0
  {
    hide Redial, Reset, Beat, Rising, Connects, EorCount;
    var r := Advance(s, now, entropy);
    if r.Ok? {
      var at := s.(lastTime := now);
      if Due(at.deadlines.hold, now) {
        ResetMoves(at, now, Some(Messages.Notification(4, 0, [])));
      } else {
        RedialMoves(at, now, entropy);
        var dialed := Redial(at, now, entropy);
        BeatQuiet(dialed.value.session, now);
        ThenQuiet(at, dialed, Beat(dialed.value.session, now));
      }
    }
  }

  lemma Single(a: Action)
    ensures Connects([a]) == (if a.DoConnect? then [a.generation] else [])
    ensures EorCount([a]) == (if a.Export? && a.endOfRib then 1 else 0)
  {
    assert [a][1..] == [];
  }

  lemma OpenMoves(s: Session, body: seq<byte>, now: u64)
    requires s.state == OpenSent
    ensures Moves(s, OnOpen(s, body, now))
  {
    hide OpenCodec.DecodeOpen, Negotiation.Negotiate, OpenRefusal, Reset, HoldAt, KeepaliveAt, Connects, EorCount;
    Single(Send(KKeepalive, []));
    forall cause ensures Moves(s, Reset(s, now, cause)) { ResetMoves(s, now, cause); }
  }

  lemma UpdateMoves(s: Session, body: seq<byte>, now: u64)
    requires Coherent(s) && s.state == Established
    ensures Moves(s, OnUpdate(s, body, now))
  {
    hide Update.Validate, Reset, HoldAt, Connects, EorCount;
    match Update.Validate(body, s.negotiated.value.fourOctetAsn)
    case Ok(summary) => Single(ObserveUpdate(summary));
    case Err(f) =>
      Single(DiscardUpdate(f.error));
      ResetMoves(s, now, Some(Messages.Notification(f.error.code, f.error.subcode, f.data)));
  }

  lemma FrameMoves(s: Session, frame: Frame, now: u64)
    requires Inv(s)
    ensures Moves(s, OnFrame(s, frame, now))
  {
    hide OnOpen, OnUpdate, Reset, Framing.Encode, HoldAt, Inv, Connects, EorCount;
    CoherentInv(s);
    forall cause ensures Moves(s, Reset(s, now, cause)) && Quiet(Reset(s, now, cause)) { ResetMoves(s, now, cause); }
    NoActions(s);
    if s.state == OpenSent { OpenMoves(s, frame.body, now); }
    if s.state == Established { UpdateMoves(s, frame.body, now); }
    if Exchanging(s) {
      Single(Export(s.negotiated.value.families, true));
      forall f ensures Connects([Export({f}, false)]) == [] && EorCount([Export({f}, false)]) == 0 {
        Single(Export({f}, false));
      }
    }
  }

  lemma NoActions(s: Session)
    ensures Connects([]) == [] && EorCount([]) == 0 && Rising([], s.generation, s.generation)
  {
  }

  lemma CoherentInv(s: Session)
    requires Inv(s)
    ensures Coherent(s)
  {
  }

  lemma ProcessMoves(s: Session, event: Event, now: u64, entropy: u64)
    requires Inv(s)
    ensures Moves(s, Process(s, event, now, entropy))
  {
    hide OnFrame, Reset, Inv, Connects, EorCount, DialOrListen, OpenCodec.EncodeOpen, RetryAt;
    CoherentInv(s);
    NoActions(s);
    match event
    case Start => if s.state == Idle { DialMoves(s.(running := true), now, entropy); }
    case AdminReset => ResetMoves(s, now, Some(Messages.Notification(6, 4, [])));
    case Shutdown =>
      ResetMoves(s.(running := false), now, None);
      ResetMoves(s.(running := false), now, Some(Messages.Notification(6, 2, [])));
    case TcpClosed(generation) => ResetMoves(s, now, None);
    case Message(generation, frame) => FrameMoves(s, frame, now);
    case TcpEstablished(generation, inbound) =>
      Single(DropConnection);
      if OpenCodec.EncodeOpen(s.config.local).Ok? { Single(Send(KOpen, OpenCodec.EncodeOpen(s.config.local).value)); }
    case TcpFailed(generation) =>
    case SoftResetOut => if s.state == Established { Single(Export(s.negotiated.value.families, false)); }
  }

  /** What one whole input does to the generation. */
  ghost predicate MovesInput(s: Session, t: Session, actions: seq<Action>)
  {
    && s.generation <= t.generation
    && (t.generation == s.generation ==>
          Phase(t) >= Phase(s) && (Phase(t) == 0 ==> t.state == s.state))
    && Rising(Connects(actions), s.generation, t.generation)
    && EorCount(actions) <= 1
    && (EorCount(actions) == 1 ==>
          t.state == Established && (t.generation == s.generation ==> Phase(s) < 3))
  }

  lemma MovesCompose(s: Session, r1: Outcome, r2: Outcome)
    requires r1.Ok? && r2.Ok? && Moves(s, r1) && EorCount(r1.value.actions) == 0 && Moves(r1.value.session, r2)
    ensures MovesInput(s, r2.value.session, r1.value.actions + r2.value.actions)
  {
    ConnectsSplit(r1.value.actions, r2.value.actions);
    RisingSplit(Connects(r1.value.actions), Connects(r2.value.actions),
                s.generation, r1.value.session.generation, r2.value.session.generation);
  }

  lemma InputMoves(s: Session, input: Input)
    requires Inv(s)
    ensures Timed(s) && MovesInput(s, After(s, input), Emitted(s, input))
  {
    hide Advance, Process, Reset, Framing.Decode, Inv;
    InvTimed(s);
    match input
    case PollAt(now, entropy) =>
      AdvanceMoves(s, now, entropy);
    case HandleAt(event, now, entropy) => HandleMoves(s, event, now, entropy);
    case ReceiveAt(generation, bytes, now, entropy) =>
      match Framing.Decode(bytes) {
        case Ok((frame, consumed)) => HandleMoves(s, Message(generation, frame), now, entropy);
        case Err(NeedMore) =>
        case Err(Protocol(e)) =>
          AdvanceMoves(s, now, entropy);
          if Advance(s, now, entropy).Ok? {
            var timed := Advance(s, now, entropy);
            var cause := Some(Messages.Notification(e.code, e.subcode, FramingData(bytes, e.subcode)));
            ResetMoves(timed.value.session, now, cause);
            if Reset(timed.value.session, now, cause).Ok? {
              MovesCompose(s, timed, Reset(timed.value.session, now, cause));
            }
          }
      }
  }

  lemma HandleMoves(s: Session, event: Event, now: u64, entropy: u64)
    requires Inv(s) && Timed(s)
    ensures Handle(s, event, now, entropy).Ok? ==>
              MovesInput(s, Handle(s, event, now, entropy).value.session, Handle(s, event, now, entropy).value.actions)
  {
    hide Advance, Process, Inv;
    if Handle(s, event, now, entropy).Ok? {
      AdvanceMoves(s, now, entropy);
      AdvanceGood(s, now, entropy);
      var timed := Advance(s, now, entropy);
      ProcessMoves(timed.value.session, event, now, entropy);
      MovesCompose(s, timed, Process(timed.value.session, event, now, entropy));
    }
  }

  /** Everything a run asks for, in order. */
  ghost function AllEmitted(s: Session, inputs: seq<Input>): seq<Action>
    requires Inv(s)
    decreases |inputs|
  {
    if inputs == [] then [] else
    AfterInv(s, inputs[0]);
    Emitted(s, inputs[0]) + AllEmitted(After(s, inputs[0]), inputs[1..])
  }

  /** Over every run the generation never falls, and the connection attempts it
      asks for carry fresh, strictly increasing generations. */
  lemma {:induction false} GenerationsRise(s: Session, inputs: seq<Input>)
    requires Inv(s)
    ensures Rising(Connects(AllEmitted(s, inputs)), s.generation, States(s, inputs)[|inputs|].generation)
    decreases |inputs|
  {
    hide Inv, After, Emitted;
    if inputs != [] {
      AfterInv(s, inputs[0]);
      InputMoves(s, inputs[0]);
      var t, rest := After(s, inputs[0]), inputs[1..];
      GenerationsRise(t, rest);
      ConnectsSplit(Emitted(s, inputs[0]), AllEmitted(t, rest));
      RisingSplit(Connects(Emitted(s, inputs[0])), Connects(AllEmitted(t, rest)),
                  s.generation, t.generation, States(t, rest)[|rest|].generation);
      assert States(s, inputs) == [s] + States(t, rest);
    }
  }

  /** Between two points of a run the generation does not fall, and under one
      generation a connection only moves forward: leaving it takes a new one. */
  lemma {:induction false} DepartureTakesGeneration(s: Session, inputs: seq<Input>, i: nat, j: nat)
    requires Inv(s) && i <= j <= |inputs|
    ensures var a, b := States(s, inputs)[i], States(s, inputs)[j];
            && a.generation <= b.generation
            && (a.generation == b.generation ==> Phase(a) <= Phase(b))
            && (a.generation == b.generation && Phase(b) == 0 ==> a.state == b.state)
    decreases j - i
  {
    hide Inv, After, Emitted;
    if i < j {
      DepartureTakesGeneration(s, inputs, i, j - 1);
      StatesInv(s, inputs, j - 1);
      InputMoves(States(s, inputs)[j - 1], inputs[j - 1]);
    }
  }

  /** The end-of-RIB export is asked for at most once per generation. */
  lemma OneEndOfRibPerGeneration(s: Session, inputs: seq<Input>, i: nat, j: nat)
    requires Inv(s) && i < j < |inputs|
    ensures Inv(States(s, inputs)[i]) && Timed(States(s, inputs)[i])
    ensures Inv(States(s, inputs)[j]) && Timed(States(s, inputs)[j])
    ensures EorCount(Emitted(States(s, inputs)[i], inputs[i])) <= 1
    ensures (&& EorCount(Emitted(States(s, inputs)[i], inputs[i])) == 1
             && EorCount(Emitted(States(s, inputs)[j], inputs[j])) == 1) ==>
              States(s, inputs)[i + 1].generation < States(s, inputs)[j + 1].generation
  {
    hide Inv, After, Emitted;
    StatesInv(s, inputs, i);
    StatesInv(s, inputs, j);
    InputMoves(States(s, inputs)[i], inputs[i]);
    InputMoves(States(s, inputs)[j], inputs[j]);
    DepartureTakesGeneration(s, inputs, i + 1, j);
    DepartureTakesGeneration(s, inputs, j, j + 1);
  }

  /** An event of another connection changes nothing beyond the timer step; a
      late connection is told to drop. */
  lemma StaleEventInert(s: Session, event: Event, now: u64, entropy: u64)
    requires Inv(s) && Timed(s) && Poll(s, now, entropy).Ok?
    requires event.TcpEstablished? || event.TcpFailed? || event.TcpClosed? || event.Message?
    requires event.generation != Poll(s, now, entropy).value.session.generation
    ensures var polled := Poll(s, now, entropy).value;
            Handle(s, event, now, entropy) ==
              Ok(Step(polled.session, polled.actions + (if event.TcpEstablished? then [DropConnection] else [])))
  {
  }

  /** The same for received bytes, however they frame. */
  lemma StaleBytesInert(s: Session, generation: u64, bytes: seq<byte>, now: u64, entropy: u64)
    requires Inv(s) && Timed(s) && Poll(s, now, entropy).Ok? && Framing.Decode(bytes) != Err(NeedMore)
    requires generation != Poll(s, now, entropy).value.session.generation
    ensures ReceiveOutcome(s, generation, bytes, now, entropy) == Ok(Poll(s, now, entropy).value)
  {
    hide Advance;
    var polled := Poll(s, now, entropy).value;
    match Framing.Decode(bytes)
    case Ok((frame, consumed)) =>
      StaleEventInert(s, Message(generation, frame), now, entropy);
      assert polled.actions + [] == polled.actions;
    case Err(Protocol(e)) =>
  }
}
