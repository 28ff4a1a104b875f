/** Two speakers joined by byte streams. Each end runs a session and a transport
    that carries out its actions in order and hands back whatever bytes have
    arrived, cut anywhere (crates/flowsdn-bgp-proto/src/session.rs:1-3). */
module Speakers {
  import opened Bytes
  import opened Framing
  import opened OpenCodec
  import opened Negotiation
  import opened SessionCore
  import opened SessionInvariants
  import Update
  import Messages

  /** A connection as one end knows it: a name both ends share and the session
      generation this end's callbacks carry. */
  datatype Conn = Conn(id: nat, generation: u64)

  /** One end: its session, the connection its transport serves, everything it
      ever wrote on each connection, and how much of the peer's it consumed. */
  datatype End = End(session: Session, current: Option<Conn>, written: map<nat, seq<byte>>, read: map<nat, nat>)

  datatype System = System(a: End, b: End)

  datatype Move =
    | Tick(now: u64, entropy: u64)
    | Admin(event: Event, now: u64, entropy: u64)
    | Establish(id: nat, generation: u64, inbound: bool, now: u64, entropy: u64)
    | Deliver(upTo: nat, now: u64, entropy: u64)
    | Lose(now: u64, entropy: u64)

  function Log(m: map<nat, seq<byte>>, id: nat): seq<byte> { if id in m then m[id] else [] }

  function ReadSoFar(e: End, id: nat): nat { if id in e.read then e.read[id] else 0 }

  // ---------- the transport ----------

  function Write(e: End, kind: Kind, body: seq<byte>): End
  {
    if e.current.None? || Framing.Encode(kind, body).Err? then e else
    var id := e.current.value.id;
    e.(written := e.written[id := Log(e.written, id) + Framing.Encode(kind, body).value])
  }

  /** One action; an OPEN goes out on the connection being established. */
  function PerformOne(e: End, action: Action, pending: Option<Conn>): End
  {
    match action
    case Close => e.(current := None)
    case Send(kind, body) =>
      Write(if kind == KOpen && pending.Some? then e.(current := pending) else e, kind, body)
    case _ => e
  }

  function Perform(e: End, actions: seq<Action>, pending: Option<Conn>): End
    decreases |actions|
  {
    if actions == [] then e else Perform(PerformOne(e, actions[0], pending), actions[1..], pending)
  }

  /** Events that do not belong to the served connection. */
  predicate IsAdmin(event: Event)
  {
    event.Start? || event.AdminReset? || event.SoftResetOut? || event.Shutdown? || event.TcpFailed?
  }

  function Follow(e: End, r: Outcome, pending: Option<Conn>): End
  {
    match r
    case Err(_) => e
    case Ok(step) => Perform(e.(session := step.session), step.actions, pending)
  }

  /** One move of an end; `peer` is everything the other end wrote. Moves that
      are not possible leave the end as it is. */
  function MoveEnd(e: End, peer: map<nat, seq<byte>>, move: Move): End
    requires Timed(e.session)
  {
    match move
    case Tick(now, entropy) => Follow(e, Poll(e.session, now, entropy), None)
    case Admin(event, now, entropy) =>
      if IsAdmin(event) then Follow(e, Handle(e.session, event, now, entropy), None) else e
    case Establish(id, generation, inbound, now, entropy) =>
      if id in e.written || id in e.read then e
      else Follow(e, Handle(e.session, TcpEstablished(generation, inbound), now, entropy), Some(Conn(id, generation)))
    case Deliver(upTo, now, entropy) =>
      if e.current.None? then e else
      var conn := e.current.value;
      var from := ReadSoFar(e, conn.id);
      if !(from <= upTo <= |Log(peer, conn.id)|) then e else
      (match Receive(e.session, conn.generation, Log(peer, conn.id)[from..upTo], now, entropy)
       case Err(_) => e
       case Ok(None) => e
       case Ok(Some(r)) =>
         Perform(e.(session := r.step.session, read := e.read[conn.id := from + r.consumed]), r.step.actions, None))
    case Lose(now, entropy) =>
      if e.current.None? then e
      else Follow(e, Handle(e.session, TcpClosed(e.current.value.generation), now, entropy), None).(current := None)
  }

  // ---------- what the actions of one input do to the connection ----------

  predicate HasClose(actions: seq<Action>) { exists i :: 0 <= i < |actions| && actions[i].Close? }

  predicate HasOpen(actions: seq<Action>)
  {
    exists i :: 0 <= i < |actions| && actions[i].Send? && actions[i].kind == KOpen
  }

  /** Logs only grow: everything written stays where it was. */
  ghost predicate Grown(before: map<nat, seq<byte>>, after: map<nat, seq<byte>>)
  {
    forall id :: id in before ==> id in after && before[id] <= after[id]
  }

  lemma HasSplit(a: seq<Action>, b: seq<Action>)
    ensures HasClose(a + b) <==> HasClose(a) || HasClose(b)
    ensures HasOpen(a + b) <==> HasOpen(a) || HasOpen(b)
  {
    forall i | 0 <= i < |a| ensures (a + b)[i] == a[i] {}
    forall i | 0 <= i < |b| ensures (a + b)[|a| + i] == b[i] {}
  }

  lemma HasHead(actions: seq<Action>)
    requires actions != []
    ensures HasClose(actions) <==> actions[0].Close? || HasClose(actions[1..])
    ensures HasOpen(actions) <==> (actions[0].Send? && actions[0].kind == KOpen) || HasOpen(actions[1..])
  {
    var head := [actions[0]];
    assert head[0] == actions[0];
    assert actions == head + actions[1..];
    HasSplit(head, actions[1..]);
  }

  lemma {:induction false} PerformQuiet(e: End, actions: seq<Action>, pending: Option<Conn>)
    requires !HasOpen(actions)
    requires e.current.Some? ==> e.current.value.id in e.written
    ensures var p := Perform(e, actions, pending);
            && p.session == e.session && p.read == e.read
            && p.current == (if HasClose(actions) then None else e.current)
            && p.written.Keys == e.written.Keys && Grown(e.written, p.written)
    decreases |actions|
  {
    if actions != [] {
      var q := PerformOne(e, actions[0], pending);
      var rest := actions[1..];
      HasHead(actions);
      PerformQuiet(q, rest, pending);
    }
  }

  lemma {:induction false} PerformSplit(e: End, a: seq<Action>, b: seq<Action>, pending: Option<Conn>)
    ensures Perform(e, a + b, pending) == Perform(Perform(e, a, pending), b, pending)
    decreases |a|
  {
    if a == [] {
      assert a + b == b;
    } else {
      assert (a + b)[1..] == a[1..] + b;
      PerformSplit(PerformOne(e, a[0], pending), a[1..], b, pending);
    }
  }

  /** A step that sends no OPEN, keeps a live connection under the same
      generation, and closes it with every other. */
  ghost predicate KeepsOrCloses(s: Session, step: Step)
  {
    var t := step.session;
    && !HasOpen(step.actions)
    && (Connected(s) && t.generation != s.generation ==> HasClose(step.actions))
    && (Connected(s) && t.generation == s.generation ==> !HasClose(step.actions) && Connected(t))
    && (!Connected(s) ==> !Connected(t))
  }

  /** Moreover it is none of the peer's business: the parameters stay. */
  ghost predicate Private(s: Session, step: Step)
  {
    && KeepsOrCloses(s, step)
    && (Connected(s) && step.session.generation == s.generation ==>
          step.session.state == s.state && step.session.negotiated == s.negotiated)
  }

  lemma ResetCloses(s: Session, now: u64, cause: Option<Messages.Notification>)
    ensures Reset(s, now, cause).Ok? ==>
              && Private(s, Reset(s, now, cause).value)
              && Reset(s, now, cause).value.session.generation == s.generation + 1
              && !Connected(Reset(s, now, cause).value.session)
              && HasClose(Reset(s, now, cause).value.actions)
              && (s.running ==> Reset(s, now, cause).value.session.deadlines.idle.Some?)
  {
    if Reset(s, now, cause).Ok? {
      var farewell := Farewell(s, cause).value;
      HasSplit(farewell, [Close]);
      assert [Close][0].Close?;
    }
  }

  lemma AdvancePrivate(s: Session, now: u64, entropy: u64)
    requires Inv(s) && Timed(s) && Advance(s, now, entropy).Ok?
    ensures Private(s, Advance(s, now, entropy).value)
    ensures Connected(s) && Advance(s, now, entropy).value.session.generation != s.generation ==>
              Advance(s, now, entropy).value.session.deadlines.idle.Some?
  {
    hide Reset, ConfigAccepted, KeepaliveAt;
    var at := s.(lastTime := now);
    if Due(at.deadlines.hold, now) {
      ResetCloses(at, now, Some(Messages.Notification(4, 0, [])));
    } else {
      var dialed := Redial(at, now, entropy).value;
      HasSplit(dialed.actions, Beat(dialed.session, now).value.actions);
    }
  }

  lemma PrivateCompose(s: Session, x: Step, y: Step)
    requires Private(s, x) && KeepsOrCloses(x.session, y)
    requires s.generation <= x.session.generation <= y.session.generation
    ensures KeepsOrCloses(s, Step(y.session, x.actions + y.actions))
    ensures Private(x.session, y) ==> Private(s, Step(y.session, x.actions + y.actions))
  {
    HasSplit(x.actions, y.actions);
  }

  lemma PollPrivate(s: Session, now: u64, entropy: u64)
    requires Inv(s) && Timed(s) && Poll(s, now, entropy).Ok?
    ensures Private(s, Poll(s, now, entropy).value)
  {
    AdvancePrivate(s, now, entropy);
  }

  lemma ProcessPrivate(s: Session, event: Event, now: u64, entropy: u64)
    requires Inv(s)
    requires IsAdmin(event) || (event.TcpEstablished? && RefusesConnection(s, event.generation, event.inbound))
    requires Process(s, event, now, entropy).Ok?
    ensures Private(s, Process(s, event, now, entropy).value)
  {
    hide Reset, ConfigAccepted, RetryAt, OnFrame;
    match event
    case AdminReset => ResetCloses(s, now, Some(Messages.Notification(6, 4, [])));
    case Shutdown =>
      ResetCloses(s.(running := false), now, None);
      ResetCloses(s.(running := false), now, Some(Messages.Notification(6, 2, [])));
    case _ =>
  }

  lemma AdminPrivate(s: Session, event: Event, now: u64, entropy: u64)
    requires Inv(s) && Timed(s) && Handle(s, event, now, entropy).Ok? && IsAdmin(event)
    ensures Private(s, Handle(s, event, now, entropy).value)
  {
    hide Advance, Process, Inv;
    AdvanceGood(s, now, entropy);
    var timed := Advance(s, now, entropy).value;
    AdvancePrivate(s, now, entropy);
    ProcessGood(timed.session, event, now, entropy);
    ProcessPrivate(timed.session, event, now, entropy);
    PrivateCompose(s, timed, Process(timed.session, event, now, entropy).value);
  }

  /** Establishing: refused and private, or accepted from a session without a
      connection, with the OPEN as the last action. */
  lemma EstablishFacts(s: Session, generation: u64, inbound: bool, now: u64, entropy: u64)
    requires Inv(s) && Timed(s) && Handle(s, TcpEstablished(generation, inbound), now, entropy).Ok?
    ensures var step := Handle(s, TcpEstablished(generation, inbound), now, entropy).value;
            || Private(s, step)
            || (&& !Connected(s) && step.session.state == OpenSent && step.session.generation == generation
                && step.actions != [] && !HasOpen(step.actions[..|step.actions| - 1])
                && EncodeOpen(s.config.local).Ok?
                && step.actions[|step.actions| - 1] == Send(KOpen, EncodeOpen(s.config.local).value))
  {
    hide Advance, Accept, ConfigAccepted;
    AdvanceGood(s, now, entropy);
    var timed := Advance(s, now, entropy).value;
    AdvancePrivate(s, now, entropy);
    var event := TcpEstablished(generation, inbound);
    ProcessGood(timed.session, event, now, entropy);
    if RefusesConnection(timed.session, generation, inbound) {
      ProcessPrivate(timed.session, event, now, entropy);
      PrivateCompose(s, timed, Process(timed.session, event, now, entropy).value);
    } else {
      AcceptFacts(timed.session, now);
      var open := Accept(timed.session, now).value;
      assert (timed.actions + open.actions)[..|timed.actions|] == timed.actions;
    }
  }

  lemma AcceptFacts(s: Session, now: u64)
    requires s.negotiated.None? && Accept(s, now).Ok?
    ensures EncodeOpen(s.config.local).Ok?
    ensures Accept(s, now).value.actions == [Send(KOpen, EncodeOpen(s.config.local).value)]
    ensures Accept(s, now).value.session.state == OpenSent
    ensures Accept(s, now).value.session.generation == s.generation
  {
  }

  /** The peer OPEN at the head of some bytes, and what it negotiates. */
  function FirstOpen(bytes: seq<byte>): Option<Open>
  {
    match Framing.Decode(bytes)
    case Ok((Frame(KOpen, body), _)) => (match DecodeOpen(body) case Ok(o) => Some(o) case Err(_) => None)
    case _ => None
  }

  ghost predicate AgreedWith(s: Session, bytes: seq<byte>)
  {
    && FirstOpen(bytes).Some?
    && Negotiate(s.config.local, FirstOpen(bytes).value, s.config.peerAsn).Ok?
    && s.negotiated == Some(Negotiate(s.config.local, FirstOpen(bytes).value, s.config.peerAsn).value)
  }

  /** A frame of the current connection: it closes it, leaves the parameters
      alone, or is the OPEN they come from. */
  lemma FrameFacts(s: Session, frame: Frame, now: u64)
    requires Inv(s) && Connected(s) && OnFrame(s, frame, now).Ok?
    ensures var step := OnFrame(s, frame, now).value;
            && KeepsOrCloses(s, step) && s.generation <= step.session.generation
            && (step.session.generation == s.generation ==> Exchanging(step.session))
            && (step.session.generation == s.generation && Exchanging(s) ==> step.session.negotiated == s.negotiated)
            && (step.session.generation == s.generation && s.state == OpenSent ==>
                  && frame.kind == KOpen && DecodeOpen(frame.body).Ok?
                  && Negotiate(s.config.local, DecodeOpen(frame.body).value, s.config.peerAsn).Ok?
                  && step.session.negotiated
                     == Some(Negotiate(s.config.local, DecodeOpen(frame.body).value, s.config.peerAsn).value))
  {
    hide Reset, ConfigAccepted, DecodeOpen, Negotiate, Update.Validate, Framing.Encode, OpenRefusal, HoldAt;
    hide KeepaliveAt;
    forall cause ensures Reset(s, now, cause).Ok? ==>
        && Private(s, Reset(s, now, cause).value)
        && Reset(s, now, cause).value.session.generation == s.generation + 1
    {
      ResetCloses(s, now, cause);
    }
  }

  /** Bytes of the served connection. */
  lemma ReceiveFacts(s: Session, bytes: seq<byte>, now: u64, entropy: u64)
    requires Inv(s) && Timed(s) && Connected(s)
    requires Receive(s, s.generation, bytes, now, entropy).Ok?
    requires Receive(s, s.generation, bytes, now, entropy).value.Some?
    ensures var r := Receive(s, s.generation, bytes, now, entropy).value.value;
            && KeepsOrCloses(s, r.step)
            && (r.step.session.generation == s.generation ==> Exchanging(r.step.session))
            && (r.step.session.generation == s.generation && Exchanging(s) ==>
                  r.step.session.negotiated == s.negotiated)
            && (r.step.session.generation == s.generation && s.state == OpenSent ==>
                  AgreedWith(r.step.session, bytes))
  {
    hide Advance, OnFrame, Reset, Inv, Framing.Decode, DecodeOpen, Negotiate;
    AdvanceGood(s, now, entropy);
    AdvancePrivate(s, now, entropy);
    var timed := Advance(s, now, entropy).value;
    match Framing.Decode(bytes)
    case Ok((frame, consumed)) =>
      if timed.session.generation == s.generation {
        FrameGood(timed.session, frame, now);
        FrameFacts(timed.session, frame, now);
        PrivateCompose(s, timed, OnFrame(timed.session, frame, now).value);
      } else {
        assert timed.actions + [] == timed.actions;
      }
    case Err(NeedMore) =>
    case Err(Protocol(e)) =>
      if timed.session.generation == s.generation {
        var cause := Some(Messages.Notification(e.code, e.subcode, FramingData(bytes, e.subcode)));
        ResetCloses(timed.session, now, cause);
        PrivateCompose(s, timed, Reset(timed.session, now, cause).value);
      }
  }

  /** The end of the connection sends no OPEN either. */
  lemma LoseQuiet(s: Session, generation: u64, now: u64, entropy: u64)
    requires Inv(s) && Timed(s) && Handle(s, TcpClosed(generation), now, entropy).Ok?
    ensures !HasOpen(Handle(s, TcpClosed(generation), now, entropy).value.actions)
  {
    hide Advance, Reset, Inv;
    AdvanceGood(s, now, entropy);
    AdvancePrivate(s, now, entropy);
    var timed := Advance(s, now, entropy).value;
    ResetCloses(timed.session, now, None);
    HasSplit(timed.actions, Process(timed.session, TcpClosed(generation), now, entropy).value.actions);
  }

  // ---------- the invariant of one end ----------

  /** The first thing an end writes on every connection. */
  function OpenFrame(config: Config): seq<byte>
  {
    match EncodeOpen(config.local)
    case Err(_) => []
    case Ok(body) => (match Framing.Encode(KOpen, body) case Err(_) => [] case Ok(frame) => frame)
  }

  lemma OpenFrameOpens(config: Config, rest: seq<byte>)
    requires ConfigAccepted(config)
    ensures FirstOpen(OpenFrame(config) + rest) == Some(config.local)
    ensures Framing.Encode(KOpen, EncodeOpen(config.local).value) == Ok(OpenFrame(config))
  {
    hide EncodeOpen, DecodeOpen, Framing.Encode, Framing.Decode;
    OpenRoundTrip(config.local);
    EncodeDecode(KOpen, EncodeOpen(config.local).value, rest);
  }

  lemma FirstOpenStable(bytes: seq<byte>, more: seq<byte>)
    requires FirstOpen(bytes).Some? && bytes <= more
    ensures FirstOpen(more) == FirstOpen(bytes)
  {
    hide DecodeOpen, Framing.Decode;
    DecodeStable(bytes, more[|bytes|..]);
    assert more == bytes + more[|bytes|..];
  }

  ghost predicate Introduced(config: Config, written: map<nat, seq<byte>>)
  {
    forall id :: id in written ==> OpenFrame(config) <= written[id]
  }

  /** What an end knows about the connection it serves. */
  ghost predicate Serving(s: Session, conn: Conn, read: nat, peerLog: seq<byte>)
  {
    && Connected(s) && s.generation == conn.generation && read <= |peerLog|
    && (s.state == OpenSent ==> read == 0)
    && (Exchanging(s) ==> AgreedWith(s, peerLog))
  }

  ghost predicate EndInv(e: End, peer: map<nat, seq<byte>>)
  {
    && Inv(e.session)
    && Introduced(e.session.config, e.written)
    && (e.current.Some? ==>
          && e.current.value.id in e.written
          && Serving(e.session, e.current.value, ReadSoFar(e, e.current.value.id), Log(peer, e.current.value.id)))
  }

  lemma PeerWrites(e: End, before: map<nat, seq<byte>>, after: map<nat, seq<byte>>)
    requires EndInv(e, before) && Grown(before, after)
    ensures EndInv(e, after)
  {
    hide Inv, FirstOpen, Negotiate;
    if e.current.Some? && Exchanging(e.session) {
      FirstOpenStable(Log(before, e.current.value.id), Log(after, e.current.value.id));
    }
  }

  lemma IntroducedGrows(config: Config, before: map<nat, seq<byte>>, after: map<nat, seq<byte>>)
    requires Introduced(config, before) && Grown(before, after) && after.Keys == before.Keys
    ensures Introduced(config, after)
  {
    hide OpenFrame;
    forall id | id in after ensures OpenFrame(config) <= after[id] {
      assert id in before.Keys;
    }
  }

  /** A private step of the session keeps the invariant. */
  lemma PrivateKeeps(e: End, peer: map<nat, seq<byte>>, step: Step, pending: Option<Conn>)
    requires EndInv(e, peer) && Private(e.session, step)
    requires Inv(step.session) && step.session.config == e.session.config
    ensures EndInv(Perform(e.(session := step.session), step.actions, pending), peer)
    ensures Grown(e.written, Perform(e.(session := step.session), step.actions, pending).written)
  {
    hide Inv, AgreedWith, Perform, OpenFrame;
    var moved := e.(session := step.session);
    PerformQuiet(moved, step.actions, pending);
    IntroducedGrows(e.session.config, e.written, Perform(moved, step.actions, pending).written);
    AgreementCarries(e.session, step.session);
  }

  lemma AgreementCarries(s: Session, t: Session)
    requires s.config == t.config
    ensures s.negotiated == t.negotiated ==> forall bytes :: AgreedWith(s, bytes) ==> AgreedWith(t, bytes)
  {
    hide Negotiate, FirstOpen;
  }

  /** A new connection taken over: the OPEN is its first frame. */
  lemma {:induction false} AcceptKeeps(e: End, peer: map<nat, seq<byte>>, step: Step, conn: Conn)
    requires EndInv(e, peer) && conn.id !in e.written && conn.id !in e.read
    requires Inv(step.session) && step.session.config == e.session.config
    requires !Connected(e.session) && step.session.state == OpenSent && step.session.generation == conn.generation
    requires step.actions != [] && !HasOpen(step.actions[..|step.actions| - 1])
    requires EncodeOpen(e.session.config.local).Ok?
    requires step.actions[|step.actions| - 1] == Send(KOpen, EncodeOpen(e.session.config.local).value)
    ensures EndInv(Perform(e.(session := step.session), step.actions, Some(conn)), peer)
    ensures Grown(e.written, Perform(e.(session := step.session), step.actions, Some(conn)).written)
  {
    hide Inv, AgreedWith, EncodeOpen, Framing.Encode, OpenFrame, ConfigAccepted, FirstOpen, Perform, HasOpen;
    var moved := e.(session := step.session);
    var before := step.actions[..|step.actions| - 1];
    var body := EncodeOpen(e.session.config.local).value;
    assert step.actions == before + [Send(KOpen, body)];
    PerformSplit(moved, before, [Send(KOpen, body)], Some(conn));
    PerformQuiet(moved, before, Some(conn));
    var q := Perform(moved, before, Some(conn));
    IntroducedGrows(e.session.config, e.written, q.written);
    assert ConfigAccepted(e.session.config) by { InvTimed(e.session); }
    OpenFrameOpens(e.session.config, []);
    assert conn.id !in q.written.Keys;
    AttachAndOpen(q, conn, e.session.config);
  }

  lemma AttachAndOpen(q: End, conn: Conn, config: Config)
    requires EncodeOpen(config.local).Ok? && conn.id !in q.written
    requires Framing.Encode(KOpen, EncodeOpen(config.local).value) == Ok(OpenFrame(config))
    ensures Perform(q, [Send(KOpen, EncodeOpen(config.local).value)], Some(conn))
            == q.(current := Some(conn), written := q.written[conn.id := OpenFrame(config)])
  {
    hide EncodeOpen, Framing.Encode, OpenFrame;
    var action := Send(KOpen, EncodeOpen(config.local).value);
    var t := PerformOne(q, action, Some(conn));
    assert [action][1..] == [];
    assert Perform(q, [action], Some(conn)) == Perform(t, [], Some(conn));
    assert [] + OpenFrame(config) == OpenFrame(config);
  }

  /** Bytes handed over. */
  lemma DeliverKeeps(e: End, peer: map<nat, seq<byte>>, upTo: nat, now: u64, entropy: u64)
    requires EndInv(e, peer) && Timed(e.session)
    ensures EndInv(MoveEnd(e, peer, Deliver(upTo, now, entropy)), peer)
    ensures Grown(e.written, MoveEnd(e, peer, Deliver(upTo, now, entropy)).written)
  {
    hide Inv, Receive, AgreedWith, OpenFrame, KeepsOrCloses, Perform, Framing.Decode, Introduced;
    if e.current.Some? {
      var conn := e.current.value;
      var from := ReadSoFar(e, conn.id);
      var log := Log(peer, conn.id);
      if from <= upTo <= |log| {
        var bytes := log[from..upTo];
        var outcome := Receive(e.session, conn.generation, bytes, now, entropy);
        if outcome.Ok? && outcome.value.Some? {
          var r := outcome.value.value;
          ReceiveGood(e.session, conn.generation, bytes, now, entropy);
          ReceiveFacts(e.session, bytes, now, entropy);
          ReceivedKeeps(e, peer, from, bytes, r);
        }
      }
    }
  }

  lemma ReceivedKeeps(e: End, peer: map<nat, seq<byte>>, from: nat, bytes: seq<byte>, r: Received)
    requires EndInv(e, peer) && e.current.Some? && from == ReadSoFar(e, e.current.value.id)
    requires from + |bytes| <= |Log(peer, e.current.value.id)|
    requires bytes == Log(peer, e.current.value.id)[from..from + |bytes|] && r.consumed <= |bytes|
    requires Inv(r.step.session) && r.step.session.config == e.session.config
    requires KeepsOrCloses(e.session, r.step)
    requires r.step.session.generation == e.session.generation ==>
               && Exchanging(r.step.session)
               && (Exchanging(e.session) ==> r.step.session.negotiated == e.session.negotiated)
               && (e.session.state == OpenSent ==> AgreedWith(r.step.session, bytes))
    ensures var id := e.current.value.id;
            var moved := e.(session := r.step.session, read := e.read[id := from + r.consumed]);
            && EndInv(Perform(moved, r.step.actions, None), peer)
            && Grown(e.written, Perform(moved, r.step.actions, None).written)
  {
    hide Inv, AgreedWith, OpenFrame, Perform;
    var id := e.current.value.id;
    var moved := e.(session := r.step.session, read := e.read[id := from + r.consumed]);
    PerformQuiet(moved, r.step.actions, None);
    IntroducedGrows(e.session.config, e.written, Perform(moved, r.step.actions, None).written);
    AgreementCarries(e.session, r.step.session);
    if r.step.session.generation == e.session.generation && e.session.state == OpenSent {
      AgreementGrows(r.step.session, bytes, Log(peer, id));
    }
  }

  lemma AgreementGrows(s: Session, bytes: seq<byte>, more: seq<byte>)
    requires AgreedWith(s, bytes) && bytes <= more
    ensures AgreedWith(s, more)
  {
    hide FirstOpen, Negotiate;
    FirstOpenStable(bytes, more);
  }

  lemma MoveKeeps(e: End, peer: map<nat, seq<byte>>, move: Move)
    requires EndInv(e, peer)
    ensures Timed(e.session)
    ensures EndInv(MoveEnd(e, peer, move), peer)
    ensures Grown(e.written, MoveEnd(e, peer, move).written)
  {
    hide Inv, Poll, Handle, Receive, AgreedWith, OpenFrame, Perform, Private, EncodeOpen, HasOpen;
    InvTimed(e.session);
    match move
    case Tick(now, entropy) =>
      PollGood(e.session, now, entropy);
      var r := Poll(e.session, now, entropy);
      if r.Ok? {
        PollPrivate(e.session, now, entropy);
        PrivateKeeps(e, peer, r.value, None);
      }
    case Admin(event, now, entropy) =>
      HandleGood(e.session, event, now, entropy);
      var r := Handle(e.session, event, now, entropy);
      if r.Ok? && IsAdmin(event) {
        AdminPrivate(e.session, event, now, entropy);
        PrivateKeeps(e, peer, r.value, None);
      }
    case Establish(id, generation, inbound, now, entropy) =>
      HandleGood(e.session, TcpEstablished(generation, inbound), now, entropy);
      var r := Handle(e.session, TcpEstablished(generation, inbound), now, entropy);
      if r.Ok? && id !in e.written && id !in e.read {
        EstablishFacts(e.session, generation, inbound, now, entropy);
        if Private(e.session, r.value) {
          PrivateKeeps(e, peer, r.value, Some(Conn(id, generation)));
        } else {
          AcceptKeeps(e, peer, r.value, Conn(id, generation));
        }
      }
    case Deliver(upTo, now, entropy) => DeliverKeeps(e, peer, upTo, now, entropy);
    case Lose(now, entropy) => LoseKeeps(e, peer, now, entropy);
  }

  lemma LoseKeeps(e: End, peer: map<nat, seq<byte>>, now: u64, entropy: u64)
    requires EndInv(e, peer) && Timed(e.session)
    ensures EndInv(MoveEnd(e, peer, Lose(now, entropy)), peer)
    ensures Grown(e.written, MoveEnd(e, peer, Lose(now, entropy)).written)
  {
    hide Inv, Handle, AgreedWith, OpenFrame, Perform;
    if e.current.Some? {
      var event := TcpClosed(e.current.value.generation);
      HandleGood(e.session, event, now, entropy);
      var r := Handle(e.session, event, now, entropy);
      if r.Ok? {
        LoseQuiet(e.session, e.current.value.generation, now, entropy);
        PerformQuiet(e.(session := r.value.session), r.value.actions, None);
        var done := Perform(e.(session := r.value.session), r.value.actions, None);
        IntroducedGrows(e.session.config, e.written, done.written);
      }
    }
  }

  // ---------- runs of the pair ----------

  datatype Turn = Turn(byA: bool, move: Move)

  ghost predicate PairInv(p: System)
  {
    EndInv(p.a, p.b.written) && EndInv(p.b, p.a.written)
  }

  ghost function Take(p: System, turn: Turn): System
    requires Timed(p.a.session) && Timed(p.b.session)
  {
    if turn.byA then p.(a := MoveEnd(p.a, p.b.written, turn.move)) else p.(b := MoveEnd(p.b, p.a.written, turn.move))
  }

  lemma TakeKeeps(p: System, turn: Turn)
    requires PairInv(p)
    ensures Timed(p.a.session) && Timed(p.b.session)
    ensures PairInv(Take(p, turn))
  {
    hide EndInv, MoveEnd;
    MoveKeeps(p.a, p.b.written, turn.move);
    MoveKeeps(p.b, p.a.written, turn.move);
    var q := Take(p, turn);
    if turn.byA { PeerWrites(p.b, p.a.written, q.a.written); } else { PeerWrites(p.a, p.b.written, q.b.written); }
  }

  /** The states of the pair after any turns, from two new sessions. */
  ghost function Play(p: System, turns: seq<Turn>): (q: System)
    requires PairInv(p)
    ensures PairInv(q)
    decreases |turns|
  {
    if turns == [] then p else
    TakeKeeps(p, turns[0]);
    Play(Take(p, turns[0]), turns[1..])
  }

  ghost function Fresh(session: Session): End { End(session, None, map[], map[]) }

  lemma FreshPair(a: Config, b: Config)
    requires New(a).Ok? && New(b).Ok?
    ensures PairInv(System(Fresh(New(a).value), Fresh(New(b).value)))
  {
    NewInv(a);
    NewInv(b);
  }

  ghost predicate OnOneConnection(p: System)
  {
    && p.a.current.Some? && p.b.current.Some?
    && p.a.current.value.id == p.b.current.value.id
    && Exchanging(p.a.session) && Exchanging(p.b.session)
  }

  /** Each end negotiated with the other's own OPEN. */
  lemma EndMetPeer(e: End, peer: End)
    requires EndInv(e, peer.written) && EndInv(peer, e.written)
    requires e.current.Some? && e.current.value.id in peer.written && Exchanging(e.session)
    ensures var n := Negotiate(e.session.config.local, peer.session.config.local, e.session.config.peerAsn);
            n.Ok? && e.session.negotiated == Some(n.value)
  {
    hide Inv, Negotiate, FirstOpen, OpenFrame;
    var log := peer.written[e.current.value.id];
    var hello := OpenFrame(peer.session.config);
    InvTimed(peer.session);
    OpenFrameOpens(peer.session.config, log[|hello|..]);
    assert log == hello + log[|hello|..];
  }

  lemma {:induction false} PerformSession(e: End, actions: seq<Action>, pending: Option<Conn>)
    ensures Perform(e, actions, pending).session == e.session
    decreases |actions|
  {
    if actions != [] { PerformSession(PerformOne(e, actions[0], pending), actions[1..], pending); }
  }

  lemma FollowConfig(e: End, r: Outcome, pending: Option<Conn>)
    requires r.Ok? ==> r.value.session.config == e.session.config
    ensures Follow(e, r, pending).session.config == e.session.config
  {
    hide Perform;
    if r.Ok? { PerformSession(e.(session := r.value.session), r.value.actions, pending); }
  }

  lemma MoveConfig(e: End, peer: map<nat, seq<byte>>, move: Move)
    requires EndInv(e, peer)
    ensures Timed(e.session) && MoveEnd(e, peer, move).session.config == e.session.config
  {
    hide Inv, Poll, Handle, Receive, AgreedWith, OpenFrame, Perform, Follow;
    InvTimed(e.session);
    match move
    case Tick(now, entropy) =>
      PollGood(e.session, now, entropy);
      FollowConfig(e, Poll(e.session, now, entropy), None);
    case Admin(event, now, entropy) =>
      HandleGood(e.session, event, now, entropy);
      FollowConfig(e, Handle(e.session, event, now, entropy), None);
    case Establish(id, generation, inbound, now, entropy) =>
      var event := TcpEstablished(generation, inbound);
      HandleGood(e.session, event, now, entropy);
      FollowConfig(e, Handle(e.session, event, now, entropy), Some(Conn(id, generation)));
    case Deliver(upTo, now, entropy) => DeliverConfig(e, peer, upTo, now, entropy);
    case Lose(now, entropy) =>
      if e.current.Some? {
        var event := TcpClosed(e.current.value.generation);
        HandleGood(e.session, event, now, entropy);
        FollowConfig(e, Handle(e.session, event, now, entropy), None);
      }
  }

  lemma DeliverConfig(e: End, peer: map<nat, seq<byte>>, upTo: nat, now: u64, entropy: u64)
    requires EndInv(e, peer) && Timed(e.session)
    ensures MoveEnd(e, peer, Deliver(upTo, now, entropy)).session.config == e.session.config
  {
    hide Inv, Receive, AgreedWith, OpenFrame, Perform;
    if e.current.Some? {
      var conn := e.current.value;
      var from := ReadSoFar(e, conn.id);
      if from <= upTo <= |Log(peer, conn.id)| {
        var bytes := Log(peer, conn.id)[from..upTo];
        ReceiveGood(e.session, conn.generation, bytes, now, entropy);
        var r := Receive(e.session, conn.generation, bytes, now, entropy);
        if r.Ok? && r.value.Some? {
          var got := r.value.value;
          var at := e.(session := got.step.session, read := e.read[conn.id := from + got.consumed]);
          PerformSession(at, got.step.actions, None);
        }
      }
    }
  }

  /** Configurations do not change. */
  lemma {:induction false} PlayConfig(p: System, turns: seq<Turn>)
    requires PairInv(p)
    ensures Play(p, turns).a.session.config == p.a.session.config
    ensures Play(p, turns).b.session.config == p.b.session.config
    decreases |turns|
  {
    hide EndInv, MoveEnd;
    if turns != [] {
      TakeKeeps(p, turns[0]);
      MoveConfig(p.a, p.b.written, turns[0].move);
      MoveConfig(p.b, p.a.written, turns[0].move);
      PlayConfig(Take(p, turns[0]), turns[1..]);
    }
  }

  /** What two configured OPENs come to. */
  ghost predicate Terms(n: Negotiated, a: Open, b: Open)
  {
    && n.holdTime == Min(a.holdTime, b.holdTime)
    && (forall f :: f in n.families <==> Speaks(a, f) && Speaks(b, f))
    && (n.fourOctetAsn <==> HasCode(a.capabilities, 65) && HasCode(b.capabilities, 65))
    && (n.routeRefresh <==> HasCode(a.capabilities, 2) && HasCode(b.capabilities, 2))
  }

  /** Whenever both ends of one connection exchange messages, after any turns of
      either with any cutting of the byte streams, they agree on everything
      negotiated, and it is what the two configurations come to. */
  lemma BothEndsAgree(a: Config, b: Config, turns: seq<Turn>)
    requires New(a).Ok? && New(b).Ok?
    ensures PairInv(System(Fresh(New(a).value), Fresh(New(b).value)))
    ensures var p := Play(System(Fresh(New(a).value), Fresh(New(b).value)), turns);
            OnOneConnection(p) ==>
              && p.a.session.negotiated.Some? && p.b.session.negotiated.Some?
              && Agree(p.a.session.negotiated.value, p.b.session.negotiated.value)
              && Terms(p.a.session.negotiated.value, a.local, b.local)
  {
    hide Inv, EndInv, Play, Take, Terms, ConfigAccepted;
    FreshPair(a, b);
    PlayConfig(System(Fresh(New(a).value), Fresh(New(b).value)), turns);
    var p := Play(System(Fresh(New(a).value), Fresh(New(b).value)), turns);
    if OnOneConnection(p) { PairAgrees(p); }
  }

  lemma PairAgrees(p: System)
    requires PairInv(p) && OnOneConnection(p)
    ensures p.a.session.negotiated.Some? && p.b.session.negotiated.Some?
    ensures Agree(p.a.session.negotiated.value, p.b.session.negotiated.value)
    ensures Terms(p.a.session.negotiated.value, p.a.session.config.local, p.b.session.config.local)
  {
    hide Inv, Families, Negotiate, Agree, OpenFrame, FirstOpen, Speaks, HasCode;
    EndMetPeer(p.a, p.b);
    EndMetPeer(p.b, p.a);
    NegotiationSymmetric(p.a.session.config.local, p.b.session.config.local,
                         p.a.session.config.peerAsn, p.b.session.config.peerAsn);
    NegotiatedExactly(p.a.session.config.local, p.b.session.config.local, p.a.session.config.peerAsn);
  }
}
