/** The agreement of two speakers is not empty: any two configurations that can
    negotiate reach Established on one connection, each end fed in two pieces. */
module Handshake {
  import opened Bytes
  import opened Framing
  import opened OpenCodec
  import opened Negotiation
  import opened SessionCore
  import opened Speakers

  /** An end that has dialed or listens, at time 0. */
  ghost predicate Started(e: End, c: Config)
  {
    var s := e.session;
    && e == End(s, None, map[], map[]) && s.config == c && s.running && s.generation == 1 && s.lastTime == 0
    && s.negotiated.None? && s.state == (if c.passive then Active else Connect)
    && s.deadlines.idle.None? && s.deadlines.hold.None? && s.deadlines.keepalive.None?
    && s.deadlines.retry.Some? && s.deadlines.retry.value > 0
  }

  lemma StartStep(c: Config, peer: map<nat, seq<byte>>)
    requires New(c).Ok?
    ensures Timed(New(c).value) && Started(MoveEnd(Fresh(New(c).value), peer, Admin(Start, 0, 0)), c)
  {
    hide EncodeOpen;
    var s := New(c).value;
    RetryDelayBounded(c.retryMs, 0);
    var quiet := Step(s, []);
    assert Advance(s, 0, 0) == Ok(quiet) by { QuietAdvance(s); }
    var step := DialOrListen(s.(running := true), 0, 0).value;
    assert Handle(s, Start, 0, 0) == Ok(Step(step.session, [] + step.actions));
    assert [] + step.actions == step.actions;
    StartActions(Fresh(s).(session := step.session), step.actions);
  }

  /** Dialing writes nothing. */
  lemma StartActions(e: End, actions: seq<Action>)
    requires e.current.None? && (actions == [] || (|actions| == 1 && actions[0].DoConnect?))
    ensures Perform(e, actions, None) == e
  {
    if actions != [] {
      assert actions[1..] == [];
      assert PerformOne(e, actions[0], None) == e;
    }
  }

  /** Nothing is due at time 0. */
  lemma QuietAdvance(s: Session)
    requires Timed(s) && s.lastTime == 0
    requires s.deadlines.hold.Some? ==> s.deadlines.hold.value > 0
    requires s.deadlines.idle.Some? ==> s.deadlines.idle.value > 0
    requires s.deadlines.retry.Some? ==> s.deadlines.retry.value > 0
    requires s.deadlines.keepalive.Some? ==> s.deadlines.keepalive.value > 0
    ensures Advance(s, 0, 0) == Ok(Step(s, []))
  {
    assert s.(lastTime := 0) == s;
    var none: seq<Action> := [];
    assert none + none == none;
  }

  /** An end that sent its OPEN on connection 0. */
  ghost predicate Opened(e: End, c: Config)
  {
    var s := e.session;
    && e == End(s, Some(Conn(0, 1)), map[0 := OpenFrame(c)], map[])
    && s.config == c && s.generation == 1 && s.lastTime == 0 && s.negotiated.None? && s.state == OpenSent
    && s.deadlines == DISARMED.(hold := Some(OPEN_HOLD_MS))
  }

  lemma EstablishStep(e: End, c: Config, peer: map<nat, seq<byte>>, inbound: bool)
    requires Started(e, c) && ConfigAccepted(c) && (if inbound then c.listen else !c.passive)
    ensures Timed(e.session) && Opened(MoveEnd(e, peer, Establish(0, 1, inbound, 0, 0)), c)
  {
    hide EncodeOpen, Framing.Encode, OpenFrame, FirstOpen;
    var s := e.session;
    QuietAdvance(s);
    OpenFrameOpens(c, []);
    var step := Accept(s, 0).value;
    assert Handle(s, TcpEstablished(1, inbound), 0, 0) == Ok(Step(step.session, [] + step.actions));
    assert [] + step.actions == step.actions;
    AttachAndOpen(e.(session := step.session), Conn(0, 1), c);
  }

  function KeepaliveFrame(): seq<byte> { Framing.Encode(KKeepalive, []).value }

  lemma KeepaliveEncodes(rest: seq<byte>)
    ensures Framing.Encode(KKeepalive, []).Ok? && |KeepaliveFrame()| == HEADER_LENGTH
    ensures Framing.Decode(KeepaliveFrame() + rest) == Ok((Frame(KKeepalive, []), HEADER_LENGTH))
  {
    EncodeDecode(KKeepalive, [], rest);
  }

  /** An end that took the peer's OPEN and answered with a KEEPALIVE. */
  ghost predicate Confirmed(e: End, c: Config, p: Config)
  {
    var s := e.session;
    && e == End(s, Some(Conn(0, 1)), map[0 := OpenFrame(c) + KeepaliveFrame()], map[0 := |OpenFrame(p)|])
    && s.config == c && s.generation == 1 && s.lastTime == 0 && s.state == OpenConfirm
    && s.negotiated.Some? && s.deadlines.idle.None? && s.deadlines.retry.None?
    && (s.deadlines.hold.Some? ==> s.deadlines.hold.value > 0)
    && (s.deadlines.keepalive.Some? ==> s.deadlines.keepalive.value > 0)
  }

  lemma OpenStep(e: End, c: Config, p: Config, peer: map<nat, seq<byte>>)
    requires Opened(e, c) && ConfigAccepted(c) && ConfigAccepted(p)
    requires Negotiate(c.local, p.local, c.peerAsn).Ok?
    requires 0 in peer && OpenFrame(p) <= peer[0]
    ensures Timed(e.session) && Confirmed(MoveEnd(e, peer, Deliver(|OpenFrame(p)|, 0, 0)), c, p)
  {
    hide EncodeOpen, Framing.Encode, Framing.Decode, OpenFrame, Negotiate, DecodeOpen, ConfigAccepted, FirstOpen;
    var s := e.session;
    var bytes := peer[0][0..|OpenFrame(p)|];
    assert bytes == OpenFrame(p);
    PeerOpens(p);
    var body := EncodeOpen(p.local).value;
    QuietAdvance(s);
    var n := Negotiate(c.local, p.local, c.peerAsn).value;
    var open := s.(negotiated := Some(n), state := OpenConfirm, deadlines := DISARMED);
    DelaysFit(open);
    var t := open.(deadlines := DISARMED.(hold := HoldAt(open, 0).value, keepalive := KeepaliveAt(open, 0).value));
    var said := [Send(KKeepalive, [])];
    assert OnFrame(s, Frame(KOpen, body), 0) == Ok(Step(t, said));
    assert Receive(s, 1, bytes, 0, 0) == Ok(Some(Received(Step(t, [] + said), |OpenFrame(p)|)));
    assert [] + said == said;
    KeepaliveEncodes([]);
    WriteOne(e.(session := t, read := map[0 := |OpenFrame(p)|]), said, OpenFrame(c));
  }

  lemma PeerOpens(p: Config)
    requires ConfigAccepted(p)
    ensures EncodeOpen(p.local).Ok? && DecodeOpen(EncodeOpen(p.local).value) == Ok(p.local)
    ensures Framing.Encode(KOpen, EncodeOpen(p.local).value).Ok?
    ensures Framing.Decode(OpenFrame(p)) == Ok((Frame(KOpen, EncodeOpen(p.local).value), |OpenFrame(p)|))
  {
    hide EncodeOpen, DecodeOpen, Framing.Decode, Framing.Encode;
    OpenRoundTrip(p.local);
    EncodeDecode(KOpen, EncodeOpen(p.local).value, []);
    assert OpenFrame(p) + [] == OpenFrame(p);
  }

  lemma DelaysFit(s: Session)
    requires s.negotiated.Some?
    ensures HoldAt(s, 0).Ok? && KeepaliveAt(s, 0).Ok?
    ensures HoldAt(s, 0).value.Some? ==> HoldAt(s, 0).value.value > 0
    ensures KeepaliveAt(s, 0).value.Some? ==> KeepaliveAt(s, 0).value.value > 0
  {
  }

  lemma WriteOne(e: End, said: seq<Action>, log: seq<byte>)
    requires said == [Send(KKeepalive, [])] && e.current == Some(Conn(0, 1)) && e.written == map[0 := log]
    requires Framing.Encode(KKeepalive, []).Ok?
    ensures Perform(e, said, None) == e.(written := map[0 := log + KeepaliveFrame()])
  {
    hide Framing.Encode;
    assert said[1..] == [];
    assert e.written[0 := log + KeepaliveFrame()] == map[0 := log + KeepaliveFrame()];
    assert PerformOne(e, said[0], None) == e.(written := map[0 := log + KeepaliveFrame()]);
  }

  lemma KeepaliveStep(e: End, c: Config, p: Config, peer: map<nat, seq<byte>>)
    requires Confirmed(e, c, p) && 0 in peer && peer[0] == OpenFrame(p) + KeepaliveFrame()
    ensures Timed(e.session)
    ensures var after := MoveEnd(e, peer, Deliver(|OpenFrame(p)| + HEADER_LENGTH, 0, 0));
            after.session.state == Established && after.current == e.current && after.written == e.written
  {
    hide Framing.Encode, Framing.Decode, OpenFrame;
    var s := e.session;
    KeepaliveEncodes([]);
    var from := |OpenFrame(p)|;
    var bytes := peer[0][from..from + HEADER_LENGTH];
    assert bytes == KeepaliveFrame() + [];
    QuietAdvance(s);
    var up := s.(state := Established);
    DelaysFit(up);
    var t := up.(deadlines := up.deadlines.(hold := HoldAt(up, 0).value));
    var said := [Export(s.negotiated.value.families, true)];
    assert OnFrame(s, Frame(KKeepalive, []), 0) == Ok(Step(t, said));
    assert [] + said == said;
    assert Receive(s, 1, bytes, 0, 0) == Ok(Some(Received(Step(t, said), HEADER_LENGTH)));
    var moved := e.(session := t, read := e.read[0 := from + HEADER_LENGTH]);
    assert said[1..] == [] && PerformOne(moved, said[0], None) == moved;
    assert Perform(moved, said, None) == moved;
    assert ReadSoFar(e, 0) == from && |Log(peer, 0)| == from + HEADER_LENGTH;
  }

  lemma PlayFirst(p: System, turn: Turn, rest: seq<Turn>)
    requires PairInv(p)
    ensures Timed(p.a.session) && Timed(p.b.session) && PairInv(Take(p, turn))
    ensures Play(p, [turn] + rest) == Play(Take(p, turn), rest)
  {
    hide PairInv, Take;
    TakeKeeps(p, turn);
    assert ([turn] + rest)[1..] == rest;
  }

  /** The turns of the handshake: start, connect, exchange OPENs, exchange KEEPALIVEs. */
  function Turns(a: Config, b: Config): seq<Turn>
  {
    [Turn(true, Admin(Start, 0, 0))] + ([Turn(false, Admin(Start, 0, 0))]
    + ([Turn(true, Establish(0, 1, false, 0, 0))] + ([Turn(false, Establish(0, 1, true, 0, 0))]
    + ([Turn(true, Deliver(|OpenFrame(b)|, 0, 0))] + ([Turn(false, Deliver(|OpenFrame(a)|, 0, 0))]
    + ([Turn(true, Deliver(|OpenFrame(b)| + HEADER_LENGTH, 0, 0))]
    + ([Turn(false, Deliver(|OpenFrame(a)| + HEADER_LENGTH, 0, 0))] + [])))))))
  }

  /** A speaker that dials and one that listens, each acceptable to the other,
      reach Established on one connection. */
  lemma HandshakeCompletes(a: Config, b: Config)
    requires New(a).Ok? && New(b).Ok? && !a.passive && b.listen
    requires Negotiate(a.local, b.local, a.peerAsn).Ok? && Negotiate(b.local, a.local, b.peerAsn).Ok?
    ensures PairInv(System(Fresh(New(a).value), Fresh(New(b).value)))
    ensures var p := Play(System(Fresh(New(a).value), Fresh(New(b).value)), Turns(a, b));
            OnOneConnection(p) && p.a.session.state == Established && p.b.session.state == Established
  {
    hide Play, PairInv, MoveEnd, OpenFrame, ConfigAccepted, Negotiate, Timed, KeepaliveFrame;
    FreshPair(a, b);
    var p0 := System(Fresh(New(a).value), Fresh(New(b).value));
    var t8: seq<Turn> := [];
    var t7 := [Turn(false, Deliver(|OpenFrame(a)| + HEADER_LENGTH, 0, 0))] + t8;
    var t6 := [Turn(true, Deliver(|OpenFrame(b)| + HEADER_LENGTH, 0, 0))] + t7;
    var t5 := [Turn(false, Deliver(|OpenFrame(a)|, 0, 0))] + t6;
    var t4 := [Turn(true, Deliver(|OpenFrame(b)|, 0, 0))] + t5;
    var t3 := [Turn(false, Establish(0, 1, true, 0, 0))] + t4;
    var t2 := [Turn(true, Establish(0, 1, false, 0, 0))] + t3;
    var t1 := [Turn(false, Admin(Start, 0, 0))] + t2;
    PlayFirst(p0, Turn(true, Admin(Start, 0, 0)), t1);
    StartStep(a, p0.b.written);
    var p1 := Take(p0, Turn(true, Admin(Start, 0, 0)));
    PlayFirst(p1, Turn(false, Admin(Start, 0, 0)), t2);
    StartStep(b, p1.a.written);
    var p2 := Take(p1, Turn(false, Admin(Start, 0, 0)));
    PlayFirst(p2, Turn(true, Establish(0, 1, false, 0, 0)), t3);
    EstablishStep(p2.a, a, p2.b.written, false);
    var p3 := Take(p2, Turn(true, Establish(0, 1, false, 0, 0)));
    PlayFirst(p3, Turn(false, Establish(0, 1, true, 0, 0)), t4);
    EstablishStep(p3.b, b, p3.a.written, true);
    var p4 := Take(p3, Turn(false, Establish(0, 1, true, 0, 0)));
    PlayFirst(p4, Turn(true, Deliver(|OpenFrame(b)|, 0, 0)), t5);
    OpenStep(p4.a, a, b, p4.b.written);
    var p5 := Take(p4, Turn(true, Deliver(|OpenFrame(b)|, 0, 0)));
    PlayFirst(p5, Turn(false, Deliver(|OpenFrame(a)|, 0, 0)), t6);
    OpenStep(p5.b, b, a, p5.a.written);
    var p6 := Take(p5, Turn(false, Deliver(|OpenFrame(a)|, 0, 0)));
    PlayFirst(p6, Turn(true, Deliver(|OpenFrame(b)| + HEADER_LENGTH, 0, 0)), t7);
    KeepaliveStep(p6.a, a, b, p6.b.written);
    var p7 := Take(p6, Turn(true, Deliver(|OpenFrame(b)| + HEADER_LENGTH, 0, 0)));
    PlayFirst(p7, Turn(false, Deliver(|OpenFrame(a)| + HEADER_LENGTH, 0, 0)), t8);
    KeepaliveStep(p7.b, b, a, p7.a.written);
    PlayNothing(Take(p7, Turn(false, Deliver(|OpenFrame(a)| + HEADER_LENGTH, 0, 0))));
  }

  lemma PlayNothing(p: System)
    requires PairInv(p)
    ensures Play(p, []) == p
  {
  }
}
