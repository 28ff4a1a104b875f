/** What a session asks of its surroundings: which updates it passes on, which
    exports it asks for, which connections it takes up, and how this adds up over
    runs (crates/flowsdn-bgp-proto/src/session.rs:303-641). */
module SessionReactions {
  import opened Bytes
  import opened Framing
  import OpenCodec
  import Negotiation
  import Messages
  import Update
  import opened SessionCore
  import opened SessionInvariants
  import opened SessionRuns
  import opened SessionHold

  // ---------- reports ----------

  predicate IsReport(a: Action) { a.ObserveUpdate? || a.DiscardUpdate? || a.Export? }

  /** The updates passed on or discarded and the exports asked for, in order. */
  function Reports(actions: seq<Action>): seq<Action>
  {
    if actions == [] then []
    else (if IsReport(actions[0]) then [actions[0]] else []) + Reports(actions[1..])
  }

  lemma {:induction false} ReportsSplit(a: seq<Action>, b: seq<Action>)
    ensures Reports(a + b) == Reports(a) + Reports(b)
  {
    hide IsReport;
    if a == [] {
      assert a + b == b;
    } else {
      assert (a + b)[1..] == a[1..] + b;
      ReportsSplit(a[1..], b);
      var head := if IsReport(a[0]) then [a[0]] else [];
      assert head + (Reports(a[1..]) + Reports(b)) == (head + Reports(a[1..])) + Reports(b);
    }
  }

  lemma ReportsOne(a: Action)
    ensures Reports([a]) == if IsReport(a) then [a] else []
  {
    assert [a][1..] == [];
  }

  lemma ReportsNone()
    ensures Reports([]) == []
  {
  }

  /** A ROUTE-REFRESH body that asks for the family. */
  predicate AsksFor(body: seq<byte>, f: Negotiation.Family)
  {
    |body| == 4 && 256 * body[0] as int + body[1] as int == f.afi && body[3] == f.safi
  }

  /** What a message on a live connection calls for. An UPDATE in order is passed
      on; one that is sound as a whole but wrong in content is discarded under the
      lenient policy; a refresh of a negotiated family exports that family; the
      KEEPALIVE that completes the handshake exports everything, with the marker
      that ends the initial exchange. */
  ghost predicate Calls(s: Session, frame: Frame, reports: seq<Action>)
    requires s.negotiated.Some?
  {
    var n := s.negotiated.value;
    if s.state == Established && frame.kind == KUpdate then
      match Update.Validate(frame.body, n.fourOctetAsn)
      case Ok(summary) => reports == [ObserveUpdate(summary)]
      case Err(f) =>
        if !s.config.strictUpdateErrors && |frame.body| <= MAX_BODY && Update.Structured(frame.body)
        then reports == [DiscardUpdate(f.error)] else reports == []
    else if s.state == Established && frame.kind == KRouteRefresh then
      && (forall f :: AsksFor(frame.body, f) && f in n.families && Negotiation.FamilyValid(f) ==>
            reports == [Export({f}, false)])
      && ((forall f :: AsksFor(frame.body, f) && Negotiation.FamilyValid(f) ==> f !in n.families) ==> reports == [])
    else if s.state == OpenConfirm && frame.kind == KKeepalive && frame.body == [] then
      reports == [Export(n.families, true)]
    else reports == []
  }

  /** A connection that the clock does not end. */
  predicate Lives(s: Session, now: u64) { Connected(s) && !Due(s.deadlines.hold, now) }

  /** What an input calls for: only messages of the live connection and a soft
      reset of an established session call for anything. */
  ghost predicate Owed(s: Session, input: Input, reports: seq<Action>)
    requires Timed(s)
  {
    if Apply(s, input).Err? || !Lives(s, At(input)) || !Exchanging(s) then reports == []
    else if Delivered(input).Some? then
      if Delivered(input).value.0 == s.generation then Calls(s, Delivered(input).value.1, reports) else reports == []
    else if input.HandleAt? && input.event.SoftResetOut? && s.state == Established then
      reports == [Export(s.negotiated.value.families, false)]
    else reports == []
  }

  lemma ResetReports(s: Session, now: u64, cause: Option<Messages.Notification>)
    ensures Reset(s, now, cause).Ok? ==> Reports(Reset(s, now, cause).value.actions) == []
  {
    hide Farewell, Disposition;
    if Reset(s, now, cause).Ok? {
      FarewellCode(s, cause);
      var farewell := Farewell(s, cause).value;
      ReportsSplit(farewell, [Close]);
      ReportsOne(Close);
      ReportsNone();
      if farewell != [] { ReportsOne(farewell[0]); }
    }
  }

  lemma AdvanceReports(s: Session, now: u64, entropy: u64)
    requires Timed(s)
    ensures Advance(s, now, entropy).Ok? ==> Reports(Advance(s, now, entropy).value.actions) == []
  {
    hide Reset, RetryAt, KeepaliveAt, Reports;
    ResetReports(s.(lastTime := now), now, Some(Messages.Notification(4, 0, [])));
    var at := s.(lastTime := now);
    ReportsNone();
    ReportsOne(Close);
    ReportsOne(Send(KKeepalive, []));
    forall g ensures Reports([DoConnect(g)]) == [] && Reports([Close] + [DoConnect(g)]) == [] {
      ReportsOne(DoConnect(g));
      ReportsSplit([Close], [DoConnect(g)]);
    }
    ReportsSplit([Close], []);
    if Advance(s, now, entropy).Ok? && !Due(at.deadlines.hold, now) {
      var dialed := Redial(at, now, entropy).value;
      ReportsSplit(dialed.actions, Beat(dialed.session, now).value.actions);
    }
  }

  lemma UpdateReports(s: Session, body: seq<byte>, now: u64)
    requires Coherent(s) && s.state == Established
    ensures OnUpdate(s, body, now).Ok? ==> Calls(s, Frame(KUpdate, body), Reports(OnUpdate(s, body, now).value.actions))
  {
    hide Reset, Update.Validate, HoldAt, Reports, Update.Structured;
    var four := s.negotiated.value.fourOctetAsn;
    match Update.Validate(body, four)
    case Ok(summary) => ReportsOne(ObserveUpdate(summary));
    case Err(f) =>
      ReportsOne(DiscardUpdate(f.error));
      ResetReports(s, now, Some(Messages.Notification(f.error.code, f.error.subcode, f.data)));
      Update.LenientDiscardsOnlyStructured(body, four);
      Update.ErrorCodes(body, four);
      if |body| <= MAX_BODY { Update.StructuralExactly(body, four); }
      Update.ErrorScopes(body, four);
  }

  lemma RefreshReports(s: Session, body: seq<byte>)
    requires Coherent(s) && s.state == Established
    ensures Calls(s, Frame(KRouteRefresh, body), Reports(OnRefresh(s, body).actions))
  {
    hide Reports;
    ReportsNone();
    if |body| == 4 {
      assert body[..2] == [body[0], body[1]];
      var asked := Negotiation.Family(U16Of(body[..2]), body[3]);
      assert AsksFor(body, asked) && forall f :: AsksFor(body, f) ==> f == asked;
      ReportsOne(Export({asked}, false));
    }
  }

  lemma FrameReports(s: Session, frame: Frame, now: u64)
    requires Coherent(s) && Exchanging(s)
    ensures OnFrame(s, frame, now).Ok? ==> Calls(s, frame, Reports(OnFrame(s, frame, now).value.actions))
  {
    hide Reset, OnUpdate, OnRefresh, HoldAt, Reports, Messages.DecodeNotification, Update.Validate, Update.Structured;
    hide Framing.Encode, AsksFor;
    EncodeDecode(frame.kind, frame.body, []);
    ReportsNone();
    ReportsOne(Export(s.negotiated.value.families, true));
    forall cause ensures Reset(s, now, cause).Ok? ==> Reports(Reset(s, now, cause).value.actions) == [] {
      ResetReports(s, now, cause);
    }
    assert frame == Frame(frame.kind, frame.body);
    if s.state == Established {
      UpdateReports(s, frame.body, now);
      RefreshReports(s, frame.body);
      if frame.kind == KUpdate && Framing.Encode(KUpdate, frame.body).Err? {
        BadUpdate(frame.body, s.negotiated.value.fourOctetAsn);
      }
      if frame.kind == KRouteRefresh && |frame.body| != 4 { NotAsked(frame.body); }
    }
  }

  lemma NotAsked(body: seq<byte>)
    requires |body| != 4
    ensures forall f :: !AsksFor(body, f)
  {
  }

  /** An UPDATE body that fits no frame is neither in order nor sound. */
  lemma BadUpdate(body: seq<byte>, four: bool)
    requires Framing.Encode(KUpdate, body).Err?
    ensures Update.Validate(body, four).Err? && (|body| > MAX_BODY || !Update.Structured(body))
  {
    EncodeDecode(KUpdate, body, []);
    if |body| <= MAX_BODY {
      Update.StructureParses(body);
    }
  }

  lemma ProcessReports(s: Session, event: Event, now: u64, entropy: u64)
    requires Inv(s) && Coherent(s)
    ensures Process(s, event, now, entropy).Ok? ==>
              var r := Reports(Process(s, event, now, entropy).value.actions);
              if !Exchanging(s) then r == []
              else if event.Message? then
                (if event.generation == s.generation then Calls(s, event.frame, r) else r == [])
              else if event.SoftResetOut? && s.state == Established then
                r == [Export(s.negotiated.value.families, false)]
              else r == []
  {
    hide Reset, OnFrame, Calls, OpenCodec.EncodeOpen, RetryAt, Reports, ConfigAccepted;
    ReportsNone();
    ReportsOne(DropConnection);
    forall g ensures Reports([DoConnect(g)]) == [] { ReportsOne(DoConnect(g)); }
    forall body ensures Reports([Send(KOpen, body)]) == [] { ReportsOne(Send(KOpen, body)); }
    forall t: Session, cause ensures Reset(t, now, cause).Ok? ==> Reports(Reset(t, now, cause).value.actions) == [] {
      ResetReports(t, now, cause);
    }
    if event.Message? {
      if Exchanging(s) { FrameReports(s, event.frame, now); } else { EarlyReports(s, event.frame, now); }
    }
    if Exchanging(s) { ReportsOne(Export(s.negotiated.value.families, false)); }
  }

  lemma EarlyReports(s: Session, frame: Frame, now: u64)
    requires Coherent(s) && !Exchanging(s)
    ensures OnFrame(s, frame, now).Ok? ==> Reports(OnFrame(s, frame, now).value.actions) == []
  {
    hide Reset, OpenCodec.DecodeOpen, Negotiation.Negotiate, OpenRefusal, HoldAt, KeepaliveAt, Reports;
    hide Messages.DecodeNotification, Framing.Encode;
    ReportsNone();
    ReportsOne(Send(KKeepalive, []));
    forall cause ensures Reset(s, now, cause).Ok? ==> Reports(Reset(s, now, cause).value.actions) == [] {
      ResetReports(s, now, cause);
    }
  }

  lemma HandleReports(s: Session, event: Event, now: u64, entropy: u64)
    requires Inv(s) && Timed(s) && Handle(s, event, now, entropy).Ok?
    ensures var r := Reports(Handle(s, event, now, entropy).value.actions);
            if !Exchanging(s) || Due(s.deadlines.hold, now) then r == []
            else if event.Message? then (if event.generation == s.generation then Calls(s, event.frame, r) else r == [])
            else if event.SoftResetOut? && s.state == Established then r == [Export(s.negotiated.value.families, false)]
            else r == []
  {
    hide Advance, Process, Inv, Calls, Reports;
    AdvanceReports(s, now, entropy);
    AdvanceGood(s, now, entropy);
    AdvanceHold(s, now, entropy);
    var timed := Advance(s, now, entropy).value;
    ProcessReports(timed.session, event, now, entropy);
    ReportsSplit(timed.actions, Process(timed.session, event, now, entropy).value.actions);
    var r := Reports(Process(timed.session, event, now, entropy).value.actions);
    assert [] + r == r;
    if event.Message? && Exchanging(timed.session) {
      AdvanceConfig(s, now, entropy);
      SameCalls(s, timed.session, event.frame, r);
    }
  }

  lemma AdvanceConfig(s: Session, now: u64, entropy: u64)
    requires Inv(s) && Timed(s) && Advance(s, now, entropy).Ok?
    ensures Advance(s, now, entropy).value.session.config == s.config
  {
    hide Advance, Inv;
    AdvanceGood(s, now, entropy);
  }

  lemma SameCalls(s: Session, t: Session, frame: Frame, r: seq<Action>)
    requires s.negotiated.Some? && t.negotiated == s.negotiated && t.state == s.state && t.config == s.config
    ensures Calls(s, frame, r) <==> Calls(t, frame, r)
  {
    hide AsksFor, Update.Validate, Update.Structured;
  }

  /** One input: exactly what it calls for is reported. */
  lemma InputReports(s: Session, input: Input)
    requires Inv(s)
    ensures Timed(s) && Owed(s, input, Reports(Emitted(s, input)))
  {
    hide Advance, Handle, Reset, Framing.Decode, Inv, Calls, Reports;
    InvTimed(s);
    ReportsNone();
    match input
    case PollAt(now, entropy) => AdvanceReports(s, now, entropy);
    case HandleAt(event, now, entropy) =>
      if Handle(s, event, now, entropy).Ok? { HandleReports(s, event, now, entropy); }
    case ReceiveAt(generation, bytes, now, entropy) =>
      match Framing.Decode(bytes) {
        case Ok((frame, consumed)) =>
          var event := Message(generation, frame);
          if Handle(s, event, now, entropy).Ok? { HandleReports(s, event, now, entropy); }
        case Err(NeedMore) =>
        case Err(Protocol(e)) =>
          AdvanceReports(s, now, entropy);
          if Advance(s, now, entropy).Ok? {
            var timed := Advance(s, now, entropy).value;
            var cause := Some(Messages.Notification(e.code, e.subcode, FramingData(bytes, e.subcode)));
            ResetReports(timed.session, now, cause);
            if Reset(timed.session, now, cause).Ok? {
              ReportsSplit(timed.actions, Reset(timed.session, now, cause).value.actions);
            }
          }
      }
  }

  /** Reports input by input are the reports of the run. */
  ghost predicate OwedAll(s: Session, inputs: seq<Input>, parts: seq<seq<Action>>)
    requires Inv(s)
  {
    && |parts| == |inputs|
    && forall i :: 0 <= i < |inputs| ==> OwedAt(s, inputs, i, parts[i])
  }

  ghost predicate OwedAt(s: Session, inputs: seq<Input>, i: nat, reports: seq<Action>)
    requires Inv(s) && i < |inputs|
  {
    StatesInv(s, inputs, i);
    Owed(States(s, inputs)[i], inputs[i], reports)
  }

  /** Over every run the updates passed on and discarded and the exports asked for
      are, in order, exactly what the inputs called for in the states they met:
      nothing is lost, added or repeated. */
  lemma {:induction false} NothingLost(s: Session, inputs: seq<Input>) returns (parts: seq<seq<Action>>)
    requires Inv(s)
    ensures OwedAll(s, inputs, parts) && Reports(AllEmitted(s, inputs)) == Concat(parts)
    decreases |inputs|
  {
    hide Inv, After, Emitted, Reports, Owed;
    if inputs == [] {
      parts := [];
      ReportsNone();
    } else {
      AfterInv(s, inputs[0]);
      InputReports(s, inputs[0]);
      var t, rest := After(s, inputs[0]), inputs[1..];
      var tail := NothingLost(t, rest);
      var first := Reports(Emitted(s, inputs[0]));
      parts := [first] + tail;
      ReportsSplit(Emitted(s, inputs[0]), AllEmitted(t, rest));
      assert States(s, inputs) == [s] + States(t, rest);
      forall i | 0 <= i < |inputs| ensures OwedAt(s, inputs, i, parts[i]) {
        if i > 0 { assert OwedAt(t, rest, i - 1, tail[i - 1]); }
      }
    }
  }
}
