/** Which of two colliding connections a speaker keeps
    (crates/flowsdn-bgp-proto/src/collision.rs:5-100; section 6.8 of RFC 4271). */
module Collision {
  import opened Bytes

  datatype Direction = Inbound | Outbound

  /** A connection's handle: the pool that issued it (its identity, a number no
      other pool has) and the connection's number there. */
  datatype Token = Token(issuer: nat, sequence: u64)

  datatype Owner = Owner(token: Token, direction: Direction, established: bool)

  datatype Resolution = Accepted(displaced: Option<Token>) | Rejected | InvalidRouterId

  datatype Pool = Pool(issuer: nat, sequence: u64, pending: set<u64>, current: Option<Owner>)

  datatype Op =
    | Allocate
    | Abandon(token: Token)
    | Establish(token: Token)
    | Close(token: Token)
    | Consider(token: Token, direction: Direction, local: u32, peer: u32)

  datatype Answer = Issued(token: Option<Token>) | Yes(yes: bool) | Resolved(resolution: Resolution)

  predicate IsCurrent(p: Pool, token: Token)
  {
    p.issuer == token.issuer && p.current.Some? && p.current.value.token.sequence == token.sequence
  }

  function Preferred(local: u32, peer: u32): Direction { if local > peer then Outbound else Inbound }

  /** Whether the connection in place keeps its place. */
  predicate Keeps(current: Owner, token: Token, direction: Direction, local: u32, peer: u32)
  {
    || current.established || current.token.sequence == token.sequence || current.direction == direction
    || direction != Preferred(local, peer)
  }

  function Decide(p: Pool, token: Token, direction: Direction, local: u32, peer: u32): (Pool, Resolution)
  {
    if p.issuer != token.issuer || token.sequence !in p.pending then (p, Rejected) else
    var taken := p.(pending := p.pending - {token.sequence});
    if local == peer || local == 0 || peer == 0 then (taken, InvalidRouterId)
    else if p.current.Some? && Keeps(p.current.value, token, direction, local, peer) then (taken, Rejected)
    else (taken.(current := Some(Owner(token, direction, false))),
          Accepted(if p.current.Some? then Some(p.current.value.token) else None))
  }

  function Do(p: Pool, op: Op): (Pool, Answer)
  {
    match op
    case Allocate =>
      if p.sequence == U64_MAX then (p, Issued(None))
      else (p.(sequence := p.sequence + 1, pending := p.pending + {p.sequence + 1}),
            Issued(Some(Token(p.issuer, p.sequence + 1))))
    case Abandon(token) =>
      if p.issuer == token.issuer && token.sequence in p.pending
      then (p.(pending := p.pending - {token.sequence}), Yes(true)) else (p, Yes(false))
    case Establish(token) =>
      if IsCurrent(p, token)
      then (p.(current := Some(p.current.value.(established := true))), Yes(true)) else (p, Yes(false))
    case Close(token) =>
      if IsCurrent(p, token) then (p.(current := None), Yes(true)) else (p, Yes(false))
    case Consider(token, direction, local, peer) =>
      var (q, r) := Decide(p, token, direction, local, peer);
      (q, Resolved(r))
  }

  class Connections {
    const issuer: nat
    var sequence: u64
    var pending: set<u64>
    var current: Option<Owner>

    function Snapshot(): Pool
      reads this
    {
      Pool(issuer, sequence, pending, current)
    }

    constructor (own: nat)
      ensures Snapshot() == Pool(own, 0, {}, None)
    {
      issuer := own;
      sequence := 0;
      pending := {};
      current := None;
    }

    method Allocate() returns (token: Option<Token>)
      modifies this
      ensures (Snapshot(), Issued(token)) == Do(old(Snapshot()), Op.Allocate)
    {
      if sequence == U64_MAX { return None; }
      sequence := sequence + 1;
      pending := pending + {sequence};
      token := Some(Token(issuer, sequence));
    }

    method Abandon(token: Token) returns (yes: bool)
      modifies this
      ensures (Snapshot(), Yes(yes)) == Do(old(Snapshot()), Op.Abandon(token))
    {
      yes := issuer == token.issuer && token.sequence in pending;
      if yes { pending := pending - {token.sequence}; }
    }

    method Established(token: Token) returns (yes: bool)
      modifies this
      ensures (Snapshot(), Yes(yes)) == Do(old(Snapshot()), Establish(token))
    {
      if !IsCurrent(Snapshot(), token) { return false; }
      current := Some(current.value.(established := true));
      yes := true;
    }

    method Closed(token: Token) returns (yes: bool)
      modifies this
      ensures (Snapshot(), Yes(yes)) == Do(old(Snapshot()), Close(token))
    {
      if !IsCurrent(Snapshot(), token) { return false; }
      current := None;
      yes := true;
    }

    method Consider(token: Token, direction: Direction, local: u32, peer: u32) returns (r: Resolution)
      modifies this
      ensures (Snapshot(), Resolved(r)) == Do(old(Snapshot()), Op.Consider(token, direction, local, peer))
    {
      if issuer != token.issuer || token.sequence !in pending { return Rejected; }
      pending := pending - {token.sequence};
      if local == peer || local == 0 || peer == 0 { return InvalidRouterId; }
      if current.Some? {
        var owner := current.value;
        if owner.established || owner.token.sequence == token.sequence || owner.direction == direction {
          return Rejected;
        }
        var preferred := if local > peer then Outbound else Inbound;
        if direction != preferred { return Rejected; }
      }
      var displaced := if current.Some? then Some(current.value.token) else None;
      current := Some(Owner(token, direction, false));
      r := Accepted(displaced);
    }
  }

  // ---------- every run of one pool ----------

  function After(p: Pool, ops: seq<Op>): Pool
    decreases |ops|
  {
    if ops == [] then p else After(Do(p, ops[0]).0, ops[1..])
  }

  /** Numbers pending or current were issued. */
  ghost predicate Issuing(p: Pool)
  {
    && (forall s :: s in p.pending ==> 0 < s <= p.sequence)
    && (p.current.Some? ==> p.current.value.token.issuer == p.issuer
                            && p.current.value.token.sequence !in p.pending
                            && 0 < p.current.value.token.sequence <= p.sequence)
  }

  lemma {:induction false} AfterIssuing(p: Pool, ops: seq<Op>)
    requires Issuing(p)
    ensures Issuing(After(p, ops)) && After(p, ops).issuer == p.issuer
    decreases |ops|
  {
    if ops != [] { AfterIssuing(Do(p, ops[0]).0, ops[1..]); }
  }

  /** A number that was issued and is no longer pending never is again. */
  lemma {:induction false} SpentStaysSpent(p: Pool, ops: seq<Op>, s: u64)
    requires s <= p.sequence && s !in p.pending
    ensures s !in After(p, ops).pending
    decreases |ops|
  {
    if ops != [] { SpentStaysSpent(Do(p, ops[0]).0, ops[1..], s); }
  }

  /** A token is accepted at most once: considered again, whatever happened in
      between, it is rejected and changes nothing. */
  lemma AcceptedOnce(p: Pool, first: Op, between: seq<Op>, again: Op)
    requires Issuing(p) && first.Consider? && again.Consider? && first.token == again.token
    requires Do(p, first).1.resolution.Accepted?
    ensures var later := After(Do(p, first).0, between);
            Do(later, again) == (later, Resolved(Rejected))
  {
    SpentStaysSpent(Do(p, first).0, between, first.token.sequence);
  }

  /** A token that was given up is never accepted: abandoned once, whatever happens
      in between, it is rejected and changes nothing. */
  lemma AbandonedNever(p: Pool, token: Token, between: seq<Op>, again: Op)
    requires Issuing(p) && token.sequence <= p.sequence && again.Consider? && again.token == token
    requires Do(p, Abandon(token)).1 == Yes(true)
    ensures var later := After(Do(p, Abandon(token)).0, between);
            Do(later, again) == (later, Resolved(Rejected))
    ensures Do(Do(p, Abandon(token)).0, Abandon(token)).1 == Yes(false)
  {
    SpentStaysSpent(Do(p, Abandon(token)).0, between, token.sequence);
  }

  /** A token can be given up exactly while it is pending here, and then nothing
      else changes. */
  lemma AbandonExactly(p: Pool, token: Token)
    ensures var (q, answer) := Do(p, Abandon(token));
            && answer == Yes(token.issuer == p.issuer && token.sequence in p.pending)
            && q.current == p.current && q.issuer == p.issuer && q.sequence == p.sequence
            && forall n :: n in q.pending <==>
                 n in p.pending && !(token.issuer == p.issuer && n == token.sequence)
  {
  }

  /** Establishing and closing are for the connection in place and no other: one
      stays and is marked, the other leaves the place free. */
  lemma PlaceExactly(p: Pool, token: Token)
    requires Issuing(p)
    ensures var inPlace := p.current.Some? && p.current.value.token == token;
            && Do(p, Establish(token)).1 == Yes(inPlace) && Do(p, Close(token)).1 == Yes(inPlace)
            && (!inPlace ==> Do(p, Establish(token)).0 == p && Do(p, Close(token)).0 == p)
            && (inPlace ==>
                  && Do(p, Establish(token)).0 == p.(current := Some(Owner(token, p.current.value.direction, true)))
                  && Do(p, Close(token)).0 == p.(current := None))
  {
  }

  /** Every token is issued once: its number is above all before it, and it waits
      to be considered. */
  lemma AllocateExactly(p: Pool)
    requires Issuing(p)
    ensures var (q, answer) := Do(p, Allocate);
            && (answer == Issued(None) <==> p.sequence == U64_MAX)
            && (answer == Issued(None) ==> q == p)
            && (p.sequence < U64_MAX ==>
                  && answer == Issued(Some(Token(p.issuer, q.sequence))) && q.sequence > p.sequence
                  && q.issuer == p.issuer && q.current == p.current
                  && forall n :: n in q.pending <==> n in p.pending || n == q.sequence)
  {
  }

  /** An established connection keeps its place until it is closed. */
  lemma {:induction false} EstablishedStays(p: Pool, ops: seq<Op>)
    requires p.current.Some? && p.current.value.established
    requires forall i :: 0 <= i < |ops| ==> ops[i].Close? ==> !IsCurrent(p, ops[i].token)
    ensures After(p, ops).current == p.current
    decreases |ops|
  {
    if ops != [] {
      var q := Do(p, ops[0]).0;
      assert ops[0].Close? ==> !IsCurrent(p, ops[0].token);
      assert q.current == p.current && q.issuer == p.issuer;
      forall i | 0 <= i < |ops[1..]| ensures ops[1..][i].Close? ==> !IsCurrent(q, ops[1..][i].token) {
        assert ops[1..][i] == ops[i + 1];
      }
      EstablishedStays(q, ops[1..]);
    }
  }

  /** What considering a connection comes to: its handle is spent if it was pending
      here; two router IDs that are equal or zero settle nothing; it takes over a
      free place, or that of a connection of the other direction that is not yet
      established if its own direction is the preferred one, and names the one it
      displaced; otherwise it is rejected. Everything else stays. */
  lemma ConsiderExactly(p: Pool, token: Token, direction: Direction, local: u32, peer: u32)
    ensures var (q, answer) := Do(p, Consider(token, direction, local, peer));
            var known := token.issuer == p.issuer && token.sequence in p.pending;
            var takes := match p.current
              case None => true
              case Some(owner) =>
                && !owner.established && owner.token.sequence != token.sequence
                && (owner.direction, direction) == (if local > peer then (Inbound, Outbound) else (Outbound, Inbound));
            && q.issuer == p.issuer && q.sequence == p.sequence
            && (forall n :: n in q.pending <==> n in p.pending && !(known && n == token.sequence))
            && answer.Resolved?
            && if !known then answer.resolution == Rejected && q.current == p.current
               else if local == peer || 0 in {local, peer} then
                 answer.resolution == InvalidRouterId && q.current == p.current
               else if takes then
                 && q.current == Some(Owner(token, direction, false))
                 && answer.resolution == Accepted(if p.current.Some? then Some(p.current.value.token) else None)
               else answer.resolution == Rejected && q.current == p.current
  {
  }

  function Current(p: Pool): seq<Token> { if p.current.Some? then [p.current.value.token] else [] }

  /** The connections an operation accepts, and those it displaces or closes. */
  function Taken(p: Pool, op: Op): seq<Token>
  {
    var answer := Do(p, op).1;
    if answer.Resolved? && answer.resolution.Accepted? && op.Consider? then [op.token] else []
  }

  function Given(p: Pool, op: Op): seq<Token>
  {
    var answer := Do(p, op).1;
    if answer.Resolved? && answer.resolution.Accepted? && answer.resolution.displaced.Some?
    then [answer.resolution.displaced.value]
    else if op.Close? && answer == Yes(true) then [op.token] else []
  }

  function AllTaken(p: Pool, ops: seq<Op>): seq<Token>
    decreases |ops|
  {
    if ops == [] then [] else Taken(p, ops[0]) + AllTaken(Do(p, ops[0]).0, ops[1..])
  }

  function AllGiven(p: Pool, ops: seq<Op>): seq<Token>
    decreases |ops|
  {
    if ops == [] then [] else Given(p, ops[0]) + AllGiven(Do(p, ops[0]).0, ops[1..])
  }

  lemma StepConserves(p: Pool, op: Op)
    requires Issuing(p)
    ensures Current(p) + Taken(p, op) == Given(p, op) + Current(Do(p, op).0)
    ensures Issuing(Do(p, op).0)
  {
  }

  /** Over every run, each accepted connection is displaced or closed exactly once,
      in the order of acceptance, except the one still in place. */
  lemma {:induction false} EveryConnectionEnds(p: Pool, ops: seq<Op>)
    requires Issuing(p)
    ensures Current(p) + AllTaken(p, ops) == AllGiven(p, ops) + Current(After(p, ops))
    decreases |ops|
  {
    hide Do, Issuing, Taken, Given, Current;
    if ops == [] {
      assert Current(p) + [] == [] + Current(p);
    } else {
      var q := Do(p, ops[0]).0;
      StepConserves(p, ops[0]);
      EveryConnectionEnds(q, ops[1..]);
      var taken, given := Taken(p, ops[0]), Given(p, ops[0]);
      var more, less, last := AllTaken(q, ops[1..]), AllGiven(q, ops[1..]), Current(After(q, ops[1..]));
      assert Current(p) + (taken + more) == (Current(p) + taken) + more;
      assert (given + Current(q)) + more == given + (Current(q) + more);
      assert given + (less + last) == (given + less) + last;
    }
  }

  // ---------- two speakers ----------

  /** Operations that decide nothing about two tokens. */
  ghost predicate Aside(ops: seq<Op>, x: Token, y: Token)
  {
    forall i :: 0 <= i < |ops| ==> ops[i].Allocate? || (ops[i].Abandon? && ops[i].token != x && ops[i].token != y)
  }

  lemma {:induction false} AsideKeeps(p: Pool, ops: seq<Op>, x: Token, y: Token)
    requires Aside(ops, x, y) && x.issuer == y.issuer == p.issuer
    ensures After(p, ops).current == p.current && After(p, ops).issuer == p.issuer
    ensures x.sequence in p.pending ==> x.sequence in After(p, ops).pending
    ensures y.sequence in p.pending ==> y.sequence in After(p, ops).pending
    decreases |ops|
  {
    if ops != [] {
      assert ops[0].Allocate? || (ops[0].Abandon? && ops[0].token != x && ops[0].token != y);
      assert forall i :: 0 <= i < |ops[1..]| ==> ops[1..][i] == ops[i + 1];
      AsideKeeps(Do(p, ops[0]).0, ops[1..], x, y);
    }
  }

  /** One speaker's considering of both connections, in either order. */
  ghost function Considered(p: Pool, first: Op, second: Op, a: seq<Op>, b: seq<Op>, c: seq<Op>): Pool
  {
    After(Do(After(Do(After(p, a), first).0, b), second).0, c)
  }

  /** A speaker ends with the connection of its preferred direction, whichever
      it considers first. */
  lemma KeepsPreferred(p: Pool, inbound: Token, outbound: Token, local: u32, peer: u32,
                              outboundFirst: bool, a: seq<Op>, b: seq<Op>, c: seq<Op>)
    requires p.current.None? && inbound.issuer == outbound.issuer == p.issuer
    requires inbound.sequence != outbound.sequence && {inbound.sequence, outbound.sequence} <= p.pending
    requires local != peer && local != 0 && peer != 0
    requires Aside(a, inbound, outbound) && Aside(b, inbound, outbound) && Aside(c, inbound, outbound)
    ensures var i, o := Consider(inbound, Inbound, local, peer), Consider(outbound, Outbound, local, peer);
            var q := if outboundFirst then Considered(p, o, i, a, b, c) else Considered(p, i, o, a, b, c);
            q.current == Some(Owner(if local > peer then outbound else inbound, Preferred(local, peer), false))
  {
    hide After;
    var i, o := Consider(inbound, Inbound, local, peer), Consider(outbound, Outbound, local, peer);
    var first, second := if outboundFirst then o else i, if outboundFirst then i else o;
    var p1 := After(p, a);
    AsideKeeps(p, a, inbound, outbound);
    var p2 := Do(p1, first).0;
    var p3 := After(p2, b);
    AsideKeeps(p2, b, inbound, outbound);
    var p4 := Do(p3, second).0;
    AsideKeeps(p4, c, inbound, outbound);
  }

  /** One speaker of a pair: its pool, its handles on the connection the peer
      dialed and on the one it dialed, and the order it considers them in, with
      unrelated operations before, between and after. */
  datatype Side = Side(pool: Pool, inbound: Token, outbound: Token,
                          outboundFirst: bool, a: seq<Op>, b: seq<Op>, c: seq<Op>)

  ghost predicate Ready(s: Side)
  {
    && s.pool.current.None? && s.inbound.issuer == s.outbound.issuer == s.pool.issuer
    && s.inbound.sequence != s.outbound.sequence && {s.inbound.sequence, s.outbound.sequence} <= s.pool.pending
    && Aside(s.a, s.inbound, s.outbound) && Aside(s.b, s.inbound, s.outbound) && Aside(s.c, s.inbound, s.outbound)
  }

  ghost function End(s: Side, local: u32, peer: u32): Pool
  {
    var i, o := Consider(s.inbound, Inbound, local, peer), Consider(s.outbound, Outbound, local, peer);
    if s.outboundFirst then Considered(s.pool, o, i, s.a, s.b, s.c) else Considered(s.pool, i, o, s.a, s.b, s.c)
  }

  /** Two speakers that each opened a connection keep the same one: the one
      `x` dialed is outbound at `x` and inbound at `y`. */
  lemma SpeakersKeepTheSame(x: Side, y: Side, xId: u32, yId: u32)
    requires Ready(x) && Ready(y) && xId != yId && xId != 0 && yId != 0
    ensures var atX, atY := End(x, xId, yId).current, End(y, yId, xId).current;
            && atX.Some? && atY.Some?
            && (atX.value.token == x.outbound <==> atY.value.token == y.inbound)
            && (atX.value.token == x.inbound <==> atY.value.token == y.outbound)
            && (atX.value.token == x.outbound <==> xId > yId)
  {
    KeepsPreferred(x.pool, x.inbound, x.outbound, xId, yId, x.outboundFirst, x.a, x.b, x.c);
    KeepsPreferred(y.pool, y.inbound, y.outbound, yId, xId, y.outboundFirst, y.a, y.b, y.c);
  }
}
