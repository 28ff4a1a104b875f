/** The three lookups of the packet path
    (crates/flowsdn-bpf/src/bin/local-delivery/policy.rs:255-355) and the theorem
    that they decide every packet as the original rules mean it. */
module Datapath {
  import opened Bytes
  import opened Ports
  import opened PolicyLowering
  import opened PolicyKeys
  import opened PolicyTrie

  // ---------- the packet's verdict ----------

  const AGGREGATE_CLUSTER: u32 := 11
  const AGGREGATE_CLUSTER_MESH: u32 := 12
  const AGGREGATE_WORLD: u32 := 13
  const AGGREGATE_REMOTE_NODE: u32 := 14

  /** The group identity a remote also answers to; 0 where there is none. */
  function Aggregate(identity: u32, clusterId: u32): u32
  {
    if identity == 0 || AGGREGATE_CLUSTER <= identity <= AGGREGATE_REMOTE_NODE then identity
    else if identity / 0x1000000 == 1 then AGGREGATE_WORLD
    else if identity / 0x1000000 == 2 then AGGREGATE_REMOTE_NODE
    else if identity < 100 then 0
    else if (identity / 0x10000) % 0x100 == clusterId then AGGREGATE_CLUSTER
    else AGGREGATE_CLUSTER_MESH
  }

  /** A group is its own group, and only identity 0, the aggregates and reserved
      identities have none above them. */
  lemma AggregateStable(identity: u32, clusterId: u32)
    ensures var group := Aggregate(identity, clusterId);
            && Aggregate(group, clusterId) == group
            && (group == 0 || AGGREGATE_CLUSTER <= group <= AGGREGATE_REMOTE_NODE)
            && (group == identity <==> identity == 0 || AGGREGATE_CLUSTER <= identity <= AGGREGATE_REMOTE_NODE)
            && (group == 0 ==> identity < 100)
  {
  }

  /** An identity above the reserved ones, taken apart: a scope, a cluster and a
      number in it. */
  ghost predicate Made(identity: u32, scope: nat, cluster: nat, low: nat)
  {
    && scope < 0x100 && cluster < 0x100 && low < 0x10000
    && identity == scope * 0x1000000 + cluster * 0x10000 + low
  }

  /** Who belongs to each group: this cluster's identities, those of any other, the
      CIDR scope, the remote node scope; the groups themselves apart. */
  ghost predicate Member(group: u32, identity: u32, clusterId: u32)
  {
    exists scope: nat, cluster: nat, low: nat ::
      Made(identity, scope, cluster, low) && InGroup(group, identity, scope, cluster, clusterId)
  }

  predicate InGroup(group: u32, identity: u32, scope: nat, cluster: nat, clusterId: u32)
  {
    match group
    case 11 => identity >= 100 && scope !in {1, 2} && cluster == clusterId
    case 12 => identity >= 100 && scope !in {1, 2} && cluster != clusterId
    case 13 => scope == 1
    case 14 => scope == 2
    case _ => false
  }

  lemma MadeParts(identity: u32, scope: nat, cluster: nat, low: nat)
    requires Made(identity, scope, cluster, low)
    ensures identity / 0x1000000 == scope && (identity / 0x10000) % 0x100 == cluster
  {
    DivModUnique(identity, 0x1000000, scope, cluster * 0x10000 + low);
    DivModUnique(identity, 0x10000, scope * 0x100 + cluster, low);
    DivModUnique(scope * 0x100 + cluster, 0x100, scope, cluster);
  }

  lemma PartsMade(identity: u32) returns (scope: nat, cluster: nat, low: nat)
    ensures Made(identity, scope, cluster, low)
  {
    var high := identity / 0x10000;
    low := identity % 0x10000;
    scope, cluster := high / 0x100, high % 0x100;
  }

  /** An identity's group, from its parts. */
  lemma AggregateExactly(identity: u32, scope: nat, cluster: nat, low: nat, clusterId: u32)
    requires Made(identity, scope, cluster, low)
    ensures var group := Aggregate(identity, clusterId);
            && (identity in {0, 11, 12, 13, 14} ==> group == identity)
            && (identity < 100 && identity !in {0, 11, 12, 13, 14} ==> group == 0)
            && (scope == 1 ==> group == 13) && (scope == 2 ==> group == 14)
            && (identity >= 100 && scope !in {1, 2} ==> group == if cluster == clusterId then 11 else 12)
  {
    MadeParts(identity, scope, cluster, low);
  }

  /** The group of an identity that is not one is exactly the one it belongs to. */
  lemma GroupsExactly(group: u32, identity: u32, clusterId: u32)
    requires 11 <= group <= 14 && !(11 <= identity <= 14)
    ensures Aggregate(identity, clusterId) == group <==> Member(group, identity, clusterId)
  {
    hide Aggregate;
    var scope, cluster, low := PartsMade(identity);
    AggregateExactly(identity, scope, cluster, low, clusterId);
    if InGroup(group, identity, scope, cluster, clusterId) { assert Member(group, identity, clusterId); }
    if Member(group, identity, clusterId) {
      var s: nat, c: nat, l: nat :| Made(identity, s, c, l) && InGroup(group, identity, s, c, clusterId);
      AggregateExactly(identity, s, c, l, clusterId);
    }
  }

  predicate Beats(broader: Entry, specific: Entry)
  {
    || broader.precedence > specific.precedence
    || (broader.precedence == specific.precedence && LpmLength(broader) > LpmLength(specific))
  }

  /** The chosen entry's verdict; authentication is never satisfied. */
  predicate Passes(chosen: Entry, other: Option<Entry>)
  {
    && !Denies(chosen)
    && (if other.Some? && other.value.precedence == chosen.precedence && !ExplicitAuth(chosen)
           && AuthType(other.value) > AuthType(chosen)
        then AuthType(other.value) else AuthType(chosen)) == 0
  }

  ghost predicate Allowed(trie: Trie, endpoint: u32, remote: u32, egress: bool, p: Packet, clusterId: u32)
  {
    var specific := Lookup(trie, endpoint, remote, egress, p);
    if specific.Some? && specific.value.precedence == MAX_PRECEDENCE then !Denies(specific.value) else
    var group := Aggregate(remote, clusterId);
    var grouped := if group != remote then Lookup(trie, endpoint, group, egress, p) else None;
    var broader := if grouped.None? && specific.None? && group != 0
                   then Lookup(trie, endpoint, 0, egress, p) else grouped;
    if specific.None? && broader.None? then false
    else if specific.None? || (broader.Some? && Beats(broader.value, specific.value))
    then Passes(broader.value, specific)
    else Passes(specific.value, broader)
  }

  // ---------- whose verdict counts ----------

  /** The entries that have a say: those found at the remote's identity and at its
      group, and at identity 0 when there is neither. */
  ghost predicate Found(trie: Trie, endpoint: u32, remote: u32, egress: bool, p: Packet, clusterId: u32,
                        identity: u32, e: Entry)
  {
    && Lookup(trie, endpoint, identity, egress, p) == Some(e)
    && (|| identity in {remote, Aggregate(remote, clusterId)}
        || (&& identity == 0 && Lookup(trie, endpoint, remote, egress, p).None?
            && Lookup(trie, endpoint, Aggregate(remote, clusterId), egress, p).None?))
  }

  /** Precedence, then the length of the L4 prefix, as one number. */
  function Rank(e: Entry): nat { 32 * e.precedence as int + e.flags as int / 8 }

  /** The entry that decides: of the greatest rank, and of equal ones the remote's own. */
  ghost predicate Decides(trie: Trie, endpoint: u32, remote: u32, egress: bool, p: Packet, clusterId: u32,
                          identity: u32, e: Entry)
  {
    && Found(trie, endpoint, remote, egress, p, clusterId, identity, e)
    && forall other, o ::
         Found(trie, endpoint, remote, egress, p, clusterId, other, o) && other != identity ==>
           Rank(o) < Rank(e) || (Rank(o) == Rank(e) && identity == remote)
  }

  /** No authentication is asked for: not by the entry, and unless it says so
      explicitly, not by another of its precedence either. */
  ghost predicate Unauthenticated(trie: Trie, endpoint: u32, remote: u32, egress: bool, p: Packet, clusterId: u32,
                                  identity: u32, e: Entry)
  {
    && AuthType(e) == 0
    && (ExplicitAuth(e) || forall other, o ::
          Found(trie, endpoint, remote, egress, p, clusterId, other, o) && other != identity ==>
            o.precedence != e.precedence || AuthType(o) == 0)
  }

  /** For every table: the remote's own entry alone decides if it has the highest
      precedence; otherwise a packet passes exactly when the deciding entry does not
      deny it and nothing asks for authentication. */
  lemma VerdictExactly(trie: Trie, endpoint: u32, remote: u32, egress: bool, p: Packet, clusterId: u32)
    ensures var own := Lookup(trie, endpoint, remote, egress, p);
            Allowed(trie, endpoint, remote, egress, p, clusterId) <==>
            if own.Some? && own.value.precedence == U32_MAX then !Denies(own.value)
            else exists identity, e ::
              && Decides(trie, endpoint, remote, egress, p, clusterId, identity, e) && !Denies(e)
              && Unauthenticated(trie, endpoint, remote, egress, p, clusterId, identity, e)
  {
    hide Lookup, Aggregate, Denies, AuthType, ExplicitAuth, Found, Rank;
    var own, group := Lookup(trie, endpoint, remote, egress, p), Aggregate(remote, clusterId);
    var grouped := if group != remote then Lookup(trie, endpoint, group, egress, p) else None;
    var at := if grouped.Some? then group else 0;
    var broader := if grouped.None? && own.None? && group != 0 then Lookup(trie, endpoint, 0, egress, p) else grouped;
    FoundExactly(trie, endpoint, remote, egress, p, clusterId, own, at, broader);
    if own.Some? && broader.Some? { BeatsByRank(broader.value, own.value); }
    if broader.Some? { assert Found(trie, endpoint, remote, egress, p, clusterId, at, broader.value); }
    if own.Some? { assert Found(trie, endpoint, remote, egress, p, clusterId, remote, own.value); }
    if own.Some? && !(broader.Some? && Beats(broader.value, own.value)) {
      assert Decides(trie, endpoint, remote, egress, p, clusterId, remote, own.value);
    } else if broader.Some? {
      assert Decides(trie, endpoint, remote, egress, p, clusterId, at, broader.value);
    }
  }

  lemma BeatsByRank(broader: Entry, specific: Entry)
    ensures Beats(broader, specific) <==> Rank(broader) > Rank(specific)
  {
  }

  lemma FoundExactly(trie: Trie, endpoint: u32, remote: u32, egress: bool, p: Packet, clusterId: u32,
                     own: Option<Entry>, at: u32, broader: Option<Entry>)
    requires own == Lookup(trie, endpoint, remote, egress, p)
    requires var group := Aggregate(remote, clusterId);
             var grouped := if group != remote then Lookup(trie, endpoint, group, egress, p) else None;
             && at == (if grouped.Some? then group else 0)
             && broader == (if grouped.None? && own.None? && group != 0
                            then Lookup(trie, endpoint, 0, egress, p) else grouped)
    ensures broader.Some? ==> at != remote
    ensures forall identity, e ::
              Found(trie, endpoint, remote, egress, p, clusterId, identity, e) <==>
              (identity == remote && own == Some(e)) || (identity == at && broader == Some(e))
  {
    hide Lookup, Aggregate;
  }

  /** ... and so every other verdict. */
  lemma VerdictIsolated(before: Trie, after: Trie, endpoint: u32, egress: bool, allows: set<Key>, denies: set<Key>,
                        precedence: u32, other: u32, direction: bool, remote: u32, clusterId: u32, p: Packet)
    requires OnlyWrite(before, endpoint, egress)
    requires Written(before, after, endpoint, egress, allows, denies, precedence)
    requires (other, direction) != (endpoint, egress)
    ensures Allowed(after, other, remote, direction, p, clusterId) <==>
            Allowed(before, other, remote, direction, p, clusterId)
  {
    hide Lookup, Written, OnlyWrite, Aggregate;
    var group := Aggregate(remote, clusterId);
    LookupIsolated(before, after, endpoint, egress, allows, denies, precedence, other, direction, remote, p);
    LookupIsolated(before, after, endpoint, egress, allows, denies, precedence, other, direction, group, p);
    LookupIsolated(before, after, endpoint, egress, allows, denies, precedence, other, direction, 0, p);
  }

  // ---------- what one identity's lookup finds ----------

  ghost predicate SomeMatch(keys: set<Key>, identity: u32, p: Packet)
  {
    exists k :: k in keys && k.identity == identity && L4Matches(k, p)
  }

  /** The lookup at one identity, from the rules alone. */
  ghost predicate Answers(hit: Option<Entry>, denied: bool, allowed: bool, allowPrecedence: u32)
  {
    && (denied ==> hit.Some? && Denies(hit.value) && hit.value.precedence == MAX_PRECEDENCE)
    && (!denied && allowed ==>
          && hit.Some? && !Denies(hit.value) && hit.value.precedence == allowPrecedence
          && AuthType(hit.value) == 0)
    && (!denied && !allowed ==> hit.None?)
  }

  lemma Origin(allows: set<Key>, denies: set<Key>, kept: set<Key>, out: set<Key>, d: Key) returns (origin: Key)
    requires Lowered(allows, denies, kept, out) && d in out
    ensures origin in denies && (origin.identity == d.identity || origin.identity == 0)
    ensures d == origin.(identity := d.identity)
  {
    if d in denies {
      origin := d;
    } else {
      var a, o :| a in allows && o in denies && Inside(o, a) && d == Copied(o, a);
      origin := o;
    }
  }

  /** A deny in force at an allow's identity that shares a packet with the
      surviving allow is strictly longer. */
  lemma DenyLonger(allows: set<Key>, denies: set<Key>, kept: set<Key>, out: set<Key>, a: Key, d: Key, p: Packet)
    requires Lowered(allows, denies, kept, out) && AllWellFormed(allows) && AllWellFormed(denies)
    requires a in kept && d in out && a.identity == d.identity && L4Matches(a, p) && L4Matches(d, p)
    ensures WellFormed(a) && WellFormed(d)
    ensures Encoded(0, false, a).prefixlen < Encoded(0, false, d).prefixlen
  {
    hide Masked;
    var origin := Origin(allows, denies, kept, out, d);
    assert origin.identity == a.identity || origin.identity == 0;
    assert !Covers(origin, a);
    SharedNested(a, origin, p);
  }

  lemma OutWellFormed(allows: set<Key>, denies: set<Key>, kept: set<Key>, out: set<Key>)
    requires Lowered(allows, denies, kept, out) && AllWellFormed(allows) && AllWellFormed(denies)
    ensures AllWellFormed(kept) && AllWellFormed(out)
  {
    forall k | k in out ensures WellFormed(k) {
      var origin := Origin(allows, denies, kept, out, k);
      assert WellFormed(origin);
    }
  }

  ghost predicate Installed(before: Trie, trie: Trie, endpoint: u32, egress: bool, allows: set<Key>, denies: set<Key>,
                            kept: set<Key>, out: set<Key>, precedence: u32)
  {
    && OnlyWrite(before, endpoint, egress)
    && Written(before, trie, endpoint, egress, kept, out, precedence)
    && Lowered(allows, denies, kept, out)
    && AllWellFormed(allows) && AllWellFormed(denies)
  }

  /** A longest hit is an allow's only when no deny in force matches. */
  lemma LongestVerdict(before: Trie, trie: Trie, endpoint: u32, egress: bool, allows: set<Key>, denies: set<Key>,
                       kept: set<Key>, out: set<Key>, precedence: u32, identity: u32, p: Packet, at: EndpointKey)
    requires Installed(before, trie, endpoint, egress, allows, denies, kept, out, precedence)
    requires Longest(trie, Sought(endpoint, identity, egress, p), at)
    ensures SomeMatch(out, identity, p) || SomeMatch(kept, identity, p)
    ensures Answers(Some(trie[at]), SomeMatch(out, identity, p), SomeMatch(kept, identity, p), precedence)
  {
    hide Encoded, EntryOf, L4Matches, Hits, Lowered, OnlyWrite, WellFormed, Denies, AuthType, ExplicitAuth, LpmLength;
    var k := HitIsWritten(before, trie, endpoint, egress, kept, out, precedence, identity, p, at);
    OutWellFormed(allows, denies, kept, out);
    EntryCarries(k, true, precedence);
    EntryCarries(k, false, precedence);
    if k !in out {
      if d :| d in out && d.identity == identity && L4Matches(d, p) {
        DenyLonger(allows, denies, kept, out, k, d, p);
        MatchHits(before, trie, endpoint, egress, kept, out, precedence, d, p);
        SamePrefixlen(endpoint, egress, d);
        SamePrefixlen(endpoint, egress, k);
        assert false;
      }
      if d :| WrittenAt(endpoint, egress, out, at, d) {
        EncodedHits(endpoint, egress, d, endpoint, identity, egress, p);
        assert false;
      }
    }
  }

  lemma NothingAnswers(trie: Trie, endpoint: u32, identity: u32, egress: bool, p: Packet,
                       kept: set<Key>, out: set<Key>, precedence: u32)
    requires !exists at :: Longest(trie, Sought(endpoint, identity, egress, p), at)
    requires forall k :: k in kept + out && k.identity == identity ==> !L4Matches(k, p)
    ensures Answers(Lookup(trie, endpoint, identity, egress, p),
                    SomeMatch(out, identity, p), SomeMatch(kept, identity, p), precedence)
  {
    hide L4Matches, Longest;
    assert forall k :: k in out ==> k in kept + out;
    assert forall k :: k in kept ==> k in kept + out;
  }

  /** The lookup at one identity answers from the rewritten rules of that identity. */
  lemma IdentityAnswers(before: Trie, trie: Trie, endpoint: u32, egress: bool, allows: set<Key>, denies: set<Key>,
                        kept: set<Key>, out: set<Key>, precedence: u32, identity: u32, p: Packet)
    requires Installed(before, trie, endpoint, egress, allows, denies, kept, out, precedence)
    ensures Answers(Lookup(trie, endpoint, identity, egress, p),
                    SomeMatch(out, identity, p), SomeMatch(kept, identity, p), precedence)
  {
    hide Encoded, EntryOf, L4Matches, Hits, Lowered, OnlyWrite, Written, WellFormed, Answers, Lookup, Longest;
    var sought := Sought(endpoint, identity, egress, p);
    if exists at :: Longest(trie, sought, at) {
      var at := LookupTakes(trie, endpoint, identity, egress, p);
      LongestVerdict(before, trie, endpoint, egress, allows, denies, kept, out, precedence, identity, p, at);
    } else {
      OutWellFormed(allows, denies, kept, out);
      if k :| k in kept + out && k.identity == identity && L4Matches(k, p) {
        MatchHits(before, trie, endpoint, egress, kept, out, precedence, k, p);
        LongestExists(trie, sought, Encoded(endpoint, egress, k));
        assert false;
      }
      NothingAnswers(trie, endpoint, identity, egress, p, kept, out, precedence);
    }
  }

  // ---------- from rewritten rules back to the original ----------

  /** How the rewritten rules of one identity follow the original ones. */
  lemma RewrittenMatches(allows: set<Key>, denies: set<Key>, kept: set<Key>, out: set<Key>, identity: u32, p: Packet)
    requires Lowered(allows, denies, kept, out) && AllWellFormed(allows) && AllWellFormed(denies)
    ensures SomeMatch(denies, identity, p) ==> SomeMatch(out, identity, p)
    ensures SomeMatch(out, identity, p) ==> SomeMatch(denies, identity, p) || SomeMatch(denies, 0, p)
    ensures SomeMatch(kept, identity, p) ==> SomeMatch(allows, identity, p)
    ensures SomeMatch(allows, identity, p) && !SomeMatch(denies, identity, p) && !SomeMatch(denies, 0, p) ==>
              SomeMatch(kept, identity, p)
    ensures SomeMatch(kept, identity, p) && SomeMatch(denies, 0, p) ==> SomeMatch(out, identity, p)
  {
    hide L4Holds;
    if d :| d in out && d.identity == identity && L4Matches(d, p) {
      var origin := Origin(allows, denies, kept, out, d);
      assert L4Matches(origin, p);
    }
    if a :| a in allows && a.identity == identity && L4Matches(a, p) {
      if a !in kept {
        var d :| d in denies && Covers(d, a);
        HoldsSubset(d, a, p);
      }
    }
    if a, d :| && a in kept && a.identity == identity && L4Matches(a, p)
               && d in denies && d.identity == 0 && L4Matches(d, p) {
      SharedNested(a, d, p);
      assert !Covers(d, a);
      assert Inside(d, a);
      assert L4Matches(Copied(d, a), p);
    }
  }

  /** The verdict the rules mean: some allow of the remote, its group or
      everyone matches, and no deny of any of them does. */
  ghost predicate Verdict(allows: set<Key>, denies: set<Key>, remote: u32, group: u32, p: Packet)
  {
    && (SomeMatch(allows, remote, p) || SomeMatch(allows, group, p) || SomeMatch(allows, 0, p))
    && !(SomeMatch(denies, remote, p) || SomeMatch(denies, group, p) || SomeMatch(denies, 0, p))
  }

  lemma ZeroHasNoGroup(clusterId: u32)
    ensures Aggregate(0, clusterId) == 0
  {
  }

  /** The three lookups decide every packet as the original rules mean it. */
  lemma DenyWins(before: Trie, trie: Trie, endpoint: u32, egress: bool, allows: set<Key>, denies: set<Key>,
                 kept: set<Key>, out: set<Key>, precedence: u32, remote: u32, clusterId: u32, p: Packet)
    requires Installed(before, trie, endpoint, egress, allows, denies, kept, out, precedence)
    requires precedence < MAX_PRECEDENCE
    ensures Allowed(trie, endpoint, remote, egress, p, clusterId) <==>
            Verdict(allows, denies, remote, Aggregate(remote, clusterId), p)
  {
    hide Lookup, SomeMatch, Aggregate, Written, OnlyWrite, Lowered, AllWellFormed, Denies, AuthType, ExplicitAuth;
    hide LpmLength;
    var group := Aggregate(remote, clusterId);
    assert remote == 0 ==> group == 0 by { ZeroHasNoGroup(clusterId); }
    IdentityAnswers(before, trie, endpoint, egress, allows, denies, kept, out, precedence, remote, p);
    IdentityAnswers(before, trie, endpoint, egress, allows, denies, kept, out, precedence, group, p);
    IdentityAnswers(before, trie, endpoint, egress, allows, denies, kept, out, precedence, 0, p);
    RewrittenMatches(allows, denies, kept, out, remote, p);
    RewrittenMatches(allows, denies, kept, out, group, p);
    RewrittenMatches(allows, denies, kept, out, 0, p);
  }

  /** Surviving allows and denies in force never share a map key. */
  lemma NoSharedKey(allows: set<Key>, denies: set<Key>, kept: set<Key>, out: set<Key>, endpoint: u32, egress: bool,
                    a: Key, d: Key)
    requires Lowered(allows, denies, kept, out) && AllWellFormed(allows) && AllWellFormed(denies)
    requires a in kept && d in out
    ensures WellFormed(a) && WellFormed(d) && Encoded(endpoint, egress, a) != Encoded(endpoint, egress, d)
  {
    hide Hits, TrieBytes, SamePrefix, L4Holds, Masked;
    OutWellFormed(allows, denies, kept, out);
    assert WellFormed(a) && WellFormed(d);
    var p := Packet(a.protocol, a.port);
    assert L4Matches(a, p);
    if Encoded(endpoint, egress, a) == Encoded(endpoint, egress, d) {
      EncodedHits(endpoint, egress, a, endpoint, a.identity, egress, p);
      EncodedHits(endpoint, egress, d, endpoint, a.identity, egress, p);
      EntryOfKey(endpoint, egress, a, d, true, 0);
      DenyLonger(allows, denies, kept, out, a, d, p);
    }
  }

  // ---------- one direction of an endpoint, from its rules ----------

  datatype Directive = Directive(rule: Rule, deny: bool)

  ghost predicate SomeRule(rules: seq<Directive>, deny: bool, identity: u32, p: Packet)
  {
    exists i :: 0 <= i < |rules| && rules[i].deny == deny && rules[i].rule.identity == identity
                && RuleMatches(rules[i].rule, p)
  }

  ghost predicate RuleVerdict(rules: seq<Directive>, defaultDeny: bool, remote: u32, group: u32, p: Packet)
  {
    && (|| !defaultDeny
        || SomeRule(rules, false, remote, p) || SomeRule(rules, false, group, p) || SomeRule(rules, false, 0, p))
    && !(SomeRule(rules, true, remote, p) || SomeRule(rules, true, group, p) || SomeRule(rules, true, 0, p))
  }

  /** Key sets that say what the rules say. */
  ghost predicate Expresses(rules: seq<Directive>, deny: bool, keys: set<Key>)
  {
    && AllWellFormed(keys)
    && forall identity, p :: SomeMatch(keys, identity, p) <==> SomeRule(rules, deny, identity, p)
  }

  lemma ExpressNothing()
    ensures Expresses([], false, {}) && Expresses([], true, {})
  {
  }

  lemma ExpressMore(rules: seq<Directive>, n: nat, deny: bool, before: set<Key>, added: seq<Key>, after: set<Key>)
    requires n < |rules| && Expresses(rules[..n], deny, before)
    requires after == if rules[n].deny == deny then before + (set k | k in added) else before
    requires forall k :: k in added ==> WellFormed(k) && k.identity == rules[n].rule.identity
    requires forall p :: RuleMatches(rules[n].rule, p) <==> exists k :: k in added && L4Matches(k, p)
    ensures Expresses(rules[..n + 1], deny, after)
  {
    hide RuleMatches, L4Matches, WellFormed;
    var done, more := rules[..n], rules[..n + 1];
    assert forall i :: 0 <= i < n ==> more[i] == done[i];
    assert more[n] == rules[n];
    forall identity, p ensures SomeMatch(after, identity, p) <==> SomeRule(more, deny, identity, p) {
      assert SomeMatch(before, identity, p) <==> SomeRule(done, deny, identity, p);
      if SomeRule(more, deny, identity, p) && !SomeRule(done, deny, identity, p) {
        var k :| k in added && L4Matches(k, p);
        assert k in after;
      }
      if SomeRule(done, deny, identity, p) {
        var i :| && 0 <= i < n && done[i].deny == deny
                 && done[i].rule.identity == identity && RuleMatches(done[i].rule, p);
        assert more[i] == done[i];
        var k :| k in before && k.identity == identity && L4Matches(k, p);
        assert k in after;
      }
      if SomeMatch(after, identity, p) {
        var k :| k in after && k.identity == identity && L4Matches(k, p);
        if k in before {
          assert SomeMatch(before, identity, p);
        } else {
          assert RuleMatches(more[n].rule, p);
        }
      }
    }
  }

  lemma WildcardAdds(ruled: set<Key>, allows: set<Key>, defaultDeny: bool)
    requires AllWellFormed(ruled) && allows == if defaultDeny then ruled else ruled + {Key(0, 0, 0, 0)}
    ensures AllWellFormed(allows)
    ensures forall identity, p ::
              SomeMatch(allows, identity, p) <==> SomeMatch(ruled, identity, p) || (!defaultDeny && identity == 0)
  {
    hide Matches;
    forall identity, p
      ensures SomeMatch(allows, identity, p) <==> SomeMatch(ruled, identity, p) || (!defaultDeny && identity == 0)
    {
      if !defaultDeny { assert Key(0, 0, 0, 0) in allows && L4Matches(Key(0, 0, 0, 0), p); }
    }
  }

  lemma VerdictsAgree(rules: seq<Directive>, defaultDeny: bool, ruled: set<Key>, allows: set<Key>, denies: set<Key>,
                      remote: u32, group: u32, p: Packet)
    requires Expresses(rules, false, ruled) && Expresses(rules, true, denies)
    requires forall identity, p ::
               SomeMatch(allows, identity, p) <==> SomeMatch(ruled, identity, p) || (!defaultDeny && identity == 0)
    ensures Verdict(allows, denies, remote, group, p) <==> RuleVerdict(rules, defaultDeny, remote, group, p)
  {
    hide SomeMatch, SomeRule;
  }

  /** The map decides every packet of an endpoint's direction as its rules say. */
  ghost predicate Enforces(trie: Trie, endpoint: u32, egress: bool, rules: seq<Directive>, defaultDeny: bool)
  {
    forall remote, clusterId, p ::
      Allowed(trie, endpoint, remote, egress, p, clusterId) <==>
      RuleVerdict(rules, defaultDeny, remote, Aggregate(remote, clusterId), p)
  }

  /** One allow for a group under default deny lets in exactly the packets of the
      rule from the group's own number and from its members. */
  lemma GroupAllows(trie: Trie, endpoint: u32, egress: bool, rule: Rule, remote: u32, clusterId: u32, p: Packet)
    requires Enforces(trie, endpoint, egress, [Directive(rule, false)], true) && 11 <= rule.identity <= 14
    ensures Allowed(trie, endpoint, remote, egress, p, clusterId) <==>
            RuleMatches(rule, p) && (remote == rule.identity || Member(rule.identity, remote, clusterId))
  {
    hide Aggregate, Allowed, RuleMatches, Member;
    var rules := [Directive(rule, false)];
    assert forall identity ::
      SomeRule(rules, false, identity, p) <==> identity == rule.identity && RuleMatches(rule, p)
      by { OneRule(rule, p); }
    assert forall identity :: !SomeRule(rules, true, identity, p);
    assert Allowed(trie, endpoint, remote, egress, p, clusterId) <==>
           RuleVerdict(rules, true, remote, Aggregate(remote, clusterId), p);
    if 11 <= remote <= 14 {
      GroupOfGroup(remote, clusterId);
      NotMember(rule.identity, remote, clusterId);
    } else {
      GroupsExactly(rule.identity, remote, clusterId);
    }
  }

  lemma OneRule(rule: Rule, p: Packet)
    ensures forall identity ::
              SomeRule([Directive(rule, false)], false, identity, p) <==>
              identity == rule.identity && RuleMatches(rule, p)
  {
    hide RuleMatches;
    var rules := [Directive(rule, false)];
    assert rules[0] == Directive(rule, false);
  }

  lemma GroupOfGroup(group: u32, clusterId: u32)
    requires 11 <= group <= 14
    ensures Aggregate(group, clusterId) == group
  {
  }

  lemma NotMember(group: u32, identity: u32, clusterId: u32)
    requires 11 <= group <= 14 && 11 <= identity <= 14
    ensures !Member(group, identity, clusterId)
  {
  }

  /** Rules to entries for one endpoint's direction: every packet is decided as
      the rules say, and no other entry changes. */
  method EnforceDirection(before: Trie, endpoint: u32, egress: bool, rules: seq<Directive>, defaultDeny: bool,
                          allowPrecedence: u32) returns (after: Trie, count: nat)
    requires OnlyWrite(before, endpoint, egress) && allowPrecedence < MAX_PRECEDENCE
    requires forall i :: 0 <= i < |rules| ==> rules[i].rule.range.start <= rules[i].rule.range.end
    ensures Enforces(after, endpoint, egress, rules, defaultDeny)
    ensures forall other: u32, direction, remote, clusterId, p :: (other, direction) != (endpoint, egress) ==>
              (Allowed(after, other, remote, direction, p, clusterId) <==>
               Allowed(before, other, remote, direction, p, clusterId))
    ensures CanonicalTrie(after)
    ensures forall other: u32, direction ::
              (other, direction) != (endpoint, egress) && OnlyWrite(before, other, direction) ==>
                OnlyWrite(after, other, direction)
  {
    hide L4Matches, RuleMatches, WellFormed, Aggregate, Allowed, SomeMatch, SomeRule, Lowered, Written, CanonicalTrie;
    var allows: set<Key>, denies: set<Key> := {}, {};
    ExpressNothing();
    assert rules[..0] == [];
    for i := 0 to |rules|
      invariant Expresses(rules[..i], false, allows)
      invariant Expresses(rules[..i], true, denies)
    {
      var keys := L4Keys(rules[i].rule);
      var more := set k | k in keys;
      ExpressMore(rules, i, false, allows, keys, if rules[i].deny then allows else allows + more);
      ExpressMore(rules, i, true, denies, keys, if rules[i].deny then denies + more else denies);
      if rules[i].deny { denies := denies + more; } else { allows := allows + more; }
    }
    assert rules[..|rules|] == rules;
    ghost var ruled := allows;
    if !defaultDeny { allows := allows + {Key(0, 0, 0, 0)}; }
    WildcardAdds(ruled, allows, defaultDeny);
    var kept, out := DenyOverAllow(allows, denies);
    after, count := WriteEntries(before, endpoint, egress, kept, out, allowPrecedence);
    forall remote, clusterId, p
      ensures Allowed(after, endpoint, remote, egress, p, clusterId) <==>
              RuleVerdict(rules, defaultDeny, remote, Aggregate(remote, clusterId), p)
    {
      DenyWins(before, after, endpoint, egress, allows, denies, kept, out, allowPrecedence, remote, clusterId, p);
      VerdictsAgree(rules, defaultDeny, ruled, allows, denies, remote, Aggregate(remote, clusterId), p);
    }
    forall other: u32, direction, remote, clusterId, p | (other, direction) != (endpoint, egress)
      ensures Allowed(after, other, remote, direction, p, clusterId) <==>
              Allowed(before, other, remote, direction, p, clusterId)
    {
      VerdictIsolated(before, after, endpoint, egress, kept, out, allowPrecedence,
                      other, direction, remote, clusterId, p);
    }
    StillUnwritten(before, after, endpoint, egress, kept, out, allowPrecedence);
  }
}
