/** Policy entries and the longest-prefix map that holds them: looking up and
    writing (crates/flowsdn-bpf-abi/src/policy.rs:65-115,
    crates/flowsdn-agent/src/policy.rs:715-758). */
module PolicyTrie {
  import opened Bytes
  import opened Ports
  import opened PolicyLowering
  import opened PolicyKeys

  const MAX_PRECEDENCE: u32 := U32_MAX

  // ---------- entries ----------

  datatype Entry = Entry(proxyPort: u16, flags: byte, auth: byte, precedence: u32, cookie: u32)

  function NewEntry(proxyPort: u16, deny: bool, lpm: byte, authType: byte, explicitAuth: bool,
                    precedence: u32, cookie: u32): Option<Entry>
  {
    if !(lpm == 0 || 8 <= lpm <= 24) || authType > 127 then None
    else Some(Entry(proxyPort, Flag(deny) + 8 * lpm, authType + 128 * Flag(explicitAuth), precedence, cookie))
  }

  /** An entry is made exactly for a prefix length of zero or of a protocol and any
      bits of a port, and an authentication type of seven bits; each field is read
      back from its own bits. */
  lemma EntryExactly(proxyPort: u16, deny: bool, lpm: byte, authType: byte, explicitAuth: bool,
                     precedence: u32, cookie: u32)
    ensures var r := NewEntry(proxyPort, deny, lpm, authType, explicitAuth, precedence, cookie);
            && (r.Some? <==> (lpm == 0 || (lpm >= 8 && lpm - 8 <= 16)) && authType < 128)
            && (r.Some? ==>
                  && r.value.flags as int == (if deny then 1 else 0) + 8 * lpm as int
                  && r.value.auth as int == authType as int + (if explicitAuth then 128 else 0)
                  && Denies(r.value) == deny && LpmLength(r.value) == lpm
                  && AuthType(r.value) == authType && ExplicitAuth(r.value) == explicitAuth
                  && r.value.precedence == precedence && r.value.proxyPort == proxyPort && r.value.cookie == cookie)
  {
  }

  predicate Denies(e: Entry) { e.flags % 2 == 1 }

  function LpmLength(e: Entry): byte { e.flags / 8 }

  function AuthType(e: Entry): byte { e.auth % 128 }

  predicate ExplicitAuth(e: Entry) { e.auth >= 128 }

  /** The value written for a rule key. */
  function EntryOf(k: Key, deny: bool, allowPrecedence: u32): Entry
    requires WellFormed(k)
  {
    NewEntry(0, deny, if k.protocol == 0 then 0 else k.prefix + 8, 0, false,
             if deny then MAX_PRECEDENCE else allowPrecedence, 0).value
  }

  /** Entries carry their verdict, no authentication and the L4 prefix length. */
  lemma EntryCarries(k: Key, deny: bool, allowPrecedence: u32)
    requires WellFormed(k)
    ensures var e := EntryOf(k, deny, allowPrecedence);
            && Denies(e) == deny && AuthType(e) == 0 && !ExplicitAuth(e)
            && LpmLength(e) == (if k.protocol == 0 then 0 else k.prefix + 8)
            && e.precedence == (if deny then MAX_PRECEDENCE else allowPrecedence)
            && e.flags as int % 8 == (if deny then 1 else 0) && e.flags as int / 8 == LpmLength(e)
            && e.auth == 0 && e.proxyPort == 0 && e.cookie == 0
  {
  }

  /** Rule keys with one map key have one entry. */
  lemma EntryOfKey(endpoint: u32, egress: bool, a: Key, b: Key, deny: bool, precedence: u32)
    requires WellFormed(a) && WellFormed(b) && Encoded(endpoint, egress, a) == Encoded(endpoint, egress, b)
    ensures EntryOf(a, deny, precedence) == EntryOf(b, deny, precedence)
    ensures a.identity == b.identity && a.protocol == b.protocol && a.prefix == b.prefix
  {
  }

  // ---------- the longest match ----------

  type Trie = map<EndpointKey, Entry>

  ghost predicate Longest(trie: Trie, sought: EndpointKey, k: EndpointKey)
  {
    k in trie && Hits(k, sought) && forall o :: o in trie && Hits(o, sought) ==> o.prefixlen <= k.prefixlen
  }

  /** A full-length lookup: the entry of a longest key that holds the fields. */
  ghost function Lookup(trie: Trie, endpoint: u32, identity: u32, egress: bool, p: Packet): Option<Entry>
  {
    var sought := Sought(endpoint, identity, egress, p);
    if exists k :: Longest(trie, sought, k) then
      var k :| Longest(trie, sought, k);
      Some(trie[k])
    else None
  }

  lemma {:induction false} LongestExists(trie: Trie, sought: EndpointKey, k: EndpointKey)
    requires k in trie && Hits(k, sought)
    ensures exists o :: Longest(trie, sought, o)
    decreases 96 - k.prefixlen
  {
    hide Hits;
    assert k.prefixlen <= 96 by { HitLength(k, sought); }
    if o :| o in trie && Hits(o, sought) && o.prefixlen > k.prefixlen {
      HitLength(o, sought);
      LongestExists(trie, sought, o);
    } else {
      assert Longest(trie, sought, k);
    }
  }

  /** What a successful lookup returns. */
  lemma LookupTakes(trie: Trie, endpoint: u32, identity: u32, egress: bool, p: Packet) returns (k: EndpointKey)
    requires exists o :: Longest(trie, Sought(endpoint, identity, egress, p), o)
    ensures Longest(trie, Sought(endpoint, identity, egress, p), k)
    ensures Lookup(trie, endpoint, identity, egress, p) == Some(trie[k])
  {
    hide Hits;
    var sought := Sought(endpoint, identity, egress, p);
    k :| Longest(trie, sought, k) && Lookup(trie, endpoint, identity, egress, p) == Some(trie[k]);
  }

  lemma LookupNothing(trie: Trie, endpoint: u32, identity: u32, egress: bool, p: Packet)
    requires !exists k :: Longest(trie, Sought(endpoint, identity, egress, p), k)
    ensures Lookup(trie, endpoint, identity, egress, p) == None
  {
  }

  // ---------- writing the entries ----------

  /** What the trie holds at the key of some rule key, if anything was written there. */
  ghost predicate WrittenAt(endpoint: u32, egress: bool, keys: set<Key>, at: EndpointKey, k: Key)
  {
    k in keys && WellFormed(k) && Encoded(endpoint, egress, k) == at
  }

  /** The trie after writing: an allow's entry at each allow's key, then a
      deny's at each deny's, replacing an allow there; the rest as before. */
  ghost predicate Written(before: Trie, after: Trie, endpoint: u32, egress: bool,
                          allows: set<Key>, denies: set<Key>, allowPrecedence: u32)
  {
    && before.Keys <= after.Keys
    && (forall k :: k in denies && WellFormed(k) ==>
          && Encoded(endpoint, egress, k) in after
          && after[Encoded(endpoint, egress, k)] == EntryOf(k, true, allowPrecedence))
    && (forall k :: k in allows && WellFormed(k) ==>
          && Encoded(endpoint, egress, k) in after
          && ((exists d :: WrittenAt(endpoint, egress, denies, Encoded(endpoint, egress, k), d))
              || after[Encoded(endpoint, egress, k)] == EntryOf(k, false, allowPrecedence)))
    && (forall at :: at in after ==>
          || (exists k :: WrittenAt(endpoint, egress, allows + denies, at, k))
          || (at in before && after[at] == before[at]))
  }

  function Put(trie: Trie, endpoint: u32, egress: bool, k: Key, deny: bool, allowPrecedence: u32): Trie
  {
    if WellFormed(k) then trie[Encoded(endpoint, egress, k) := EntryOf(k, deny, allowPrecedence)] else trie
  }

  lemma WriteAllow(before: Trie, t: Trie, endpoint: u32, egress: bool, allows: set<Key>, k: Key, precedence: u32)
    requires Written(before, t, endpoint, egress, allows, {}, precedence)
    ensures Written(before, Put(t, endpoint, egress, k, false, precedence), endpoint, egress,
                    allows + {k}, {}, precedence)
  {
    hide Encoded, EntryOf;
    var after := Put(t, endpoint, egress, k, false, precedence);
    forall a | a in allows + {k} && WellFormed(a)
      ensures Encoded(endpoint, egress, a) in after
      ensures after[Encoded(endpoint, egress, a)] == EntryOf(a, false, precedence)
    {
      assert !exists d :: WrittenAt(endpoint, egress, {}, Encoded(endpoint, egress, a), d);
      if WellFormed(k) && Encoded(endpoint, egress, a) == Encoded(endpoint, egress, k) {
        EntryOfKey(endpoint, egress, a, k, false, precedence);
      }
    }
    forall at | at in after
      ensures || (exists x :: WrittenAt(endpoint, egress, allows + {k} + {}, at, x))
              || (at in before && after[at] == before[at])
    {
      if WellFormed(k) && at == Encoded(endpoint, egress, k) {
        assert WrittenAt(endpoint, egress, allows + {k} + {}, at, k);
      } else if x :| WrittenAt(endpoint, egress, allows + {}, at, x) {
        assert WrittenAt(endpoint, egress, allows + {k} + {}, at, x);
      }
    }
  }

  lemma WriteDeny(before: Trie, t: Trie, endpoint: u32, egress: bool, allows: set<Key>, denies: set<Key>,
                  k: Key, precedence: u32)
    requires Written(before, t, endpoint, egress, allows, denies, precedence)
    ensures Written(before, Put(t, endpoint, egress, k, true, precedence), endpoint, egress,
                    allows, denies + {k}, precedence)
  {
    hide Encoded, EntryOf;
    var after := Put(t, endpoint, egress, k, true, precedence);
    var more := denies + {k};
    forall d | d in more && WellFormed(d)
      ensures Encoded(endpoint, egress, d) in after
      ensures after[Encoded(endpoint, egress, d)] == EntryOf(d, true, precedence)
    {
      if WellFormed(k) && Encoded(endpoint, egress, d) == Encoded(endpoint, egress, k) {
        EntryOfKey(endpoint, egress, d, k, true, precedence);
      }
    }
    forall a | a in allows && WellFormed(a)
      ensures Encoded(endpoint, egress, a) in after
      ensures || (exists d :: WrittenAt(endpoint, egress, more, Encoded(endpoint, egress, a), d))
              || after[Encoded(endpoint, egress, a)] == EntryOf(a, false, precedence)
    {
      var at := Encoded(endpoint, egress, a);
      if d :| WrittenAt(endpoint, egress, denies, at, d) {
        assert WrittenAt(endpoint, egress, more, at, d);
      } else if WellFormed(k) && at == Encoded(endpoint, egress, k) {
        assert WrittenAt(endpoint, egress, more, at, k);
      }
    }
    forall at | at in after
      ensures || (exists x :: WrittenAt(endpoint, egress, allows + more, at, x))
              || (at in before && after[at] == before[at])
    {
      if WellFormed(k) && at == Encoded(endpoint, egress, k) {
        assert WrittenAt(endpoint, egress, allows + more, at, k);
      } else if x :| WrittenAt(endpoint, egress, allows + denies, at, x) {
        assert WrittenAt(endpoint, egress, allows + more, at, x);
      }
    }
  }

  lemma WrittenNothing(before: Trie, endpoint: u32, egress: bool, precedence: u32)
    ensures Written(before, before, endpoint, egress, {}, {}, precedence)
  {
  }

  lemma InsertedSize(trie: Trie, at: EndpointKey, value: Entry)
    ensures |trie[at := value]| == |trie| + if at in trie then 0 else 1
  {
    var after := trie[at := value];
    assert after.Keys == trie.Keys + {at};
    assert |after| == |after.Keys| && |trie| == |trie.Keys|;
  }

  method WriteOne(trie: Trie, endpoint: u32, egress: bool, k: Key, deny: bool, allowPrecedence: u32, count: nat)
    returns (after: Trie, newCount: nat)
    ensures after == Put(trie, endpoint, egress, k, deny, allowPrecedence)
    ensures newCount - count == |after| - |trie|
  {
    hide Masked;
    after, newCount := trie, count;
    var key := NewPolicyKey(k.identity, egress, k.protocol, k.port, k.prefix);
    if key.None? { return; }
    var lpm: byte := if k.protocol == 0 then 0 else k.prefix + 8;
    var value := NewEntry(0, deny, lpm, 0, false, if deny then MAX_PRECEDENCE else allowPrecedence, 0);
    if value.None? { return; }
    var at := ForEndpoint(endpoint, key.value);
    if at !in trie { newCount := count + 1; }
    after := trie[at := value.value];
    InsertedSize(trie, at, value.value);
  }

  /** One endpoint direction's entries, allows first; the number of new keys. */
  method WriteEntries(before: Trie, endpoint: u32, egress: bool, allows: set<Key>, denies: set<Key>,
                      allowPrecedence: u32) returns (after: Trie, count: nat)
    ensures Written(before, after, endpoint, egress, allows, denies, allowPrecedence)
    ensures count == |after| - |before|
  {
    hide Encoded, EntryOf, Written, WellFormed;
    after, count := before, 0;
    WrittenNothing(before, endpoint, egress, allowPrecedence);
    var todo := allows;
    assert allows - todo == {};
    while todo != {}
      invariant todo <= allows
      invariant Written(before, after, endpoint, egress, allows - todo, {}, allowPrecedence)
      invariant count == |after| - |before|
      decreases |todo|
    {
      var k :| k in todo;
      WriteAllow(before, after, endpoint, egress, allows - todo, k, allowPrecedence);
      assert allows - (todo - {k}) == (allows - todo) + {k};
      todo := todo - {k};
      after, count := WriteOne(after, endpoint, egress, k, false, allowPrecedence, count);
    }
    assert allows - todo == allows;
    todo := denies;
    assert denies - todo == {};
    while todo != {}
      invariant todo <= denies
      invariant Written(before, after, endpoint, egress, allows, denies - todo, allowPrecedence)
      invariant count == |after| - |before|
      decreases |todo|
    {
      var k :| k in todo;
      WriteDeny(before, after, endpoint, egress, allows, denies - todo, k, allowPrecedence);
      assert denies - (todo - {k}) == (denies - todo) + {k};
      todo := todo - {k};
      after, count := WriteOne(after, endpoint, egress, k, true, allowPrecedence, count);
    }
    assert denies - todo == denies;
  }

  // ---------- what a write leaves alone ----------

  /** Every key is some rule's. */
  ghost predicate CanonicalTrie(trie: Trie) { forall at :: at in trie ==> CanonicalKey(at) }

  /** What was written for an endpoint's direction into a trie without entries of it. */
  ghost predicate OnlyWrite(before: Trie, endpoint: u32, egress: bool)
  {
    && CanonicalTrie(before)
    && forall at :: at in before ==> !(at.endpoint == endpoint && at.egress == Flag(egress))
  }

  lemma WrittenCanonical(before: Trie, after: Trie, endpoint: u32, egress: bool, allows: set<Key>, denies: set<Key>,
                         precedence: u32)
    requires CanonicalTrie(before) && Written(before, after, endpoint, egress, allows, denies, precedence)
    ensures CanonicalTrie(after)
  {
    hide Encoded, EntryOf, CanonicalKey;
    forall at | at in after ensures CanonicalKey(at) {
      if k :| WrittenAt(endpoint, egress, allows + denies, at, k) {
        EncodedCanonical(endpoint, egress, k);
      }
    }
  }

  /** Every hit of this endpoint's direction was written by this call. */
  lemma HitIsWritten(before: Trie, trie: Trie, endpoint: u32, egress: bool, kept: set<Key>, out: set<Key>,
                     precedence: u32, identity: u32, p: Packet, at: EndpointKey) returns (k: Key)
    requires OnlyWrite(before, endpoint, egress)
    requires Written(before, trie, endpoint, egress, kept, out, precedence)
    requires at in trie && Hits(at, Sought(endpoint, identity, egress, p))
    ensures WrittenAt(endpoint, egress, kept + out, at, k) && k.identity == identity && L4Matches(k, p)
  {
    hide Encoded, EntryOf, L4Matches, TrieBytes, SamePrefix;
    if at in before && !exists k :: WrittenAt(endpoint, egress, kept + out, at, k) {
      LongHit(at, Sought(endpoint, identity, egress, p));
      assert false;
    }
    k :| WrittenAt(endpoint, egress, kept + out, at, k);
    EncodedHits(endpoint, egress, k, endpoint, identity, egress, p);
  }

  /** A written rule that matches is hit. */
  lemma MatchHits(before: Trie, trie: Trie, endpoint: u32, egress: bool, kept: set<Key>, out: set<Key>,
                  precedence: u32, k: Key, p: Packet)
    requires Written(before, trie, endpoint, egress, kept, out, precedence)
    requires k in kept + out && WellFormed(k) && L4Matches(k, p)
    ensures Encoded(endpoint, egress, k) in trie
    ensures Hits(Encoded(endpoint, egress, k), Sought(endpoint, k.identity, egress, p))
  {
    hide Encoded, EntryOf, L4Matches, Hits;
    EncodedHits(endpoint, egress, k, endpoint, k.identity, egress, p);
  }

  lemma OthersKept(before: Trie, after: Trie, endpoint: u32, egress: bool, kept: set<Key>, out: set<Key>,
                   precedence: u32)
    requires OnlyWrite(before, endpoint, egress) && Written(before, after, endpoint, egress, kept, out, precedence)
    ensures forall at :: at in before ==> at in after && after[at] == before[at]
  {
    hide EntryOf, Masked;
    forall at | at in before ensures at in after && after[at] == before[at] {
      if k :| WrittenAt(endpoint, egress, kept + out, at, k) {
        assert false;
      }
    }
  }

  lemma ForeignHit(before: Trie, after: Trie, endpoint: u32, egress: bool, allows: set<Key>, denies: set<Key>,
                   precedence: u32, sought: EndpointKey, at: EndpointKey)
    requires Written(before, after, endpoint, egress, allows, denies, precedence) && CanonicalTrie(before)
    requires at in after && Hits(at, sought) && sought.egress <= 1
    requires (sought.endpoint, sought.egress) != (endpoint, Flag(egress))
    ensures at in before
  {
    hide EntryOf, Hits, Masked;
    if at !in before {
      var k :| WrittenAt(endpoint, egress, allows + denies, at, k);
      LongHit(at, sought);
      assert false;
    }
  }

  /** Writing one endpoint's direction leaves every other lookup as it was. */
  lemma LookupIsolated(before: Trie, after: Trie, endpoint: u32, egress: bool, allows: set<Key>, denies: set<Key>,
                       precedence: u32, other: u32, direction: bool, identity: u32, p: Packet)
    requires OnlyWrite(before, endpoint, egress)
    requires Written(before, after, endpoint, egress, allows, denies, precedence)
    requires (other, direction) != (endpoint, egress)
    ensures Lookup(after, other, identity, direction, p) == Lookup(before, other, identity, direction, p)
  {
    hide Encoded, EntryOf, Hits, Written, CanonicalKey, Lookup;
    var sought := Sought(other, identity, direction, p);
    WrittenCanonical(before, after, endpoint, egress, allows, denies, precedence);
    OthersKept(before, after, endpoint, egress, allows, denies, precedence);
    forall at | at in after && Hits(at, sought) ensures at in before {
      ForeignHit(before, after, endpoint, egress, allows, denies, precedence, sought, at);
    }
    if exists a :: Longest(before, sought, a) {
      var a := LookupTakes(before, other, identity, direction, p);
      assert Longest(after, sought, a);
      var b := LookupTakes(after, other, identity, direction, p);
      LongestUnique(a, b, sought);
    } else {
      assert forall b :: Longest(after, sought, b) ==> Longest(before, sought, b);
      LookupNothing(before, other, identity, direction, p);
      LookupNothing(after, other, identity, direction, p);
    }
  }

  /** Other endpoints and directions are still to be written. */
  lemma StillUnwritten(before: Trie, after: Trie, endpoint: u32, egress: bool, kept: set<Key>, out: set<Key>,
                       precedence: u32)
    requires OnlyWrite(before, endpoint, egress) && Written(before, after, endpoint, egress, kept, out, precedence)
    ensures CanonicalTrie(after)
    ensures forall other: u32, direction ::
              (other, direction) != (endpoint, egress) && OnlyWrite(before, other, direction) ==>
                OnlyWrite(after, other, direction)
  {
    hide EntryOf, Masked, CanonicalTrie;
    WrittenCanonical(before, after, endpoint, egress, kept, out, precedence);
  }
}
