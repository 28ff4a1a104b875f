/** The rewrite that makes "deny wins" a longest-prefix question
    (crates/flowsdn-agent/src/policy.rs:573-617, 703-715). */
module PolicyLowering {
  import opened Bytes
  import opened Arith
  import opened Ports

  /** A rule key before encoding; protocol 0 is every L4. */
  datatype Key = Key(identity: u32, protocol: byte, port: u16, prefix: byte)

  datatype Packet = Packet(protocol: byte, port: u16)

  /** Keys as rules produce them. */
  predicate WellFormed(k: Key)
  {
    k.prefix <= 16 && (k.protocol == 0 ==> k.port == 0 && k.prefix == 0)
  }

  ghost predicate AllWellFormed(keys: set<Key>) { forall k :: k in keys ==> WellFormed(k) }

  predicate L4Holds(outer: Key, inner: Key)
  {
    || outer.protocol == 0
    || (&& outer.protocol == inner.protocol
        && outer.prefix <= inner.prefix
        && Matches(PortBlock(outer.port, outer.prefix), inner.port))
  }

  predicate L4Matches(k: Key, p: Packet)
  {
    k.protocol == 0 || (k.protocol == p.protocol && Matches(PortBlock(k.port, k.prefix), p.port))
  }

  /** Sound: a held key's packets are the holder's. */
  lemma HoldsSubset(outer: Key, inner: Key, p: Packet)
    requires WellFormed(outer) && WellFormed(inner) && L4Holds(outer, inner) && L4Matches(inner, p)
    ensures L4Matches(outer, p)
  {
    if outer.protocol != 0 { ShorterAgrees(p.port, inner.port, outer.prefix, inner.prefix); }
  }

  /** Complete: a key whose packets are all the other's is held. */
  lemma SubsetHolds(outer: Key, inner: Key)
    requires WellFormed(outer) && WellFormed(inner)
    requires forall p :: L4Matches(inner, p) ==> L4Matches(outer, p)
    ensures L4Holds(outer, inner)
  {
    hide Masked;
    if outer.protocol != 0 {
      var other: byte := if outer.protocol == 1 then 2 else 1;
      assert inner.protocol == 0 ==> L4Matches(inner, Packet(other, 0));
      assert L4Matches(inner, Packet(inner.protocol, inner.port));
      assert L4Matches(outer, Packet(inner.protocol, inner.port));
      forall port | Matches(PortBlock(inner.port, inner.prefix), port)
        ensures Matches(PortBlock(outer.port, outer.prefix), port)
      {
        assert L4Matches(inner, Packet(inner.protocol, port));
      }
      if outer.prefix > inner.prefix {
        var low, high := TwoPorts(inner.port, inner.prefix, outer.prefix);
      }
    }
  }

  /** A larger block holds two ports that a smaller block tells apart. */
  lemma TwoPorts(port: u16, large: nat, small: nat) returns (low: u16, high: u16)
    requires large < small <= 16
    ensures Matches(PortBlock(port, large), low) && Matches(PortBlock(port, large), high)
    ensures Masked(low, small) != Masked(high, small)
  {
    hide Pow2;
    var s, t := Size(large), Size(small);
    Pow2Factor(16 - small, 16 - large);
    DivMod(port, s);
    BlockEnd(port, large);
    low := port - port % s;
    high := low + t;
    MultipleMod(s, port / s);
    BlockInterval(PortBlock(low, large), low);
    BlockInterval(PortBlock(low, large), high);
    BlockInterval(PortBlock(low, large), port);
    DividesFactor(low, t, Pow2(small - large));
    BlockInterval(PortBlock(low, small), low);
    BlockInterval(PortBlock(low, small), high);
  }

  /** An aligned block of a 16-bit port ends within 16 bits. */
  lemma BlockEnd(port: u16, prefix: nat)
    requires prefix <= 16
    ensures port - port % Size(prefix) + Size(prefix) <= 0x10000
  {
    hide Pow2;
    var s := Size(prefix);
    DivMod(port, s);
    Pow2Factor(16 - prefix, 16);
    assert Pow2(16) == 0x10000 by { Pow2Sixteen(); }
    MulCancel(s, port / s, Pow2(prefix));
    MulStrict(s, port / s, Pow2(prefix));
  }

  lemma Pow2Sixteen()
    ensures Pow2(16) == 0x10000
  {
    assert Pow2(8) == 256;
    Pow2Sum(8, 8);
  }

  /** Keys that share a packet are nested. */
  lemma SharedNested(a: Key, b: Key, p: Packet)
    requires WellFormed(a) && WellFormed(b) && L4Matches(a, p) && L4Matches(b, p)
    ensures L4Holds(a, b) || L4Holds(b, a)
  {
    if a.protocol != 0 && b.protocol != 0 {
      if a.prefix <= b.prefix {
        ShorterAgrees(p.port, b.port, a.prefix, b.prefix);
      } else {
        ShorterAgrees(p.port, a.port, b.prefix, a.prefix);
      }
    }
  }

  // ---------- the rewrite ----------

  /** Denies that bear on an allow: of its identity or of every identity. */
  predicate Governs(deny: Key, allow: Key) { deny.identity == allow.identity || deny.identity == 0 }

  function Copied(deny: Key, allow: Key): Key { deny.(identity := allow.identity) }

  predicate Covers(deny: Key, allow: Key) { Governs(deny, allow) && L4Holds(deny, allow) }

  predicate Inside(deny: Key, allow: Key) { Governs(deny, allow) && L4Holds(allow, deny) }

  /** What the rewrite leaves, whatever order the sets are walked in. */
  ghost predicate Lowered(allows: set<Key>, denies: set<Key>, kept: set<Key>, out: set<Key>)
  {
    && (forall a :: a in kept <==> a in allows && forall d :: d in denies ==> !Covers(d, a))
    && denies <= out
    && (forall a, d :: a in kept && d in denies && Inside(d, a) ==> Copied(d, a) in out)
    && (forall k :: k in out ==> k in denies || CopyOf(allows, denies, k))
  }

  ghost predicate CopyOf(allows: set<Key>, denies: set<Key>, k: Key)
  {
    exists a, d :: a in allows && d in denies && Inside(d, a) && k == Copied(d, a)
  }

  /** One allow against every deny: whether it survives, and the denies to add. */
  method AgainstDenies(allow: Key, denies: set<Key>) returns (keep: bool, added: set<Key>)
    ensures keep <==> forall d :: d in denies ==> !Covers(d, allow)
    ensures keep ==> forall d :: d in denies && Inside(d, allow) ==> Copied(d, allow) in added
    ensures forall k :: k in added ==> exists d :: d in denies && Inside(d, allow) && k == Copied(d, allow)
  {
    hide L4Holds;
    added := {};
    var todo := denies;
    while todo != {}
      invariant todo <= denies
      invariant forall d :: d in denies - todo ==> !Covers(d, allow)
      invariant forall d :: d in denies - todo && Inside(d, allow) ==> Copied(d, allow) in added
      invariant forall k :: k in added ==> exists d :: d in denies && Inside(d, allow) && k == Copied(d, allow)
      decreases |todo|
    {
      var deny :| deny in todo;
      todo := todo - {deny};
      if deny.identity != allow.identity && deny.identity != 0 { continue; }
      if L4Holds(deny, allow) {
        assert Covers(deny, allow);
        return false, added;
      }
      if L4Holds(allow, deny) {
        assert Inside(deny, allow);
        added := added + {Copied(deny, allow)};
      }
    }
    keep := true;
  }

  method DenyOverAllow(allows: set<Key>, denies: set<Key>) returns (kept: set<Key>, out: set<Key>)
    ensures Lowered(allows, denies, kept, out)
  {
    hide Covers, Inside;
    kept := {};
    out := denies;
    var todo := allows;
    while todo != {}
      invariant todo <= allows
      invariant Lowered(allows - todo, denies, kept, out)
      decreases |todo|
    {
      var allow :| allow in todo;
      var keep, added := AgainstDenies(allow, denies);
      LoweredStep(allows - todo, allow, denies, kept, out, keep, added);
      assert allows - (todo - {allow}) == (allows - todo) + {allow};
      todo := todo - {allow};
      out := out + added;
      if keep { kept := kept + {allow}; }
    }
    assert allows - {} == allows;
  }

  lemma LoweredStep(done: set<Key>, allow: Key, denies: set<Key>, kept: set<Key>, out: set<Key>,
                    keep: bool, added: set<Key>)
    requires Lowered(done, denies, kept, out)
    requires keep <==> forall d :: d in denies ==> !Covers(d, allow)
    requires keep ==> forall d :: d in denies && Inside(d, allow) ==> Copied(d, allow) in added
    requires forall k :: k in added ==> exists d :: d in denies && Inside(d, allow) && k == Copied(d, allow)
    ensures Lowered(done + {allow}, denies, if keep then kept + {allow} else kept, out + added)
  {
    hide Covers, Inside;
    var after := done + {allow};
    forall k | k in out + added ensures k in denies || CopyOf(after, denies, k) {
      if k in added {
        var d :| d in denies && Inside(d, allow) && k == Copied(d, allow);
        assert allow in after;
      } else if k !in denies {
        var a, d :| a in done && d in denies && Inside(d, a) && k == Copied(d, a);
        assert a in after;
      }
    }
  }

  // ---------- rules ----------

  /** A rule on one identity: a protocol with a port range, or every L4. */
  datatype Rule = Rule(identity: u32, protocol: byte, range: PortRange)

  predicate RuleMatches(rule: Rule, p: Packet)
  {
    rule.protocol == 0 || (rule.protocol == p.protocol && Contains(rule.range, p.port))
  }

  /** The keys of a rule match exactly the rule's packets. */
  method L4Keys(rule: Rule) returns (keys: seq<Key>)
    requires rule.range.start <= rule.range.end
    ensures forall k :: k in keys ==> WellFormed(k) && k.identity == rule.identity
    ensures forall p :: RuleMatches(rule, p) <==> exists k :: k in keys && L4Matches(k, p)
  {
    hide Matches, Tiling;
    if rule.protocol == 0 {
      keys := [Key(rule.identity, 0, 0, 0)];
      assert keys[0] in keys;
      return;
    }
    var blocks := Blocks(rule.range);
    keys := seq(|blocks|, i requires 0 <= i < |blocks| =>
                  Key(rule.identity, rule.protocol, blocks[i].port, blocks[i].prefix));
    assert forall i :: 0 <= i < |blocks| ==> blocks[i] == PortBlock(keys[i].port, keys[i].prefix);
    forall k | k in keys ensures WellFormed(k) && k.identity == rule.identity {
      var i :| 0 <= i < |keys| && keys[i] == k;
      assert Maximal(blocks[i], rule.range.end + 1);
    }
    forall p ensures RuleMatches(rule, p) <==> exists k :: k in keys && L4Matches(k, p) {
      TilingCovers(blocks, rule.range.start, rule.range.end + 1, p.port);
      if RuleMatches(rule, p) {
        var i :| 0 <= i < |blocks| && Matches(blocks[i], p.port);
        assert keys[i] in keys && L4Matches(keys[i], p);
      }
      if k :| k in keys && L4Matches(k, p) {
        var i :| 0 <= i < |keys| && keys[i] == k;
        assert Matches(blocks[i], p.port);
      }
    }
  }
}
