/** Cluster identity allocation on one node
    (crates/flowsdn-agent/src/identity.rs:68-375). A label set is its canonical
    key; the cluster name is fixed for the life of an allocator. */
module Identity {
  import opened Bytes

  type Key = string

  const MIN_ID: u32 := 256
  const MAX_ID: u32 := 65_535
  const SPAN := 65_280

  // ---------- well-known identities ----------

  const EKS := "eks.amazonaws.com/component"
  const NAMESPACE_LABELS := "io.flowsdn.k8s.namespace.labels"
  const METADATA := NAMESPACE_LABELS + ".kubernetes.io/metadata.name"
  const CLUSTER := "io.flowsdn.k8s.policy.cluster"
  const ACCOUNT := "io.flowsdn.k8s.policy.serviceaccount"
  const NAMESPACE := "io.kubernetes.pod.namespace"
  const APP := "k8s-app"

  function Label(key: string, value: string): string { "k8s:" + key + "=" + value + ";" }

  /** The canonical key of a cluster DNS label set, its labels in key order. */
  function DnsKey(account: string, eks: Option<string>, metadata: bool, cluster: string): Key
  {
    (if eks.Some? then Label(EKS, eks.value) else "")
    + (if metadata then Label(METADATA, "kube-system") else "")
    + Label(CLUSTER, cluster) + Label(ACCOUNT, account) + Label(NAMESPACE, "kube-system") + Label(APP, "kube-dns")
  }

  function WellKnown(key: Key, cluster: string): (r: Option<u32>)
    ensures r.Some? ==> Reserved(r.value)
  {
    if key == DnsKey("kube-dns", None, false, cluster) then Some(102)
    else if key == DnsKey("kube-dns", None, true, cluster) then Some(110)
    else if key == DnsKey("kube-dns", Some("kube-dns"), false, cluster) then Some(103)
    else if key == DnsKey("kube-dns", Some("kube-dns"), true, cluster) then Some(111)
    else if key == DnsKey("coredns", None, false, cluster) then Some(104)
    else if key == DnsKey("coredns", None, true, cluster) then Some(112)
    else if key == DnsKey("coredns", Some("coredns"), false, cluster) then Some(106)
    else if key == DnsKey("coredns", Some("coredns"), true, cluster) then Some(114)
    else None
  }

  /** The numbers kept for well-known label sets. */
  predicate Reserved(id: u32) { 102 <= id <= 114 }

  /** The label set of a well-known number: the namespace label adds eight. */
  function WellKnownKey(id: u32, cluster: string): Option<Key>
  {
    var plain := if id >= 110 then id - 8 else id;
    var metadata := id >= 110;
    match plain
    case 102 => Some(DnsKey("kube-dns", None, metadata, cluster))
    case 103 => Some(DnsKey("kube-dns", Some("kube-dns"), metadata, cluster))
    case 104 => Some(DnsKey("coredns", None, metadata, cluster))
    case 106 => Some(DnsKey("coredns", Some("coredns"), metadata, cluster))
    case _ => None
  }

  /** A label set is well known exactly when it is some number's, and then it is
      the label set of the number it gets. */
  lemma WellKnownExactly(key: Key, cluster: string)
    ensures WellKnown(key, cluster).Some? ==> WellKnownKey(WellKnown(key, cluster).value, cluster) == Some(key)
    ensures WellKnown(key, cluster).Some? <==> exists id: u32 :: WellKnownKey(id, cluster) == Some(key)
  {
    hide DnsKey;
    if WellKnown(key, cluster).Some? {
      assert WellKnownKey(WellKnown(key, cluster).value, cluster) == Some(key);
    }
  }

  /** A well-known number names one label set. */
  lemma WellKnownInjective(a: Key, b: Key, cluster: string)
    requires WellKnown(a, cluster).Some? && WellKnown(a, cluster) == WellKnown(b, cluster)
    ensures a == b
  {
    hide DnsKey;
  }

  // ---------- the identity list ----------

  /** `key` is absent when the object's labels are not labels. */
  datatype Object = Object(id: u32, key: Option<Key>, created: string, heartbeat: bool, version: string)

  /** Text order, as creation stamps are compared. */
  predicate TextBefore(a: string, b: string)
    decreases |a|
  {
    b != [] && (a == [] || a[0] < b[0] || (a[0] == b[0] && TextBefore(a[1..], b[1..])))
  }

  lemma {:induction false} TextTotal(a: string, b: string)
    ensures TextBefore(a, b) || a == b || TextBefore(b, a)
    ensures !(TextBefore(a, b) && TextBefore(b, a)) && !TextBefore(a, a)
    decreases |a|
  {
    if a != [] {
      TextTotal(a[1..], a[1..]);
      if b != [] {
        TextTotal(a[1..], b[1..]);
        assert a == [a[0]] + a[1..] && b == [b[0]] + b[1..];
      }
    }
  }

  lemma {:induction false} TextTransitive(a: string, b: string, c: string)
    requires TextBefore(a, b) && TextBefore(b, c)
    ensures TextBefore(a, c)
    decreases |a|
  {
    if a != [] && a[0] == b[0] == c[0] { TextTransitive(a[1..], b[1..], c[1..]); }
  }

  predicate Older(a: Object, b: Object)
  {
    TextBefore(a.created, b.created) || (a.created == b.created && a.id < b.id)
  }

  /** In the order of a dictionary: they differ first at a place where the one ends
      or has the smaller character. */
  ghost predicate Precedes(a: string, b: string)
  {
    exists k: nat :: k <= |a| && k < |b| && a[..k] == b[..k] && (k == |a| || a[k] < b[k])
  }

  lemma {:induction false} TextBeforeExactly(a: string, b: string)
    ensures TextBefore(a, b) <==> Precedes(a, b)
    decreases |a|
  {
    if TextBefore(a, b) {
      if a == [] || a[0] < b[0] {
        assert a[..0] == b[..0];
      } else {
        TextBeforeExactly(a[1..], b[1..]);
        var x, y := a[1..], b[1..];
        var k: nat :| k <= |x| && k < |y| && x[..k] == y[..k] && (k == |x| || x[k] < y[k]);
        assert a[..k + 1] == [a[0]] + x[..k] && b[..k + 1] == [b[0]] + y[..k];
      }
    }
    if k: nat :| k <= |a| && k < |b| && a[..k] == b[..k] && (k == |a| || a[k] < b[k]) {
      if k > 0 {
        var x, y := a[1..], b[1..];
        assert a[0] == a[..k][0] == b[..k][0] == b[0];
        assert x[..k - 1] == a[..k][1..] && y[..k - 1] == b[..k][1..];
        TextBeforeExactly(x, y);
      }
    }
  }

  /** The older object has the earlier creation time, and of equal times the lower
      number. */
  lemma OlderExactly(a: Object, b: Object)
    ensures Older(a, b) <==> Precedes(a.created, b.created) || (a.created == b.created && a.id < b.id)
  {
    TextBeforeExactly(a.created, b.created);
  }

  lemma OlderTransitive(a: Object, b: Object, c: Object)
    requires Older(a, b) && Older(b, c)
    ensures Older(a, c)
  {
    if TextBefore(a.created, b.created) && TextBefore(b.created, c.created) {
      TextTransitive(a.created, b.created, c.created);
    }
  }

  /** One object per number, none at a reserved one. */
  ghost predicate Listing(objects: seq<Object>)
  {
    && (forall i, j :: 0 <= i < j < |objects| ==> objects[i].id != objects[j].id)
    && (forall i :: 0 <= i < |objects| ==> !Reserved(objects[i].id))
  }

  /** The object a label set resolves to: no other of its key is older. */
  ghost predicate IsOldest(objects: seq<Object>, key: Key, o: Object)
  {
    && o in objects && o.key == Some(key)
    && forall p :: p in objects && p.key == Some(key) ==> p == o || Older(o, p)
  }

  function OldestOf(objects: seq<Object>): map<Key, Object>
  {
    if objects == [] then map[] else
    Improve(OldestOf(objects[..|objects| - 1]), objects[|objects| - 1])
  }

  function Improve(found: map<Key, Object>, obj: Object): map<Key, Object>
  {
    if obj.key.None? then found else
    var key := obj.key.value;
    if key !in found || Older(obj, found[key]) then found[key := obj] else found
  }

  method Oldest(objects: seq<Object>) returns (found: map<Key, Object>)
    ensures found == OldestOf(objects)
  {
    found := map[];
    for i := 0 to |objects|
      invariant found == OldestOf(objects[..i])
    {
      var obj := objects[i];
      assert objects[..i + 1][..i] == objects[..i];
      if obj.key.Some? {
        var key := obj.key.value;
        if key !in found { found := found[key := obj]; }
        if Older(obj, found[key]) { found := found[key := obj]; }
        TextTotal(obj.created, obj.created);
      }
    }
    assert objects[..|objects|] == objects;
  }

  lemma {:induction false} OldestExact(objects: seq<Object>, key: Key)
    requires Listing(objects)
    ensures key in OldestOf(objects) <==> exists o :: o in objects && o.key == Some(key)
    ensures key in OldestOf(objects) ==> IsOldest(objects, key, OldestOf(objects)[key])
  {
    if objects != [] {
      var init, last := objects[..|objects| - 1], objects[|objects| - 1];
      OldestExact(init, key);
      var before, after := OldestOf(init), OldestOf(objects);
      assert forall o :: o in objects <==> o in init || o == last;
      if key in before && last.key == Some(key) {
        var o := before[key];
        assert o.id != last.id by { var i :| 0 <= i < |init| && init[i] == o; assert objects[i] == o; }
        TextTotal(o.created, last.created);
        forall p | p in objects && p.key == Some(key) ensures p == after[key] || Older(after[key], p) {
          if p in init && p != o && Older(last, o) { OlderTransitive(last, o, p); }
        }
      } else if last.key == Some(key) {
        assert after[key] == last;
      } else if key in before {
        assert after[key] == before[key];
      }
    }
  }

  /** The oldest object of a label set depends on which objects are listed, not on
      their order. What an agent makes of it is `PassResolvesOldest`. */
  lemma OldestConverges(a: seq<Object>, b: seq<Object>, key: Key)
    requires Listing(a) && Listing(b) && forall o :: o in a <==> o in b
    ensures key in OldestOf(a) <==> key in OldestOf(b)
    ensures key in OldestOf(a) ==> OldestOf(a)[key] == OldestOf(b)[key]
  {
    OldestExact(a, key);
    OldestExact(b, key);
    if key in OldestOf(a) && key in OldestOf(b) {
      var x, y := OldestOf(a)[key], OldestOf(b)[key];
      if x != y {
        assert Older(x, y) && Older(y, x);
        TextTotal(x.created, y.created);
      }
    }
  }

  // ---------- free numbers ----------

  /** The number at an offset of the scan, with the 32-bit wrap of the sum. */
  function Visit(start: u32, offset: nat): (id: u32)
    ensures MIN_ID <= id <= MAX_ID
  {
    MIN_ID + ((start + offset) % 0x1_0000_0000) % SPAN
  }

  function FreeFrom(used: set<u32>, start: u32, offset: nat): Option<u32>
    requires offset <= SPAN
    decreases SPAN - offset
  {
    if offset == SPAN then None
    else if Visit(start, offset) !in used then Some(Visit(start, offset))
    else FreeFrom(used, start, offset + 1)
  }

  function Free(used: set<u32>, start: u32): Option<u32> { FreeFrom(used, start, 0) }

  /** All numbers visited before offset `n` are used and the one there is not. */
  ghost predicate FirstFree(used: set<u32>, start: u32, from: nat, n: nat)
  {
    from <= n < SPAN && Visit(start, n) !in used && forall o :: from <= o < n ==> Visit(start, o) in used
  }

  /** The first unused number of the scan; none only when all it visits are used. */
  lemma {:induction false} FreeIsFirst(used: set<u32>, start: u32, from: nat)
    requires from <= SPAN
    ensures var r := FreeFrom(used, start, from);
            && (r.None? ==> forall o :: from <= o < SPAN ==> Visit(start, o) in used)
            && (r.Some? ==> exists n :: FirstFree(used, start, from, n) && r.value == Visit(start, n))
    decreases SPAN - from
  {
    hide Visit;
    if from < SPAN && Visit(start, from) in used {
      FreeIsFirst(used, start, from + 1);
      var r := FreeFrom(used, start, from);
      if r.Some? {
        var n :| FirstFree(used, start, from + 1, n) && r.value == Visit(start, n);
        assert FirstFree(used, start, from, n);
      }
    } else if from < SPAN {
      assert FirstFree(used, start, from, from);
    }
  }

  ghost predicate Full(used: set<u32>) { forall id: u32 :: MIN_ID <= id <= MAX_ID ==> id in used }

  /** Without wrap-around every number of the range is visited. */
  lemma VisitsAll(start: u32, id: u32) returns (offset: nat)
    requires start <= 0x1_0000_0000 - SPAN && MIN_ID <= id <= MAX_ID
    ensures offset < SPAN && Visit(start, offset) == id
  {
    var r := id - MIN_ID;
    var s := start % SPAN;
    offset := if r >= s then r - s else r - s + SPAN;
    var q := start / SPAN;
    assert start == SPAN * q + s;
    DivModUnique(start + offset, SPAN, if r >= s then q else q + 1, r);
  }

  /** The scan before and after the 32-bit sum wraps; 2^32 leaves 256 over. */
  lemma WrappedVisit(start: u32, o: nat)
    requires start > 0x1_0000_0000 - SPAN && o < SPAN
    ensures var left := 0x1_0000_0000 - start;
            Visit(start, o) - MIN_ID ==
            if o >= left then o - left else if 256 - left + o >= 0 then 256 - left + o else 256 - left + o + SPAN
  {
    var left := 0x1_0000_0000 - start;
    if o >= left {
      DivModUnique(start + o, 0x1_0000_0000, 1, o - left);
    } else if 256 - left + o >= 0 {
      DivModUnique(start + o, SPAN, 65793, 256 - left + o);
    } else {
      DivModUnique(start + o, SPAN, 65792, 256 - left + o + SPAN);
    }
  }

  /** With it, some number never is. */
  lemma NeverVisited(start: u32) returns (id: u32)
    requires start > 0x1_0000_0000 - SPAN
    ensures MIN_ID <= id <= MAX_ID && forall o :: 0 <= o < SPAN ==> Visit(start, o) != id
  {
    hide Visit;
    var left := 0x1_0000_0000 - start;
    id := MIN_ID + if left <= 256 then SPAN - 1 else SPAN + 255 - left;
    forall o | 0 <= o < SPAN ensures Visit(start, o) != id {
      WrappedVisit(start, o);
    }
  }

  /** "None means the range is full" holds for every set exactly up to the start
      where the 32-bit sum wraps within one scan. */
  lemma NoneMeansFull(start: u32)
    ensures (forall used :: Free(used, start).None? ==> Full(used)) <==> start <= 0x1_0000_0000 - SPAN
  {
    hide Visit;
    if start <= 0x1_0000_0000 - SPAN {
      forall used | Free(used, start).None? ensures Full(used) {
        FreeIsFirst(used, start, 0);
        forall id: u32 | MIN_ID <= id <= MAX_ID ensures id in used {
          var offset := VisitsAll(start, id);
        }
      }
    } else {
      var id := NeverVisited(start);
      var used := set o: nat | o < SPAN :: Visit(start, o);
      FreeIsFirst(used, start, 0);
      assert Free(used, start).None?;
      assert id !in used;
    }
  }

  // ---------- one pass ----------

  datatype Held = Held(id: u32, verified: bool, seen: bool)

  datatype Action =
    | Create(id: u32, key: Key)
    | Acquire(id: u32, key: Key, version: string)

  datatype Outcome = Done | Conflict | Failed

  type Holding = map<Key, Held>

  /** The list by number and, oldest first, by label set. */
  datatype View = View(byId: map<u32, Object>, byKey: map<Key, Object>)

  function ById(objects: seq<Object>): map<u32, Object>
  {
    if objects == [] then map[] else
    ById(objects[..|objects| - 1])[objects[|objects| - 1].id := objects[|objects| - 1]]
  }

  function ViewOf(objects: seq<Object>): View { View(ById(objects), OldestOf(objects)) }

  lemma {:induction false} ByIdExact(objects: seq<Object>, id: u32)
    requires Listing(objects)
    ensures id in ById(objects) <==> exists o :: o in objects && o.id == id
    ensures id in ById(objects) ==> ById(objects)[id] in objects && ById(objects)[id].id == id
    ensures forall o :: o in objects && o.id == id ==> id in ById(objects) && ById(objects)[id] == o
  {
    if objects != [] {
      var init, last := objects[..|objects| - 1], objects[|objects| - 1];
      ByIdExact(init, id);
      assert forall o :: o in objects <==> o in init || o == last;
      forall o | o in init ensures o.id != last.id {
        var i :| 0 <= i < |init| && init[i] == o;
        assert objects[i] == o;
      }
    }
  }

  function Retain(held: Holding, desired: set<Key>): Holding
  {
    map key | key in held && key in desired :: held[key]
  }

  function Used(held: Holding, view: View): set<u32>
  {
    view.byId.Keys + set key | key in held :: held[key].id
  }

  datatype Settled = Settled(held: Holding, actions: seq<Action>)

  /** Take the heartbeat annotation off an object this node uses. */
  function Refresh(o: Object, key: Key): seq<Action>
  {
    if o.heartbeat then [Acquire(o.id, key, o.version)] else []
  }

  /** A label set without a number: the listed one, or a lease. */
  function LookUp(held: Holding, key: Key, view: View, start: u32): Settled
  {
    if key in view.byKey then
      var o := view.byKey[key];
      Settled(held[key := Held(o.id, true, true)], Refresh(o, key))
    else match Free(Used(held, view), start)
      case Some(id) => Settled(held[key := Held(id, false, false)], [Create(id, key)])
      case None => Settled(held, [])
  }

  function Settle(held: Holding, key: Key, view: View, cluster: string, start: u32): Settled
  {
    if WellKnown(key, cluster).Some? then
      Settled(held[key := Held(WellKnown(key, cluster).value, true, true)], [])
    else if key !in held then LookUp(held, key, view, start)
    else
      var h := held[key];
      if h.id in view.byId then
        if view.byId[h.id].key == Some(key) then
          Settled(held[key := Held(h.id, true, true)], Refresh(view.byId[h.id], key))
        else LookUp(held - {key}, key, view, start)
      else Settled(held, if h.seen then [Create(h.id, key)] else [])
  }

  function SettleAll(held: Holding, order: seq<Key>, view: View, cluster: string, start: u32): Settled
  {
    if order == [] then Settled(held, []) else
    var before := SettleAll(held, order[..|order| - 1], view, cluster, start);
    var last := Settle(before.held, order[|order| - 1], view, cluster, start);
    Settled(last.held, before.actions + last.actions)
  }

  /** One pass over the label sets of this node's Pods, in any order. */
  function Pass(held: Holding, order: seq<Key>, objects: seq<Object>, cluster: string, start: u32): Settled
  {
    SettleAll(Retain(held, Members(order)), order, ViewOf(objects), cluster, start)
  }

  /** How a create ended. */
  function Record(held: Holding, key: Key, id: u32, outcome: Outcome): Holding
  {
    if key !in held || held[key].id != id then held
    else if outcome == Done then held[key := held[key].(verified := true)]
    else if !held[key].verified then held - {key}
    else held
  }

  function Reported(held: Holding, key: Key): Option<u32>
  {
    if key in held && held[key].verified then Some(held[key].id) else None
  }

  // ---------- what a pass keeps ----------

  ghost predicate Distinct(held: Holding)
  {
    forall a, b :: a in held && b in held && held[a].id == held[b].id ==> a == b
  }

  /** Reserved numbers are held exactly for their well-known label sets. */
  predicate InClass(key: Key, id: u32, cluster: string)
  {
    match WellKnown(key, cluster)
    case Some(known) => id == known
    case None => !Reserved(id)
  }

  /** What every state of an allocator has. */
  ghost predicate Lawful(held: Holding, cluster: string)
  {
    Distinct(held) && forall key :: key in held ==> InClass(key, held[key].id, cluster)
  }

  /** A number against the list: unlisted, or listed with exactly this label set. */
  predicate Consistent(key: Key, id: u32, view: View)
  {
    id !in view.byId || view.byId[id].key == Some(key)
  }

  predicate Listed(key: Key, id: u32, view: View)
  {
    id in view.byId && view.byId[id].key == Some(key)
  }

  /** The two indexes of one list. */
  ghost predicate Indexed(view: View)
  {
    && (forall id :: id in view.byId ==> !Reserved(id))
    && (forall key :: key in view.byKey ==> Listed(key, view.byKey[key].id, view))
  }

  lemma ViewIndexed(objects: seq<Object>)
    requires Listing(objects)
    ensures Indexed(ViewOf(objects))
  {
    forall id | id in ById(objects) ensures !Reserved(id) {
      ByIdExact(objects, id);
      var i :| 0 <= i < |objects| && objects[i] == ById(objects)[id];
    }
    forall key | key in OldestOf(objects) ensures Listed(key, OldestOf(objects)[key].id, ViewOf(objects)) {
      OldestExact(objects, key);
      ByIdExact(objects, OldestOf(objects)[key].id);
    }
  }

  /** Part way through a pass: settled label sets agree with the list, the
      others are as they were, and only a listed number can be held twice. */
  ghost predicate Midway(cur: Holding, done: set<Key>, held: Holding, view: View, cluster: string)
  {
    && (forall key :: key in cur ==> InClass(key, cur[key].id, cluster))
    && (forall key :: key in cur && key in done ==> Consistent(key, cur[key].id, view))
    && (forall key :: key in cur && key !in done ==> key in held && cur[key] == held[key])
    && (forall a, b :: a in cur && b in cur && a != b && cur[a].id == cur[b].id ==> cur[a].id in view.byId)
  }

  /** Giving a label set a number that is its own or a listed one. */
  lemma PlaceKeeps(cur: Holding, done: set<Key>, held: Holding, key: Key, h: Held, view: View, cluster: string)
    requires Midway(cur, done, held, view, cluster)
    requires InClass(key, h.id, cluster) && Consistent(key, h.id, view)
    requires h.id in view.byId || forall b :: b in cur && b != key ==> cur[b].id != h.id
    ensures Midway(cur[key := h], done + {key}, held, view, cluster)
  {
    hide InClass, Consistent;
  }

  lemma DropKeeps(cur: Holding, done: set<Key>, held: Holding, key: Key, view: View, cluster: string)
    requires Midway(cur, done, held, view, cluster)
    ensures Midway(cur - {key}, done, held, view, cluster)
    ensures Midway(cur - {key}, done + {key}, held, view, cluster)
  {
    hide InClass, Consistent;
  }

  lemma LookUpKeeps(cur: Holding, done: set<Key>, held: Holding, key: Key, view: View, cluster: string, start: u32)
    requires Midway(cur, done, held, view, cluster) && Indexed(view)
    requires WellKnown(key, cluster).None? && key !in cur
    ensures Midway(LookUp(cur, key, view, start).held, done + {key}, held, view, cluster)
  {
    hide WellKnown, Free, Midway;
    assert cur - {key} == cur;
    DropKeeps(cur, done, held, key, view, cluster);
    FreeUnused(Used(cur, view), start);
    if key in view.byKey {
      PlaceKeeps(cur, done, held, key, Held(view.byKey[key].id, true, true), view, cluster);
    } else if Free(Used(cur, view), start).Some? {
      PlaceKeeps(cur, done, held, key, Held(Free(Used(cur, view), start).value, false, false), view, cluster);
    }
  }

  lemma WellKnownKeeps(cur: Holding, done: set<Key>, held: Holding, key: Key, view: View, cluster: string)
    requires Midway(cur, done, held, view, cluster) && Indexed(view) && WellKnown(key, cluster).Some?
    ensures Midway(cur[key := Held(WellKnown(key, cluster).value, true, true)], done + {key}, held, view, cluster)
  {
    hide WellKnown;
    var id := WellKnown(key, cluster).value;
    forall b | b in cur && b != key ensures cur[b].id != id {
      assert InClass(b, cur[b].id, cluster);
      if WellKnown(b, cluster) == Some(id) { WellKnownInjective(b, key, cluster); }
    }
    PlaceKeeps(cur, done, held, key, Held(id, true, true), view, cluster);
  }

  lemma SettleKeeps(cur: Holding, done: set<Key>, held: Holding, key: Key, view: View, cluster: string, start: u32)
    requires Midway(cur, done, held, view, cluster) && Indexed(view)
    ensures Midway(Settle(cur, key, view, cluster, start).held, done + {key}, held, view, cluster)
  {
    hide WellKnown, LookUp, Indexed;
    if WellKnown(key, cluster).Some? {
      WellKnownKeeps(cur, done, held, key, view, cluster);
    } else if key !in cur {
      LookUpKeeps(cur, done, held, key, view, cluster, start);
    } else if cur[key].id in view.byId {
      if view.byId[cur[key].id].key == Some(key) {
        PlaceKeeps(cur, done, held, key, Held(cur[key].id, true, true), view, cluster);
      } else {
        DropKeeps(cur, done, held, key, view, cluster);
        LookUpKeeps(cur - {key}, done, held, key, view, cluster, start);
      }
    } else {
      PlaceKeeps(cur, done, held, key, cur[key], view, cluster);
      assert cur[key := cur[key]] == cur;
    }
  }

  lemma FreeUnused(used: set<u32>, start: u32)
    ensures Free(used, start).Some? ==> Free(used, start).value !in used && MIN_ID <= Free(used, start).value <= MAX_ID
  {
    FreeIsFirst(used, start, 0);
  }

  /** A settled label set's actions are its own, and a create is for the number held. */
  ghost predicate ActsFor(actions: seq<Action>, key: Key, held: Holding, cluster: string)
  {
    && |actions| <= 1
    && forall i :: 0 <= i < |actions| ==>
         && actions[i].key == key && WellKnown(key, cluster).None?
         && key in held && actions[i].id == held[key].id
  }

  lemma SettleActs(held: Holding, key: Key, view: View, cluster: string, start: u32)
    requires forall id :: id in view.byId ==> view.byId[id].id == id
    ensures ActsFor(Settle(held, key, view, cluster, start).actions, key,
                    Settle(held, key, view, cluster, start).held, cluster)
    ensures forall other :: other != key ==>
              (other in Settle(held, key, view, cluster, start).held <==> other in held)
              && (other in held ==> Settle(held, key, view, cluster, start).held[other] == held[other])
  {
    hide WellKnown, Free;
  }

  /** At most one action per label set, each for the number its label set holds. */
  ghost predicate Separate(actions: seq<Action>, held: Holding, done: set<Key>)
  {
    && (forall i, j :: 0 <= i < j < |actions| ==> actions[i].key != actions[j].key)
    && (forall i :: 0 <= i < |actions| ==>
          actions[i].key in done && actions[i].key in held && actions[i].id == held[actions[i].key].id)
  }

  function Members(order: seq<Key>): set<Key> { set key | key in order }

  ghost predicate NoRepeats(order: seq<Key>)
  {
    forall i, j :: 0 <= i < j < |order| ==> order[i] != order[j]
  }

  lemma {:induction false} SettleAllKeeps(held: Holding, order: seq<Key>, view: View, cluster: string, start: u32)
    requires NoRepeats(order) && Indexed(view) && Midway(held, {}, held, view, cluster)
    requires forall id :: id in view.byId ==> view.byId[id].id == id
    ensures var r := SettleAll(held, order, view, cluster, start);
            && Midway(r.held, Members(order), held, view, cluster)
            && Separate(r.actions, r.held, Members(order))
  {
    hide Midway, Settle, WellKnown;
    if order == [] {
      assert Members([]) == {};
    } else {
      var init, key := order[..|order| - 1], order[|order| - 1];
      SettleAllKeeps(held, init, view, cluster, start);
      var before := SettleAll(held, init, view, cluster, start);
      var done := Members(init);
      assert key !in done;
      assert Members(order) == done + {key};
      SettleKeeps(before.held, done, held, key, view, cluster, start);
      SettleActs(before.held, key, view, cluster, start);
      SeparateMore(before.actions, before.held, done, key, Settle(before.held, key, view, cluster, start), cluster);
    }
  }

  lemma SeparateMore(actions: seq<Action>, held: Holding, done: set<Key>, key: Key, step: Settled, cluster: string)
    requires Separate(actions, held, done) && key !in done
    requires ActsFor(step.actions, key, step.held, cluster)
    requires forall other :: other != key ==>
               (other in step.held <==> other in held) && (other in held ==> step.held[other] == held[other])
    ensures Separate(actions + step.actions, step.held, done + {key})
  {
    hide WellKnown;
    var all := actions + step.actions;
    forall i | 0 <= i < |all|
      ensures all[i].key in done + {key} && all[i].key in step.held && all[i].id == step.held[all[i].key].id
    {
      if i < |actions| { assert all[i] == actions[i]; } else { assert all[i] == step.actions[i - |actions|]; }
    }
    forall i, j | 0 <= i < j < |all| ensures all[i].key != all[j].key {
      assert i < |actions| && all[i] == actions[i];
      if j < |actions| { assert all[j] == actions[j]; } else { assert all[j] == step.actions[j - |actions|]; }
    }
  }

  /** After every pass held numbers are distinct, each is listed with exactly
      its label set or not listed, and the creates have distinct numbers. */
  lemma PassKeeps(held: Holding, order: seq<Key>, objects: seq<Object>, cluster: string, start: u32)
    requires Lawful(held, cluster) && Listing(objects) && NoRepeats(order)
    ensures var r := Pass(held, order, objects, cluster, start);
            && Lawful(r.held, cluster)
            && (forall key :: key in r.held ==> key in order && Consistent(key, r.held[key].id, ViewOf(objects)))
            && (forall i, j :: 0 <= i < j < |r.actions| ==> r.actions[i].id != r.actions[j].id)
            && (forall i :: 0 <= i < |r.actions| ==>
                  r.actions[i].key in r.held && r.actions[i].id == r.held[r.actions[i].key].id)
  {
    hide SettleAll, WellKnown;
    var desired := Members(order);
    var kept := Retain(held, desired);
    var view := ViewOf(objects);
    var r := Pass(held, order, objects, cluster, start);
    ViewIndexed(objects);
    forall id | id in view.byId ensures view.byId[id].id == id { ByIdExact(objects, id); }
    SettleAllKeeps(kept, order, view, cluster, start);
    AllSettled(r.held, desired, kept, view, cluster);
  }

  lemma AllSettled(cur: Holding, desired: set<Key>, kept: Holding, view: View, cluster: string)
    requires Midway(cur, desired, kept, view, cluster) && kept.Keys <= desired
    ensures cur.Keys <= desired && Lawful(cur, cluster)
    ensures forall key :: key in cur ==> Consistent(key, cur[key].id, view)
  {
    hide WellKnown;
    assert forall key :: key in kept ==> key in kept.Keys;
  }

  /** A number is verified for a reason: it is well known, the list resolves the
      label set to it, or it was held already. */
  ghost predicate Justified(key: Key, h: Held, view: View, held: Holding, cluster: string)
  {
    || WellKnown(key, cluster) == Some(h.id)
    || (key in view.byKey && view.byKey[key].id == h.id)
    || (key in held && held[key].id == h.id)
  }

  /** What a pass may leave of a label set: a justified number, what was held, or
      a lease with its create. */
  ghost predicate Explained(key: Key, h: Held, view: View, held: Holding, actions: seq<Action>, cluster: string)
  {
    && (h.verified ==> Justified(key, h, view, held, cluster))
    && (!h.verified ==> (key in held && held[key] == h) || Create(h.id, key) in actions)
  }

  lemma SettleExplained(cur: Holding, key: Key, view: View, cluster: string, start: u32)
    ensures var r := Settle(cur, key, view, cluster, start);
            key in r.held ==> Explained(key, r.held[key], view, cur, r.actions, cluster)
  {
    hide WellKnown, Free;
  }

  /** Label sets the pass does not walk stay as they were. */
  lemma {:induction false} SettleAllElse(held: Holding, order: seq<Key>, view: View, cluster: string, start: u32,
                                         key: Key)
    requires key !in order
    ensures var r := SettleAll(held, order, view, cluster, start).held;
            (key in r <==> key in held) && (key in held ==> r[key] == held[key])
  {
    hide WellKnown, Free;
    if order != [] { SettleAllElse(held, order[..|order| - 1], view, cluster, start, key); }
  }

  lemma {:induction false} SettleAllExplained(held: Holding, order: seq<Key>, view: View, cluster: string, start: u32,
                                              key: Key)
    requires NoRepeats(order) && key in order
    ensures var r := SettleAll(held, order, view, cluster, start);
            key in r.held ==> Explained(key, r.held[key], view, held, r.actions, cluster)
  {
    hide WellKnown, Settle;
    var init, last := order[..|order| - 1], order[|order| - 1];
    var before := SettleAll(held, init, view, cluster, start);
    if key == last {
      SettleAllElse(held, init, view, cluster, start, key);
      SettleExplained(before.held, key, view, cluster, start);
    } else {
      SettleAllExplained(held, init, view, cluster, start, key);
      SettleOthers(before.held, last, view, cluster, start, key);
    }
  }

  lemma SettleOthers(held: Holding, key: Key, view: View, cluster: string, start: u32, other: Key)
    requires other != key
    ensures var r := Settle(held, key, view, cluster, start).held;
            (other in r <==> other in held) && (other in held ==> r[other] == held[other])
  {
    hide WellKnown, Free;
  }

  lemma PassExplained(held: Holding, order: seq<Key>, objects: seq<Object>, cluster: string, start: u32, key: Key)
    requires NoRepeats(order)
    ensures var r := Pass(held, order, objects, cluster, start);
            key in r.held ==> Explained(key, r.held[key], ViewOf(objects), held, r.actions, cluster)
  {
    hide SettleAll, WellKnown, Justified;
    var retained := Retain(held, Members(order));
    var view := ViewOf(objects);
    if key in order {
      SettleAllExplained(retained, order, view, cluster, start, key);
      JustifiedMore(key, held, retained, view, cluster);
    } else {
      SettleAllElse(retained, order, view, cluster, start, key);
    }
  }

  lemma JustifiedMore(key: Key, held: Holding, retained: Holding, view: View, cluster: string)
    requires key in retained ==> key in held && held[key] == retained[key]
    ensures forall h :: Justified(key, h, view, retained, cluster) ==> Justified(key, h, view, held, cluster)
  {
  }

  // ---------- when agents converge ----------

  /** The pass gives the label set the oldest listed number: it has none, that
      one, or one that the list shows under other labels. */
  predicate Yields(held: Holding, key: Key, view: View)
    requires key in view.byKey
  {
    || key !in held || held[key].id == view.byKey[key].id
    || (held[key].id in view.byId && view.byId[held[key].id].key != Some(key))
  }

  lemma SettleResolves(cur: Holding, key: Key, view: View, cluster: string, start: u32)
    requires WellKnown(key, cluster).None? && key in view.byKey && Indexed(view)
    ensures Reported(Settle(cur, key, view, cluster, start).held, key) == Some(view.byKey[key].id) <==>
            Yields(cur, key, view)
    ensures key in cur && Listed(key, cur[key].id, view) ==>
              Reported(Settle(cur, key, view, cluster, start).held, key) == Some(cur[key].id)
  {
    hide WellKnown, Free;
    assert Listed(key, view.byKey[key].id, view);
  }

  /** In a pass a label set is settled from what was held of it before. */
  lemma {:induction false} SettledOnce(held: Holding, order: seq<Key>, view: View, cluster: string, start: u32,
                                       key: Key)
    returns (cur: Holding)
    requires NoRepeats(order) && key in order
    ensures (key in cur <==> key in held) && (key in held ==> cur[key] == held[key])
    ensures var r := SettleAll(held, order, view, cluster, start).held;
            Reported(r, key) == Reported(Settle(cur, key, view, cluster, start).held, key)
  {
    hide WellKnown, Settle;
    var init, last := order[..|order| - 1], order[|order| - 1];
    var before := SettleAll(held, init, view, cluster, start);
    if key == last {
      SettleAllElse(held, init, view, cluster, start, key);
      cur := before.held;
    } else {
      cur := SettledOnce(held, init, view, cluster, start, key);
      SettleOthers(before.held, last, view, cluster, start, key);
    }
  }

  /** A pass ends reporting the oldest listed number of a label set exactly when
      the label set was free to take it up. A node that holds another number
      listed for the label set keeps it. */
  lemma PassResolvesOldest(held: Holding, order: seq<Key>, objects: seq<Object>, cluster: string, start: u32, key: Key)
    requires Listing(objects) && NoRepeats(order) && key in order
    requires WellKnown(key, cluster).None? && key in OldestOf(objects)
    ensures var r := Pass(held, order, objects, cluster, start).held;
            && (Reported(r, key) == Some(OldestOf(objects)[key].id) <==> Yields(held, key, ViewOf(objects)))
            && (key in held && Listed(key, held[key].id, ViewOf(objects)) ==> Reported(r, key) == Some(held[key].id))
  {
    hide WellKnown, Settle, SettleAll, OldestOf, ById, Indexed;
    var kept := Retain(held, Members(order));
    assert key in Members(order);
    ViewIndexed(objects);
    var cur := SettledOnce(kept, order, ViewOf(objects), cluster, start, key);
    SettleResolves(cur, key, ViewOf(objects), cluster, start);
  }

  /** Agents that saw the same objects, and are both free to, converge on one
      number. */
  lemma AgentsConverge(heldA: Holding, orderA: seq<Key>, a: seq<Object>, startA: u32,
                       heldB: Holding, orderB: seq<Key>, b: seq<Object>, startB: u32, cluster: string, key: Key)
    requires Listing(a) && Listing(b) && forall o :: o in a <==> o in b
    requires NoRepeats(orderA) && key in orderA && NoRepeats(orderB) && key in orderB
    requires WellKnown(key, cluster).None? && key in OldestOf(a) && key in OldestOf(b)
    requires Yields(heldA, key, ViewOf(a)) && Yields(heldB, key, ViewOf(b))
    ensures var x, y := Pass(heldA, orderA, a, cluster, startA), Pass(heldB, orderB, b, cluster, startB);
            Reported(x.held, key).Some? && Reported(x.held, key) == Reported(y.held, key)
  {
    hide WellKnown, Pass, OldestOf, ViewOf, Yields;
    OldestConverges(a, b, key);
    PassResolvesOldest(heldA, orderA, a, cluster, startA, key);
    PassResolvesOldest(heldB, orderB, b, cluster, startB, key);
  }

  // ---------- exactly what a pass asks for ----------

  /** A label set that settled on a listed object, whose heartbeat mark is on. */
  ghost predicate Marked(held: Holding, key: Key, view: View, a: Action)
  {
    && key in held && a.Acquire? && a.key == key && a.id == held[key].id
    && Listed(key, a.id, view) && view.byId[a.id].heartbeat && a.version == view.byId[a.id].version
  }

  /** A label set that settled on a number the list does not show: one whose
      object was seen and is gone, or a new lease. */
  ghost predicate Lacking(before: Holding, held: Holding, key: Key, view: View, a: Action)
  {
    && key in held && a == Create(held[key].id, key) && a.id !in view.byId
    && (held[key].seen || key !in before || before[key].id in view.byId)
  }

  lemma SettleActsExactly(cur: Holding, key: Key, view: View, cluster: string, start: u32, a: Action)
    requires Indexed(view) && forall id :: id in view.byId ==> view.byId[id].id == id
    requires forall k :: k in view.byKey ==> view.byKey[k] == view.byId[view.byKey[k].id]
    ensures var r := Settle(cur, key, view, cluster, start);
            a in r.actions <==>
            WellKnown(key, cluster).None? && (Marked(r.held, key, view, a) || Lacking(cur, r.held, key, view, a))
  {
    hide WellKnown, Free;
    FreeUnused(Used(cur, view), start);
    if key in cur { FreeUnused(Used(cur - {key}, view), start); }
    if key in view.byKey { assert Listed(key, view.byKey[key].id, view); }
  }

  /** The actions of a pass for a label set are those of its own settling. */
  lemma {:induction false} SettledActs(held: Holding, order: seq<Key>, view: View, cluster: string, start: u32,
                                       key: Key, a: Action)
    returns (cur: Holding)
    requires NoRepeats(order) && key in order && a.key == key
    requires forall id :: id in view.byId ==> view.byId[id].id == id
    ensures (key in cur <==> key in held) && (key in held ==> cur[key] == held[key])
    ensures var r, own := SettleAll(held, order, view, cluster, start), Settle(cur, key, view, cluster, start);
            && (a in r.actions <==> a in own.actions)
            && (key in r.held <==> key in own.held) && (key in own.held ==> r.held[key] == own.held[key])
  {
    hide WellKnown, Settle;
    var init, last := order[..|order| - 1], order[|order| - 1];
    var before := SettleAll(held, init, view, cluster, start);
    var own := Settle(before.held, last, view, cluster, start);
    SettleActs(before.held, last, view, cluster, start);
    assert forall x :: x in before.actions + own.actions <==> x in before.actions || x in own.actions;
    if key == last {
      SettleAllElse(held, init, view, cluster, start, key);
      NoActsElse(held, init, view, cluster, start, key, a);
      cur := before.held;
    } else {
      cur := SettledActs(held, init, view, cluster, start, key, a);
      SettleOthers(before.held, last, view, cluster, start, key);
    }
  }

  /** A pass asks for nothing for a label set it does not walk. */
  lemma {:induction false} NoActsElse(held: Holding, order: seq<Key>, view: View, cluster: string, start: u32,
                                      key: Key, a: Action)
    requires key !in order && a.key == key && forall id :: id in view.byId ==> view.byId[id].id == id
    ensures a !in SettleAll(held, order, view, cluster, start).actions
  {
    hide WellKnown, Settle;
    if order != [] {
      var init, last := order[..|order| - 1], order[|order| - 1];
      NoActsElse(held, init, view, cluster, start, key, a);
      SettleActs(SettleAll(held, init, view, cluster, start).held, last, view, cluster, start);
    }
  }

  /** Exactly the writes a pass asks for. It takes the heartbeat mark off exactly
      the marked objects its label sets settled on, under the version listed. It
      creates exactly the numbers its label sets settled on that the list does not
      show, except those whose create is still on its way. */
  lemma PassActsExactly(held: Holding, order: seq<Key>, objects: seq<Object>, cluster: string, start: u32, a: Action)
    requires Listing(objects) && NoRepeats(order)
    ensures var r, view := Pass(held, order, objects, cluster, start), ViewOf(objects);
            a in r.actions <==>
            && a.key in order && WellKnown(a.key, cluster).None?
            && (Marked(r.held, a.key, view, a) || Lacking(held, r.held, a.key, view, a))
  {
    hide WellKnown, Settle, SettleAll, OldestOf, ById, Indexed, Marked;
    var kept, view, key := Retain(held, Members(order)), ViewOf(objects), a.key;
    ViewIndexed(objects);
    forall id | id in view.byId ensures view.byId[id].id == id { ByIdExact(objects, id); }
    forall k | k in view.byKey ensures view.byKey[k].id in view.byId && view.byKey[k] == view.byId[view.byKey[k].id] {
      OldestExact(objects, k);
      ByIdExact(objects, view.byKey[k].id);
    }
    if key in order {
      assert key in Members(order);
      var cur := SettledActs(kept, order, view, cluster, start, key, a);
      SettleActsExactly(cur, key, view, cluster, start, a);
      SameMarks(Settle(cur, key, view, cluster, start).held,
                Pass(held, order, objects, cluster, start).held, key, view, a);
    } else {
      NoActsElse(kept, order, view, cluster, start, key, a);
    }
  }

  lemma SameMarks(a: Holding, b: Holding, key: Key, view: View, act: Action)
    requires (key in a <==> key in b) && (key in a ==> a[key] == b[key])
    ensures Marked(a, key, view, act) <==> Marked(b, key, view, act)
  {
  }

  /** A wanted label set whose object was seen under a number the list no longer
      shows keeps the number, and the pass creates the object again. */
  lemma RecreatesLost(held: Holding, order: seq<Key>, objects: seq<Object>, cluster: string, start: u32, key: Key)
    requires Listing(objects) && NoRepeats(order) && key in order && WellKnown(key, cluster).None?
    requires key in held && held[key].seen && held[key].id !in ById(objects)
    ensures var r := Pass(held, order, objects, cluster, start);
            key in r.held && r.held[key] == held[key] && Create(held[key].id, key) in r.actions
  {
    hide WellKnown, SettleAll, OldestOf, ById, Free;
    var kept, view := Retain(held, Members(order)), ViewOf(objects);
    assert key in Members(order);
    forall id | id in view.byId ensures view.byId[id].id == id { ByIdExact(objects, id); }
    var a := Create(held[key].id, key);
    var cur := SettledActs(kept, order, view, cluster, start, key, a);
  }

  /** What a pass leaves of a label set: its well-known number, a listed number
      marked as seen, what was held before under a number not listed, or a fresh
      lease, not yet verified, where nothing listed serves. */
  ghost predicate Left(before: Holding, h: Held, key: Key, view: View, cluster: string)
  {
    match WellKnown(key, cluster)
    case Some(id) => h == Held(id, true, true)
    case None =>
      if h.id in view.byId then Listed(key, h.id, view) && h == Held(h.id, true, true)
      else if key in before && before[key].id !in view.byId then h == before[key]
      else h == Held(h.id, false, false) && key !in view.byKey && MIN_ID <= h.id <= MAX_ID
  }

  lemma SettleLeaves(cur: Holding, key: Key, view: View, cluster: string, start: u32)
    requires Indexed(view)
    ensures var r := Settle(cur, key, view, cluster, start).held;
            && (key in r ==> Left(cur, r[key], key, view, cluster))
            && (WellKnown(key, cluster).Some? || key in view.byKey ==> key in r)
  {
    hide WellKnown, Free;
    FreeUnused(Used(cur, view), start);
    if key in cur { FreeUnused(Used(cur - {key}, view), start); }
    if key in view.byKey { assert Listed(key, view.byKey[key].id, view); }
    if WellKnown(key, cluster).Some? { KnownReserved(key, cluster); }
  }

  lemma KnownReserved(key: Key, cluster: string)
    requires WellKnown(key, cluster).Some?
    ensures Reserved(WellKnown(key, cluster).value)
  {
  }

  /** Everything a pass leaves, label set by label set, and nothing for label sets
      that are not wanted. */
  lemma PassLeaves(held: Holding, order: seq<Key>, objects: seq<Object>, cluster: string, start: u32, key: Key)
    requires Listing(objects) && NoRepeats(order)
    ensures var r := Pass(held, order, objects, cluster, start).held;
            && (key in r ==> key in order && Left(held, r[key], key, ViewOf(objects), cluster))
            && (key in order && (WellKnown(key, cluster).Some? || key in OldestOf(objects)) ==> key in r)
  {
    hide WellKnown, Settle, SettleAll, OldestOf, ById, Indexed;
    var kept, view := Retain(held, Members(order)), ViewOf(objects);
    ViewIndexed(objects);
    forall id | id in view.byId ensures view.byId[id].id == id { ByIdExact(objects, id); }
    if key in order {
      assert key in Members(order);
      var cur := SettledActs(kept, order, view, cluster, start, key, Create(0, key));
      SettleLeaves(cur, key, view, cluster, start);
    } else {
      SettleAllElse(kept, order, view, cluster, start, key);
    }
  }

  /** A wanted label set goes without a number only when the scan found none free
      of the listed objects, of what this node held and of what it holds now. */
  lemma WithoutOnlyWhenFull(held: Holding, order: seq<Key>, objects: seq<Object>, cluster: string, start: u32, key: Key)
    requires NoRepeats(order) && key in order && key !in Pass(held, order, objects, cluster, start).held
    ensures WellKnown(key, cluster).None? && key !in OldestOf(objects)
    ensures forall o :: 0 <= o < SPAN ==>
              var id := Visit(start, o);
              || id in ById(objects)
              || (exists k :: k in held && held[k].id == id)
              || (exists k :: k in Pass(held, order, objects, cluster, start).held
                              && Pass(held, order, objects, cluster, start).held[k].id == id)
  {
    hide WellKnown, OldestOf, ById, Visit, Settle;
    var kept, view := Retain(held, Members(order)), ViewOf(objects);
    assert key in Members(order);
    SettledWithout(kept, order, view, cluster, start, key);
  }

  lemma {:induction false} SettledWithout(held: Holding, order: seq<Key>, view: View, cluster: string, start: u32,
                                          key: Key)
    requires NoRepeats(order) && key in order && key !in SettleAll(held, order, view, cluster, start).held
    ensures WellKnown(key, cluster).None? && key !in view.byKey
    ensures forall o :: 0 <= o < SPAN ==>
              Taken(held, SettleAll(held, order, view, cluster, start).held, view, Visit(start, o))
  {
    hide WellKnown, Settle, Visit;
    var init, last := order[..|order| - 1], order[|order| - 1];
    var before := SettleAll(held, init, view, cluster, start);
    if key == last {
      SettleWithout(before.held, key, view, cluster, start);
      forall o | 0 <= o < SPAN
        ensures Taken(held, SettleAll(held, order, view, cluster, start).held, view, Visit(start, o)) {
        var id := Visit(start, o);
        if id !in view.byId {
          var k :| k in before.held && k != key && before.held[k].id == id;
          SettleOthers(before.held, key, view, cluster, start, k);
        }
      }
    } else {
      SettleOthers(before.held, last, view, cluster, start, key);
      SettledWithout(held, init, view, cluster, start, key);
      forall o | 0 <= o < SPAN
        ensures Taken(held, SettleAll(held, order, view, cluster, start).held, view, Visit(start, o)) {
        var id := Visit(start, o);
        assert Taken(held, before.held, view, id);
        StillTaken(held, init, view, cluster, start, last, id);
      }
    }
  }

  /** Listed, held before the pass, or held now. */
  ghost predicate Taken(before: Holding, now: Holding, view: View, id: u32)
  {
    id in view.byId || (exists k :: k in before && before[k].id == id) || (exists k :: k in now && now[k].id == id)
  }

  lemma StillTaken(held: Holding, init: seq<Key>, view: View, cluster: string, start: u32, last: Key, id: u32)
    requires Taken(held, SettleAll(held, init, view, cluster, start).held, view, id) && last !in init
    ensures Taken(held, Settle(SettleAll(held, init, view, cluster, start).held, last, view, cluster, start).held,
                  view, id)
  {
    hide WellKnown, Settle;
    var before := SettleAll(held, init, view, cluster, start);
    var after := Settle(before.held, last, view, cluster, start).held;
    if id !in view.byId && exists k :: k in before.held && before.held[k].id == id {
      var k :| k in before.held && before.held[k].id == id;
      if k == last {
        SettleAllElse(held, init, view, cluster, start, last);
        assert k in held && held[k].id == id;
      } else {
        SettleOthers(before.held, last, view, cluster, start, k);
        assert k in after && after[k].id == id;
      }
    }
  }

  lemma SettleWithout(cur: Holding, key: Key, view: View, cluster: string, start: u32)
    requires key !in Settle(cur, key, view, cluster, start).held
    ensures WellKnown(key, cluster).None? && key !in view.byKey
    ensures forall o :: 0 <= o < SPAN ==>
              Visit(start, o) in view.byId || exists k :: k in cur && k != key && cur[k].id == Visit(start, o)
  {
    hide WellKnown, Visit, Free;
    var others := if key in cur then cur - {key} else cur;
    assert Free(Used(others, view), start).None?;
    FreeIsFirst(Used(others, view), start, 0);
    forall o | 0 <= o < SPAN
      ensures Visit(start, o) in view.byId || exists k :: k in cur && k != key && cur[k].id == Visit(start, o)
    {
      assert Visit(start, o) in Used(others, view) by { FreeNone(Used(others, view), start, o); }
      if Visit(start, o) !in view.byId {
        var k :| k in others && others[k].id == Visit(start, o);
        assert k in cur && k != key;
      }
    }
  }

  lemma FreeNone(used: set<u32>, start: u32, o: nat)
    requires Free(used, start).None? && o < SPAN
    ensures Visit(start, o) in used
  {
    FreeIsFirst(used, start, 0);
  }

  lemma RecordKeeps(held: Holding, key: Key, id: u32, outcome: Outcome, cluster: string)
    requires Lawful(held, cluster)
    ensures Lawful(Record(held, key, id, outcome), cluster)
  {
    hide WellKnown;
  }

  class Allocator {
    var held: Holding

    constructor ()
      ensures held == map[]
    {
      held := map[];
    }

    /** One label set, as the pass settles it. */
    method SettleKey(key: Key, byId: map<u32, Object>, byKey: map<Key, Object>, cluster: string, start: u32,
                     sofar: seq<Action>) returns (actions: seq<Action>)
      modifies this
      ensures held == Settle(old(held), key, View(byId, byKey), cluster, start).held
      ensures actions == sofar + Settle(old(held), key, View(byId, byKey), cluster, start).actions
    {
      hide WellKnown, Free;
      actions := sofar;
      var known := WellKnown(key, cluster);
      if known.Some? {
        held := held[key := Held(known.value, true, true)];
        return;
      }
      if key in held {
        var h := held[key];
        if h.id in byId {
          if byId[h.id].key == Some(key) {
            held := held[key := h.(verified := true, seen := true)];
            if byId[h.id].heartbeat { actions := actions + [Acquire(byId[h.id].id, key, byId[h.id].version)]; }
            return;
          }
          held := held - {key};
        } else {
          if h.seen { actions := actions + [Create(h.id, key)]; }
          return;
        }
      }
      if key in byKey {
        var o := byKey[key];
        held := held[key := Held(o.id, true, true)];
        if o.heartbeat { actions := actions + [Acquire(o.id, key, o.version)]; }
        return;
      }
      var used := byId.Keys + set k | k in held :: held[k].id;
      var lease := Free(used, start);
      if lease.Some? {
        held := held[key := Held(lease.value, false, false)];
        actions := actions + [Create(lease.value, key)];
      }
    }

    method Reconcile(order: seq<Key>, objects: seq<Object>, cluster: string, start: u32) returns (actions: seq<Action>)
      modifies this
      ensures Settled(held, actions) == Pass(old(held), order, objects, cluster, start)
      ensures Lawful(old(held), cluster) && Listing(objects) && NoRepeats(order) ==> Lawful(held, cluster)
    {
      hide Settle, Lawful, Listing, NoRepeats;
      var desired := set key | key in order;
      held := map key | key in held && key in desired :: held[key];
      ghost var retained := held;
      var byId: map<u32, Object> := map[];
      for i := 0 to |objects|
        invariant byId == ById(objects[..i]) && held == retained
      {
        assert objects[..i + 1][..i] == objects[..i];
        byId := byId[objects[i].id := objects[i]];
      }
      assert objects[..|objects|] == objects;
      var byKey := Oldest(objects);
      actions := [];
      for i := 0 to |order|
        invariant Settled(held, actions) == SettleAll(retained, order[..i], View(byId, byKey), cluster, start)
      {
        assert order[..i + 1][..i] == order[..i];
        actions := SettleKey(order[i], byId, byKey, cluster, start, actions);
      }
      assert order[..|order|] == order;
      if Lawful(old(held), cluster) && Listing(objects) && NoRepeats(order) {
        PassKeeps(old(held), order, objects, cluster, start);
      }
    }

    method Created(key: Key, id: u32, outcome: Outcome)
      modifies this
      ensures held == Record(old(held), key, id, outcome)
    {
      if key !in held || held[key].id != id { return; }
      match outcome
      case Done => held := held[key := held[key].(verified := true)];
      case Conflict => if !held[key].verified { held := held - {key}; }
      case Failed => if !held[key].verified { held := held - {key}; }
    }
  }
}
