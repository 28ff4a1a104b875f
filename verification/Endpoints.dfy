/** The endpoint manager: create, delete and restore over a store and a map that
    outlive the process (crates/flowsdn-agent/src/endpoints.rs:61-471,
    crates/flowsdn-agent/src/state.rs:206-258). */
module Endpoints {
  import opened Bytes
  import opened EndpointStore

  datatype Failure =
    | Exhausted | BadDocument | AttachmentExists | InterfaceOwned | AddressTaken | LinkMismatch | MapOwned
    | StoreFailed | InstallFailed | TeardownFailed | BadState

  class IdPool {
    var used: set<u16>
    const max: u16

    constructor (limit: u16)
      ensures used == {} && max == limit
    {
      used := {};
      max := limit;
    }

    /** The lowest free number up to the limit. */
    method Allocate() returns (r: Result<u16, Failure>)
      modifies this
      ensures match r
              case Ok(id) =>
                && 1 <= id <= max && id !in old(used) && used == old(used) + {id}
                && forall i: u16 :: 1 <= i < id ==> i in old(used)
              case Err(e) => e == Exhausted && used == old(used) && forall i: u16 :: 1 <= i <= max ==> i in used
    {
      var id: nat := 1;
      while id <= max
        invariant 1 <= id && used == old(used)
        invariant forall i: u16 :: 1 <= i < id ==> i in used
      {
        if id !in used {
          used := used + {id};
          return Ok(id);
        }
        id := id + 1;
      }
      r := Err(Exhausted);
    }

    method Reserve(id: u16) returns (ok: bool)
      modifies this
      ensures ok <==> id != 0 && id !in old(used)
      ensures used == if ok then old(used) + {id} else old(used)
    {
      ok := id != 0 && id !in used;
      if ok { used := used + {id}; }
    }

    method Release(id: u16)
      modifies this
      ensures used == old(used) - {id}
    {
      used := used - {id};
    }
  }

  /** The lowest free number within the limit. */
  ghost predicate NextId(used: set<u16>, max: u16, id: u16)
  {
    1 <= id <= max && id !in used && forall i: u16 :: 1 <= i < id ==> i in used
  }

  // ---------- host interfaces have one owner ----------

  ghost predicate OwnersOk(rs: seq<Record>)
  {
    && (forall i :: 0 <= i < |rs| ==> rs[i].doc.ifName != "" && rs[i].doc.ifIndex != 0)
    && (forall i, j :: 0 <= i < j < |rs| ==>
          rs[i].doc.ifName != rs[j].doc.ifName && rs[i].doc.ifIndex != rs[j].doc.ifIndex)
  }

  method ValidateOwners(rs: seq<Record>) returns (ok: bool)
    ensures ok <==> OwnersOk(rs)
  {
    var names: set<string>, indices: set<u32> := {}, {};
    for i := 0 to |rs|
      invariant names == set k | 0 <= k < i :: rs[k].doc.ifName
      invariant indices == set k | 0 <= k < i :: rs[k].doc.ifIndex
      invariant OwnersOk(rs[..i])
    {
      var name, index := rs[i].doc.ifName, rs[i].doc.ifIndex;
      if index == 0 || name == "" || name in names || index in indices {
        assert !OwnersOk(rs) by {
          assert rs[i].doc.ifName == name && rs[i].doc.ifIndex == index;
        }
        return false;
      }
      names := names + {name};
      indices := indices + {index};
      assert forall k :: 0 <= k < i ==> rs[..i + 1][k] == rs[..i][k];
    }
    assert rs[..|rs|] == rs;
    ok := true;
  }

  // ---------- the live records ----------

  type Live = map<string, Record>

  ghost predicate LiveOk(records: Live)
  {
    && (forall att :: att in records ==> records[att].attachment == att && Sane(records[att]))
    && (forall a, b :: a in records && b in records && a != b ==> Apart(records[a], records[b]))
  }

  function Ids(records: Live): set<u16> { set att | att in records :: records[att].id }

  /** The address index is exactly the addresses of the live records. */
  ghost predicate Indexed(records: Live, addresses: map<Addr, string>)
  {
    && (forall x :: x in addresses ==> addresses[x] in records && x in AddrSet(records[addresses[x]]))
    && (forall att, x :: att in records && x in AddrSet(records[att]) ==> x in addresses)
  }

  /** Every directory belongs to a live record, and holds it if it holds one. */
  ghost predicate Tracked(records: Live, durable: map<u16, File>)
  {
    forall id :: id in durable ==> exists att :: TrackedAs(records, durable, id, att)
  }

  ghost predicate TrackedAs(records: Live, durable: map<u16, File>, id: u16, att: string)
    requires id in durable
  {
    att in records && records[att].id == id && (durable[id].Stored? ==> durable[id].record == records[att])
  }

  lemma AddLive(records: Live, r: Record)
    requires LiveOk(records) && r.attachment !in records && Sane(r)
    requires forall att :: att in records ==> Apart(records[att], r)
    ensures LiveOk(records[r.attachment := r]) && Ids(records[r.attachment := r]) == Ids(records) + {r.id}
  {
    hide Sane;
    var more := records[r.attachment := r];
    forall a, b | a in more && b in more && a != b ensures Apart(more[a], more[b]) {
      if a == r.attachment { ApartSymmetric(records[b], r); }
    }
    forall id | id in Ids(records) + {r.id} ensures id in Ids(more) {
      if id in Ids(records) {
        var att :| att in records && records[att].id == id;
        assert more[att].id == id;
      } else {
        assert more[r.attachment].id == id;
      }
    }
  }

  lemma DropLive(records: Live, att: string)
    requires LiveOk(records) && att in records
    ensures LiveOk(records - {att}) && Ids(records - {att}) == Ids(records) - {records[att].id}
  {
    hide Sane;
    var less := records - {att};
    forall id | id in Ids(records) - {records[att].id} ensures id in Ids(less) {
      var other :| other in records && records[other].id == id;
      assert other in less;
    }
  }

  /** The values of a map, each once. */
  method Values(records: Live) returns (rs: seq<Record>)
    requires LiveOk(records)
    ensures forall i :: 0 <= i < |rs| ==> rs[i].attachment in records && records[rs[i].attachment] == rs[i]
    ensures forall att :: att in records ==> records[att] in rs
    ensures forall i, j :: 0 <= i < j < |rs| ==> rs[i].attachment != rs[j].attachment
  {
    hide Sane, Apart;
    rs := [];
    var todo := records.Keys;
    while todo != {}
      invariant todo <= records.Keys
      invariant forall i :: 0 <= i < |rs| ==>
                  rs[i].attachment in records.Keys - todo && records[rs[i].attachment] == rs[i]
      invariant forall att :: att in records.Keys - todo ==> records[att] in rs
      invariant forall i, j :: 0 <= i < j < |rs| ==> rs[i].attachment != rs[j].attachment
      decreases |todo|
    {
      var att :| att in todo;
      todo := todo - {att};
      rs := rs + [records[att]];
    }
  }

  /** The preflight of a new record settles that it is apart from every live one. */
  lemma PreflightApart(records: Live, addresses: map<Addr, string>, rs: seq<Record>, r: Record)
    requires LiveOk(records) && Indexed(records, addresses) && OwnersOk(rs + [r])
    requires forall att :: att in records ==> records[att] in rs
    requires r.attachment !in records && r.id !in Ids(records)
    requires AddrSet(r) !! addresses.Keys
    ensures forall att :: att in records ==> Apart(records[att], r)
  {
    hide Sane, AddrSet;
    forall att | att in records ensures Apart(records[att], r) {
      var i :| 0 <= i < |rs| && rs[i] == records[att];
      assert (rs + [r])[i] == records[att] && (rs + [r])[|rs|] == r;
      assert records[att].id in Ids(records);
    }
  }

  /** A document that can become an endpoint beside the live ones: it names its
      attachment, its host interface and addresses, and shares none of them with a
      live record. */
  ghost predicate Creatable(records: Live, doc: Document)
  {
    && doc.attachment.Some? && doc.attachment.value !in records
    && doc.ifName != "" && doc.ifIndex != 0 && doc.macs.Some?
    && doc.addressesParse && (doc.v4.Some? || doc.v6.Some?)
    && forall att :: att in records ==>
         && records[att].doc.ifName != doc.ifName && records[att].doc.ifIndex != doc.ifIndex
         && (doc.v4.Some? ==> V4(doc.v4.value) !in AddrSet(records[att]))
         && (doc.v6.Some? ==> V6(doc.v6.value) !in AddrSet(records[att]))
  }

  lemma DocAddresses(r: Record)
    ensures Addresses(r.doc).Some? <==> r.doc.addressesParse && (r.doc.v4.Some? || r.doc.v6.Some?)
    ensures Addresses(r.doc).Some? ==>
              forall a :: a in AddrSet(r) <==>
                (r.doc.v4.Some? && a == V4(r.doc.v4.value)) || (r.doc.v6.Some? && a == V6(r.doc.v6.value))
  {
    if r.doc.v6.Some? { assert [V6(r.doc.v6.value)][0] == V6(r.doc.v6.value); }
  }

  /** The host interfaces of the live records are already in order. */
  lemma LiveOwners(records: Live, rs: seq<Record>, r: Record)
    requires LiveOk(records)
    requires forall i :: 0 <= i < |rs| ==> rs[i].attachment in records && records[rs[i].attachment] == rs[i]
    requires forall att :: att in records ==> records[att] in rs
    requires forall i, j :: 0 <= i < j < |rs| ==> rs[i].attachment != rs[j].attachment
    ensures OwnersOk(rs + [r]) <==>
            && r.doc.ifName != "" && r.doc.ifIndex != 0
            && forall att :: att in records ==>
                 records[att].doc.ifName != r.doc.ifName && records[att].doc.ifIndex != r.doc.ifIndex
  {
    hide AddrSet, Addresses;
    var all := rs + [r];
    assert forall i :: 0 <= i < |rs| ==> all[i] == rs[i];
    forall i | 0 <= i < |rs| ensures rs[i].doc.ifName != "" && rs[i].doc.ifIndex != 0 {
      assert Sane(records[rs[i].attachment]);
    }
    forall i, j | 0 <= i < j < |rs|
      ensures rs[i].doc.ifName != rs[j].doc.ifName && rs[i].doc.ifIndex != rs[j].doc.ifIndex
    {
      assert Apart(records[rs[i].attachment], records[rs[j].attachment]);
    }
    if OwnersOk(all) {
      forall att | att in records
        ensures records[att].doc.ifName != r.doc.ifName && records[att].doc.ifIndex != r.doc.ifIndex
      {
        var i :| 0 <= i < |rs| && rs[i] == records[att];
        assert all[i] == rs[i] && all[|rs|] == r;
      }
      assert all[|rs|] == r;
    }
  }

  /** The same in the terms the checks are made in. */
  lemma CreatableMeans(records: Live, addresses: map<Addr, string>, r: Record)
    requires Indexed(records, addresses) && r.doc.attachment == Some(r.attachment)
    ensures Creatable(records, r.doc) <==>
            && r.attachment !in records && InfoOf(r).Some? && Addresses(r.doc).Some?
            && (forall a :: a in AddrSet(r) ==> a !in addresses)
            && r.doc.ifName != "" && r.doc.ifIndex != 0
            && forall att :: att in records ==>
                 records[att].doc.ifName != r.doc.ifName && records[att].doc.ifIndex != r.doc.ifIndex
  {
    hide AddrSet, Addresses;
    DocAddresses(r);
    if Creatable(records, r.doc) {
      forall a | a in AddrSet(r) ensures a !in addresses {
        assert forall att :: att in records ==> a !in AddrSet(records[att]);
      }
    }
    if Addresses(r.doc).Some? && forall a :: a in AddrSet(r) ==> a !in addresses {
      assert r.doc.v4.Some? ==> V4(r.doc.v4.value) in AddrSet(r);
      assert r.doc.v6.Some? ==> V6(r.doc.v6.value) in AddrSet(r);
      forall att, a | att in records && a in AddrSet(records[att]) ensures a !in AddrSet(r) {}
    }
  }

  lemma CreatableNamed(records: Live, doc: Document)
    ensures Creatable(records, doc) ==> doc.attachment.Some?
  {
  }

  /** Whatever is forwarded belongs to a live record. */
  lemma ForwardedIsLive(records: Live, addresses: map<Addr, string>, d: Disk, a: Addr)
    requires CrashSafe(d) && Tracked(records, d.durable) && Indexed(records, addresses) && a in d.fwd
    ensures a in addresses
  {
    hide AddrSet, InfoOf;
    var id :| OwnedBy(d, a, id);
    var att :| TrackedAs(records, d.durable, id, att);
  }

  // ---------- forwarding of one record ----------

  /** Only this record's addresses may differ. */
  ghost predicate OthersSame(before: map<Addr, Info>, after: map<Addr, Info>, r: Record)
  {
    forall a :: a !in AddrSet(r) ==> (a in before <==> a in after) && (a in before ==> before[a] == after[a])
  }

  ghost predicate Forwards(fwd: map<Addr, Info>, r: Record)
  {
    forall a :: a in AddrSet(r) ==> a in fwd && Some(fwd[a]) == InfoOf(r)
  }

  /** An address leads to the record's interface, its endpoint number, the pod's
      hardware address and the node's. */
  predicate LeadsTo(fwd: map<Addr, Info>, a: Addr, r: Record)
  {
    && a in fwd && fwd[a].ifIndex == r.doc.ifIndex && fwd[a].endpoint == r.id
    && r.doc.macs == Some((fwd[a].mac, fwd[a].nodeMac))
  }

  /** A record is forwarded exactly when each address its document has leads to it. */
  lemma ForwardsExactly(fwd: map<Addr, Info>, r: Record)
    requires Sane(r)
    ensures Forwards(fwd, r) <==>
            && (r.doc.v4.Some? ==> LeadsTo(fwd, V4(r.doc.v4.value), r))
            && (r.doc.v6.Some? ==> LeadsTo(fwd, V6(r.doc.v6.value), r))
  {
    hide AddrSet, Addresses;
    DocAddresses(r);
  }

  /** Only this directory may differ. */
  ghost predicate DirsSame(before: map<u16, File>, after: map<u16, File>, id: u16)
  {
    forall i :: i != id ==> (i in before <==> i in after) && (i in before ==> before[i] == after[i])
  }

  /** Every live record that is not marked is published and forwarded. */
  ghost predicate Served(records: Live, deleting: set<string>, d: Disk)
  {
    forall att :: att in records && att !in deleting ==>
      && records[att].id in d.durable && d.durable[records[att].id] == Stored(records[att])
      && Forwards(d.fwd, records[att])
  }

  /** Work on one marked record leaves the others served. */
  lemma StillServed(records: Live, deleting: set<string>, before: Disk, after: Disk, r: Record)
    requires LiveOk(records) && Served(records, deleting, before)
    requires r.attachment in records && records[r.attachment] == r && r.attachment in deleting
    requires OthersSame(before.fwd, after.fwd, r) && DirsSame(before.durable, after.durable, r.id)
    ensures Served(records, deleting, after)
  {
    hide Sane, AddrSet, InfoOf;
    forall att | att in records && att !in deleting
      ensures Forwards(after.fwd, records[att]) && records[att].id != r.id
    {
      assert Apart(records[att], records[r.attachment]);
      StillForwards(before.fwd, after.fwd, records[att], r);
    }
  }

  /** Forwarding cleared for an address set that had none before is as before. */
  lemma ClearedSame(before: map<Addr, Info>, after: map<Addr, Info>, r: Record)
    requires OthersSame(before, after, r) && AddrSet(r) !! before.Keys && AddrSet(r) !! after.Keys
    ensures after == before
  {
    hide AddrSet;
    forall a ensures a in before <==> a in after {
      assert a in AddrSet(r) ==> a !in before.Keys && a !in after.Keys;
    }
  }

  lemma OthersChain(a: map<Addr, Info>, b: map<Addr, Info>, c: map<Addr, Info>, r: Record)
    requires OthersSame(a, b, r) && OthersSame(b, c, r)
    ensures OthersSame(a, c, r)
  {
    hide AddrSet;
  }

  lemma OthersSelf(a: map<Addr, Info>, r: Record)
    ensures OthersSame(a, a, r)
  {
  }

  /** The addresses in order, as the loops walk them. */
  lemma AddressList(r: Record)
    requires Addresses(r.doc).Some?
    ensures forall a :: a in AddrSet(r) <==> a in Addresses(r.doc).value
  {
  }

  method Install(world: World, r: Record) returns (ok: bool)
    requires world.Good() && Sane(r) && r.id in world.durable && world.durable[r.id] == Stored(r)
    modifies world`fwd, world`trail
    ensures world.Good() && old(world.trail) <= world.trail
    ensures OthersSame(old(world.fwd), world.fwd, r)
    ensures ok ==> Forwards(world.fwd, r)
    ensures world.healthy ==> ok
  {
    hide SafeDisk, AddrSet, InfoOf, Addresses;
    AddressList(r);
    ghost var before := world.fwd;
    var list := Addresses(r.doc).value;
    var installed: seq<(Addr, Option<Info>)> := [];
    ok := true;
    var i := 0;
    while i < |list| && ok
      invariant 0 <= i <= |list| && world.Good() && old(world.trail) <= world.trail
      invariant OthersSame(before, world.fwd, r)
      invariant forall k :: 0 <= k < i ==> list[k] in world.fwd && Some(world.fwd[list[k]]) == InfoOf(r)
      invariant forall k :: 0 <= k < |installed| ==>
                  installed[k].0 in AddrSet(r) && (installed[k].1.Some? ==> installed[k].1 == InfoOf(r))
      invariant world.healthy ==> ok
      decreases |list| - i, ok
    {
      assert list[i] in list;
      OwnEntries(world.Now(), r);
      var seen, prior := world.Snapshot(list[i]);
      ok := seen;
      if seen {
        ok := world.Upsert(list[i], r);
        if ok {
          installed := installed + [(list[i], prior)];
          i := i + 1;
        }
      }
    }
    if ok {
      ok := world.Try();
    }
    if !ok { Rollback(world, r, installed); }
  }

  /** Put back the snapshots, each absent or this record's own entry, up to the
      first failure. */
  method Rollback(world: World, r: Record, installed: seq<(Addr, Option<Info>)>)
    requires world.Good() && Sane(r) && r.id in world.durable && world.durable[r.id] == Stored(r)
    requires forall k :: 0 <= k < |installed| ==>
               installed[k].0 in AddrSet(r) && (installed[k].1.Some? ==> installed[k].1 == InfoOf(r))
    modifies world`fwd, world`trail
    ensures world.Good() && old(world.trail) <= world.trail
    ensures OthersSame(old(world.fwd), world.fwd, r)
  {
    hide SafeDisk, AddrSet, InfoOf, Addresses;
    ghost var before := world.fwd;
    for i := 0 to |installed|
      invariant world.Good() && old(world.trail) <= world.trail
      invariant OthersSame(before, world.fwd, r)
    {
      var put: bool;
      if installed[i].1.Some? {
        put := world.Upsert(installed[i].0, r);
      } else {
        put := world.RemoveIfPresent(installed[i].0);
      }
      if !put { return; }
    }
  }

  method Uninstall(world: World, r: Record) returns (ok: bool)
    requires world.Good() && Sane(r)
    modifies world`fwd, world`trail
    ensures world.Good() && old(world.trail) <= world.trail
    ensures OthersSame(old(world.fwd), world.fwd, r)
    ensures ok ==> AddrSet(r) !! world.fwd.Keys
    ensures world.healthy ==> ok
  {
    hide SafeDisk, AddrSet, InfoOf, Addresses;
    AddressList(r);
    ghost var before := world.fwd;
    var list := Addresses(r.doc).value;
    ok := world.Try();
    if !ok { return; }
    var i := 0;
    while i < |list|
      invariant 0 <= i <= |list| && world.Good() && old(world.trail) <= world.trail
      invariant OthersSame(before, world.fwd, r)
      invariant forall k :: 0 <= k < i ==> list[k] !in world.fwd
      invariant ok
    {
      assert list[i] in list;
      ok := world.RemoveIfPresent(list[i]);
      if !ok { return; }
      i := i + 1;
    }
  }

  lemma AddressesSane(r: Record)
    requires Sane(r)
    ensures Addresses(r.doc).Some? && InfoOf(r).Some? && r.id != 0
  {
  }

  lemma SaneShape(r: Record)
    requires Sane(r)
    ensures r.doc.attachment == Some(r.attachment)
  {
  }

  ghost predicate Added(before: Live, after: Live, att: string, id: u16, doc: Document)
  {
    att !in before && after == before[att := Record(id, att, doc)]
  }

  lemma NotAdded(before: Live, after: Live, r: Record)
    requires r.attachment !in before && after == before[r.attachment := r] - {r.attachment}
    ensures after == before
  {
  }

  lemma RegisterTracked(records: Live, r: Record, durable: map<u16, File>)
    requires Tracked(records, durable) && r.attachment !in records
    ensures Tracked(records[r.attachment := r], durable)
  {
    var more := records[r.attachment := r];
    forall id | id in durable ensures exists att :: TrackedAs(more, durable, id, att) {
      var att :| TrackedAs(records, durable, id, att);
      assert TrackedAs(more, durable, id, att);
    }
  }

  lemma UnregisterTracked(records: Live, r: Record, durable: map<u16, File>)
    requires Tracked(records, durable) && r.attachment in records && records[r.attachment] == r && r.id !in durable
    ensures Tracked(records - {r.attachment}, durable)
  {
    forall id | id in durable ensures exists att :: TrackedAs(records - {r.attachment}, durable, id, att) {
      var att :| TrackedAs(records, durable, id, att);
      assert TrackedAs(records - {r.attachment}, durable, id, att);
    }
  }

  lemma LiveSane(records: Live, att: string)
    requires LiveOk(records) && att in records
    ensures Sane(records[att]) && records[att].attachment == att
  {
  }

  lemma RegisterIndexed(records: Live, before: map<Addr, string>, r: Record, after: map<Addr, string>)
    requires Indexed(records, before) && r.attachment !in records
    requires forall x :: x in after <==> x in before || x in AddrSet(r)
    requires forall x :: x in after ==> after[x] == if x in AddrSet(r) then r.attachment else before[x]
    ensures Indexed(records[r.attachment := r], after)
  {
    hide AddrSet;
  }

  lemma UnregisterIndexed(records: Live, before: map<Addr, string>, r: Record, after: map<Addr, string>)
    requires LiveOk(records) && Indexed(records, before) && r.attachment in records && records[r.attachment] == r
    requires forall x :: x in after <==> x in before && x !in AddrSet(r)
    requires forall x :: x in after ==> after[x] == before[x]
    ensures Indexed(records - {r.attachment}, after)
  {
    hide Sane, AddrSet;
    var less := records - {r.attachment};
    forall att, x | att in less && x in AddrSet(less[att]) ensures x in after {
      assert Apart(records[att], records[r.attachment]);
    }
  }

  /** Records in the store are apart from a record that is apart from all live ones. */
  lemma StoredApart(records: Live, durable: map<u16, File>, r: Record)
    requires Tracked(records, durable) && forall att :: att in records ==> Apart(records[att], r)
    ensures forall id :: id in durable && durable[id].Stored? ==> Apart(durable[id].record, r)
  {
    hide Apart;
    forall id | id in durable && durable[id].Stored? ensures Apart(durable[id].record, r) {
      var att :| TrackedAs(records, durable, id, att);
    }
  }

  lemma PublishedTracked(records: Live, before: map<u16, File>, after: map<u16, File>, r: Record)
    requires Tracked(records, before) && r.attachment in records && records[r.attachment] == r
    requires after == before || after == before[r.id := Stored(r)]
    ensures Tracked(records, after)
  {
    forall id | id in after ensures exists att :: TrackedAs(records, after, id, att) {
      if id == r.id && after != before {
        assert TrackedAs(records, after, id, r.attachment);
      } else {
        var att :| TrackedAs(records, before, id, att);
        assert TrackedAs(records, after, id, att);
      }
    }
  }

  lemma RemovedTracked(records: Live, before: map<u16, File>, after: map<u16, File>, r: Record)
    requires Tracked(records, before)
    requires after == before || after == before - {r.id} || after == before[r.id := Torn]
    requires r.attachment in records && records[r.attachment] == r
    ensures Tracked(records, after)
  {
    forall id | id in after ensures exists att :: TrackedAs(records, after, id, att) {
      if id == r.id && after[id] == Torn {
        assert TrackedAs(records, after, id, r.attachment);
      } else {
        var att :| TrackedAs(records, before, id, att);
        assert TrackedAs(records, after, id, att);
      }
    }
  }

  /** What a live record's directory holds is that record. */
  lemma UnusedId(records: Live, durable: map<u16, File>, id: u16)
    requires Tracked(records, durable) && id !in Ids(records)
    ensures id !in durable
  {
    assert forall att :: att in records ==> records[att].id in Ids(records);
  }

  lemma StoredIs(records: Live, durable: map<u16, File>, att: string)
    requires LiveOk(records) && Tracked(records, durable) && att in records
    requires records[att].id in durable && durable[records[att].id].Stored?
    ensures durable[records[att].id].record == records[att]
  {
    hide Sane;
    var other :| TrackedAs(records, durable, records[att].id, other);
    assert other != att ==> Apart(records[other], records[att]);
  }

  // ---------- the records on disk ----------

  /** The checks a restart makes of the published records. */
  ghost predicate Acceptable(durable: map<u16, File>)
  {
    && (forall id :: id in durable ==>
          && durable[id].Stored? && durable[id].record.id == id && WellNamed(durable[id].record)
          && Addresses(durable[id].record.doc).Some?)
    && (forall i, j :: i in durable && j in durable && i != j ==> Separate(durable[i].record, durable[j].record))
  }

  predicate WellNamed(r: Record)
  {
    r.id != 0 && r.doc.attachment == Some(r.attachment) && r.doc.ifName != "" && r.doc.ifIndex != 0
  }

  ghost predicate Separate(a: Record, b: Record)
  {
    && a.attachment != b.attachment
    && a.doc.ifName != b.doc.ifName && a.doc.ifIndex != b.doc.ifIndex && AddrSet(a) !! AddrSet(b)
  }

  /** A restart's record checks accept what a run left exactly when no directory
      was caught between the removal of its file and its own. */
  lemma RestartAccepts(d: Disk)
    requires SafeDisk(d)
    ensures Acceptable(d.durable) <==> NoTorn(d)
  {
    hide AddrSet, Addresses;
    if NoTorn(d) {
      forall i, j | i in d.durable && j in d.durable && i != j
        ensures Separate(d.durable[i].record, d.durable[j].record)
      {
        assert Apart(d.durable[i].record, d.durable[j].record);
      }
    }
  }

  /** The first effect of taking any directory down leaves a safe machine on
      which every restart fails. */
  lemma TornRefused(d: Disk, id: u16)
    requires SafeDisk(d) && id in d.durable && d.durable[id].Stored?
    requires AddrSet(d.durable[id].record) !! d.fwd.Keys
    ensures Allowed(d, Tearing(id))
    ensures var e := Apply(d, Tearing(id)); SafeDisk(e) && !NoTorn(e) && !Acceptable(e.durable)
  {
    hide AddrSet;
    EffectSafe(d, Tearing(id));
    assert Apply(d, Tearing(id)).durable[id] == Torn;
  }

  /** Such a machine is four states into its history for every endpoint: created
      without forwarding, then deleted up to the file. */
  lemma TornReached(r: Record) returns (trail: seq<Disk>)
    requires Sane(r)
    ensures History(trail) && |trail| == 4
    ensures trail[2].durable == map[r.id := Stored(r)] && trail[3].durable == map[r.id := Torn]
    ensures Acceptable(trail[2].durable) && !Acceptable(trail[3].durable)
  {
    hide AddrSet, Addresses, InfoOf;
    trail := [BLANK];
    HistoryMore(trail, Staging(r.id));
    trail := trail + [Apply(BLANK, Staging(r.id))];
    var staged := trail[1];
    HistoryMore(trail, Publishing(r));
    trail := trail + [Apply(staged, Publishing(r))];
    var published := trail[2];
    RestartAccepts(published);
    TornRefused(published, r.id);
    HistoryMore(trail, Tearing(r.id));
    trail := trail + [Apply(published, Tearing(r.id))];
  }

  /** A record that can be published, so the above is about something. */
  lemma SomeRecord() returns (r: Record)
    ensures Sane(r)
  {
    r := Record(1, "a", Document(Some("a"), "lxc1", 7, Some((1, 2)), None, Some(0x0a000002), true, "ns/pod"));
    assert ([] + [V4(0x0a000002)])[0] == V4(0x0a000002);
  }

  /** A list of exactly the published records. */
  ghost predicate Lists(durable: map<u16, File>, rs: seq<Record>)
  {
    && (forall i :: 0 <= i < |rs| ==> rs[i].id in durable && durable[rs[i].id] == Stored(rs[i]))
    && (forall id :: id in durable ==>
          durable[id].Stored? && durable[id].record.id == id && durable[id].record in rs)
    && (forall i, j :: 0 <= i < j < |rs| ==> rs[i].id != rs[j].id)
  }

  ghost predicate AllApart(rs: seq<Record>)
  {
    && (forall i :: 0 <= i < |rs| ==> Sane(rs[i]))
    && (forall i, j :: 0 <= i < j < |rs| ==> Apart(rs[i], rs[j]))
  }

  lemma ListedApart(d: Disk, rs: seq<Record>)
    requires DiskOk(d) && Lists(d.durable, rs)
    ensures AllApart(rs)
  {
    hide Sane;
    forall i, j | 0 <= i < j < |rs| ensures Apart(rs[i], rs[j]) {
      assert Apart(d.durable[rs[i].id].record, d.durable[rs[j].id].record);
    }
  }

  /** Named records with one attachment each. */
  ghost predicate NamedApart(rs: seq<Record>)
  {
    && (forall i :: 0 <= i < |rs| ==> rs[i].id != 0 && rs[i].doc.attachment == Some(rs[i].attachment))
    && (forall i, j :: 0 <= i < j < |rs| ==> rs[i].attachment != rs[j].attachment)
  }

  /** Part way through the scan. */
  ghost predicate Scanned(durable: map<u16, File>, done: set<u16>, rs: seq<Record>)
  {
    && (forall id :: id in done ==> id in durable && durable[id].Stored? && durable[id].record.id == id
                                    && durable[id].record in rs)
    && (forall r :: r in rs ==> r.id in done && durable[r.id] == Stored(r))
  }

  ghost predicate NoSharedId(rs: seq<Record>) { forall i, j :: 0 <= i < j < |rs| ==> rs[i].id != rs[j].id }

  function Names(rs: seq<Record>): set<string> { set r | r in rs :: r.attachment }

  lemma ScannedMore(durable: map<u16, File>, done: set<u16>, rs: seq<Record>, id: u16)
    requires Scanned(durable, done, rs) && id in durable && durable[id].Stored? && durable[id].record.id == id
    ensures Scanned(durable, done + {id}, rs + [durable[id].record])
  {
    var r := durable[id].record;
    assert forall x :: x in rs + [r] <==> x in rs || x == r;
  }

  lemma AppendNamed(rs: seq<Record>, r: Record)
    requires NamedApart(rs) && NoSharedId(rs)
    requires r.id != 0 && r.doc.attachment == Some(r.attachment) && r.attachment !in Names(rs)
    requires forall x :: x in rs ==> x.id != r.id
    ensures NamedApart(rs + [r]) && NoSharedId(rs + [r]) && Names(rs + [r]) == Names(rs) + {r.attachment}
  {
    hide Names;
    var more := rs + [r];
    NamesMore(rs, r);
    assert forall i :: 0 <= i < |rs| ==> more[i] == rs[i];
    forall i | 0 <= i < |rs| ensures rs[i].attachment != r.attachment { NameOf(rs, i); }
  }

  lemma NamesMore(rs: seq<Record>, r: Record)
    ensures Names(rs + [r]) == Names(rs) + {r.attachment}
  {
    assert forall x :: x in rs + [r] <==> x in rs || x == r;
  }

  lemma NameOf(rs: seq<Record>, i: nat)
    requires i < |rs|
    ensures rs[i].attachment in Names(rs)
  {
  }

  lemma RepeatedAttachment(durable: map<u16, File>, done: set<u16>, rs: seq<Record>, id: u16)
    requires Scanned(durable, done, rs) && id in durable && id !in done && durable[id].Stored?
    requires durable[id].record.attachment in Names(rs)
    ensures !Acceptable(durable)
  {
    hide AddrSet, Addresses;
    var r :| r in rs && r.attachment == durable[id].record.attachment;
    assert !Separate(durable[r.id].record, durable[id].record);
  }

  /** The directory scan of a restart. */
  method ScanDirectories(durable: map<u16, File>) returns (r: Result<seq<Record>, Failure>)
    ensures r.Ok? ==> Lists(durable, r.value) && NamedApart(r.value)
    ensures Acceptable(durable) ==> r.Ok?
  {
    hide AddrSet, Addresses, NamedApart, Separate, Names;
    var rs: seq<Record> := [];
    var attachments: set<string> := {};
    var todo := durable.Keys;
    assert durable.Keys - todo == {};
    NothingNamed();
    while todo != {}
      invariant todo <= durable.Keys && Scanned(durable, durable.Keys - todo, rs)
      invariant NamedApart(rs) && NoSharedId(rs) && attachments == Names(rs)
      decreases |todo|
    {
      var id :| id in todo;
      var file := durable[id];
      if file.Torn? { return Err(BadState); }
      var record := file.record;
      if record.id == 0 || record.doc.attachment != Some(record.attachment) || record.id != id { return Err(BadState); }
      if record.attachment in attachments {
        RepeatedAttachment(durable, durable.Keys - todo, rs, id);
        return Err(BadState);
      }
      ScannedMore(durable, durable.Keys - todo, rs, id);
      AppendNamed(rs, record);
      assert durable.Keys - (todo - {id}) == (durable.Keys - todo) + {id};
      todo := todo - {id};
      attachments := attachments + {record.attachment};
      rs := rs + [record];
    }
    assert durable.Keys - todo == durable.Keys;
    r := Ok(rs);
  }

  lemma NothingNamed()
    ensures NamedApart([]) && NoSharedId([]) && Names([]) == {}
  {
  }

  /** The records a restart reads, or a refusal. */
  method ReadRecords(world: World) returns (r: Result<seq<Record>, Failure>)
    ensures r.Ok? ==> Lists(world.durable, r.value) && Acceptable(world.durable)
    ensures Acceptable(world.durable) ==> r.Ok?
  {
    hide Acceptable, OwnersOk, AddressesApart, Lists, NamedApart;
    var scanned := ScanDirectories(world.durable);
    if scanned.Err? { return scanned; }
    var rs := scanned.value;
    var owned := ValidateOwners(rs);
    if !owned {
      AcceptableOwners(world.durable, rs);
      return Err(InterfaceOwned);
    }
    var unique := UniqueAddresses(rs);
    if !unique {
      AcceptableAddresses(world.durable, rs);
      return Err(AddressTaken);
    }
    ChecksSuffice(world.durable, rs);
    r := scanned;
  }

  ghost predicate AddressesApart(rs: seq<Record>)
  {
    && (forall i :: 0 <= i < |rs| ==> Addresses(rs[i].doc).Some?)
    && (forall i, j :: 0 <= i < j < |rs| ==> AddrSet(rs[i]) !! AddrSet(rs[j]))
  }

  method UniqueAddresses(rs: seq<Record>) returns (ok: bool)
    ensures ok <==> AddressesApart(rs)
  {
    hide Addresses;
    var seen: set<Addr> := {};
    for i := 0 to |rs|
      invariant AddressesApart(rs[..i])
      invariant forall k :: 0 <= k < i ==> AddrSet(rs[k]) <= seen
      invariant forall a :: a in seen ==> exists k :: 0 <= k < i && a in AddrSet(rs[k])
    {
      var list := Addresses(rs[i].doc);
      if list.None? { return false; }
      AddressList(rs[i]);
      ghost var before := seen;
      for j := 0 to |list.value|
        invariant forall a :: a in seen <==> a in before || a in list.value[..j]
        invariant forall k :: 0 <= k < j ==> list.value[k] !in before
      {
        var a := list.value[j];
        if a in seen {
          assert !AddressesApart(rs) by {
            assert a !in list.value[..j];
            var k :| 0 <= k < i && a in AddrSet(rs[k]);
            assert a in AddrSet(rs[k]) && a in AddrSet(rs[i]);
          }
          return false;
        }
        seen := seen + {a};
      }
      assert list.value[..|list.value|] == list.value;
      assert forall k :: 0 <= k < i ==> rs[..i + 1][k] == rs[..i][k];
      forall k | 0 <= k < i ensures AddrSet(rs[k]) !! AddrSet(rs[i]) {
        assert AddrSet(rs[k]) <= before;
      }
    }
    assert rs[..|rs|] == rs;
    ok := true;
  }

  lemma AcceptableOwners(durable: map<u16, File>, rs: seq<Record>)
    requires Lists(durable, rs)
    ensures Acceptable(durable) ==> OwnersOk(rs)
  {
    hide AddrSet, Addresses;
    if Acceptable(durable) {
      forall i, j | 0 <= i < j < |rs|
        ensures rs[i].doc.ifName != rs[j].doc.ifName && rs[i].doc.ifIndex != rs[j].doc.ifIndex
      {
        assert Separate(durable[rs[i].id].record, durable[rs[j].id].record);
      }
    }
  }

  lemma AcceptableAddresses(durable: map<u16, File>, rs: seq<Record>)
    requires Lists(durable, rs)
    ensures Acceptable(durable) ==> AddressesApart(rs)
  {
    hide AddrSet, Addresses;
    if Acceptable(durable) {
      forall i, j | 0 <= i < j < |rs| ensures AddrSet(rs[i]) !! AddrSet(rs[j]) {
        assert Separate(durable[rs[i].id].record, durable[rs[j].id].record);
      }
    }
  }

  lemma ChecksSuffice(durable: map<u16, File>, rs: seq<Record>)
    requires Lists(durable, rs) && OwnersOk(rs) && AddressesApart(rs) && NamedApart(rs)
    ensures Acceptable(durable)
  {
    hide AddrSet, Addresses;
    forall i, j | i in durable && j in durable && i != j ensures Separate(durable[i].record, durable[j].record) {
      var m :| 0 <= m < |rs| && rs[m] == durable[i].record;
      var n :| 0 <= n < |rs| && rs[n] == durable[j].record;
      assert rs[m].id in durable && rs[n].id in durable;
    }
    forall id | id in durable
      ensures durable[id].record.id == id && WellNamed(durable[id].record) && Addresses(durable[id].record.doc).Some?
    {
      var m :| 0 <= m < |rs| && rs[m] == durable[id].record;
    }
  }

  /** A list of records as a map by attachment. */
  ghost predicate SameRecords(rs: seq<Record>, live: Live)
  {
    && (forall i :: 0 <= i < |rs| ==> rs[i].attachment in live && live[rs[i].attachment] == rs[i])
    && (forall att :: att in live ==> live[att] in rs)
  }

  /** Every record is in one of two lists. */
  ghost predicate Parted(rs: seq<Record>, viable: seq<Record>, stale: seq<Record>)
  {
    && (forall r :: r in rs <==> r in viable || r in stale)
    && (forall r :: r in viable ==> r !in stale)
  }

  /** The two lists are of the records with a host link and without. */
  ghost predicate ByLink(links: set<string>, viable: seq<Record>, stale: seq<Record>)
  {
    && (forall r :: r in viable ==> r.doc.ifName in links)
    && (forall r :: r in stale ==> r.doc.ifName !in links)
  }

  /** The live records are the published ones that still have their host link. */
  ghost predicate KeptByLink(durable: map<u16, File>, links: set<string>, records: Live)
  {
    && (forall att :: att in records ==>
          records[att].id in durable && durable[records[att].id] == Stored(records[att])
          && records[att].doc.ifName in links)
    && (forall id :: id in durable && durable[id].Stored? && durable[id].record.doc.ifName in links ==>
          durable[id].record.attachment in records && records[durable[id].record.attachment] == durable[id].record)
  }

  lemma KeptViable(durable: map<u16, File>, links: set<string>, rs: seq<Record>, viable: seq<Record>,
                   stale: seq<Record>, records: Live)
    requires Lists(durable, rs) && Parted(rs, viable, stale) && ByLink(links, viable, stale)
    requires SameRecords(viable, records)
    ensures KeptByLink(durable, links, records)
  {
    PartsListed(durable, rs, viable, stale);
    forall id | id in durable && durable[id].Stored? && durable[id].record.doc.ifName in links
      ensures durable[id].record.attachment in records && records[durable[id].record.attachment] == durable[id].record
    {
      var r := durable[id].record;
      assert r in rs && r in viable;
      var i :| 0 <= i < |viable| && viable[i] == r;
    }
  }

  lemma AllServed(records: Live, viable: seq<Record>, d: Disk)
    requires SameRecords(viable, records)
    requires forall r :: r in viable ==> r.id in d.durable && d.durable[r.id] == Stored(r)
    requires forall att :: att in records ==> Forwards(d.fwd, records[att])
    ensures Served(records, {}, d)
  {
  }

  /** Addresses of a record apart from every live one are not indexed. */
  lemma AddressesFree(live: Live, addresses: map<Addr, string>, record: Record)
    requires Indexed(live, addresses) && Addresses(record.doc).Some?
    requires forall att :: att in live ==> Apart(live[att], record)
    ensures forall a :: a in Addresses(record.doc).value ==> a !in addresses
  {
    hide AddrSet, Addresses;
    AddressList(record);
    forall att | att in live ensures AddrSet(live[att]) !! AddrSet(record) { assert Apart(live[att], record); }
  }

  lemma OneOfEach(record: Record)
    requires Addresses(record.doc).Some?
    ensures var ips := Addresses(record.doc).value; forall i, j :: 0 <= i < j < |ips| ==> ips[i] != ips[j]
  {
  }

  lemma FreshId(live: Live, record: Record)
    requires forall att :: att in live ==> Apart(live[att], record)
    ensures record.id !in Ids(live)
  {
    hide AddrSet;
    forall att | att in live ensures live[att].id != record.id { assert Apart(live[att], record); }
  }

  lemma ApartFromEarlier(rs: seq<Record>, n: nat, live: Live)
    requires AllApart(rs) && n < |rs|
    requires forall att :: att in live ==> live[att].attachment == att && live[att] in rs[..n]
    ensures rs[n].attachment !in live && forall att :: att in live ==> Apart(live[att], rs[n])
  {
    hide Sane, AddrSet;
    forall att | att in live ensures Apart(live[att], rs[n]) && att != rs[n].attachment {
      var i :| 0 <= i < n && rs[..n][i] == live[att];
      assert Apart(rs[i], rs[n]);
    }
  }

  lemma NotEarlier(rs: seq<Record>, n: nat)
    requires AllApart(rs) && n < |rs|
    ensures rs[n] !in rs[..n] && rs[..n + 1] == rs[..n] + [rs[n]]
  {
    hide Sane, AddrSet;
    forall i | 0 <= i < n ensures rs[i] != rs[n] { assert Apart(rs[i], rs[n]); }
  }

  lemma PartedMore(rs: seq<Record>, n: nat, viable: seq<Record>, stale: seq<Record>)
    requires AllApart(rs) && n < |rs| && Parted(rs[..n], viable, stale)
    ensures Parted(rs[..n + 1], viable + [rs[n]], stale) && Parted(rs[..n + 1], viable, stale + [rs[n]])
  {
    hide AllApart;
    NotEarlier(rs, n);
    assert forall r :: r in rs[..n + 1] <==> r in rs[..n] || r == rs[n];
  }

  lemma SameMore(rs: seq<Record>, live: Live, r: Record)
    requires SameRecords(rs, live) && r.attachment !in live
    ensures SameRecords(rs + [r], live[r.attachment := r])
  {
    var more := rs + [r];
    forall i | 0 <= i < |more| ensures more[i].attachment in live[r.attachment := r] {
      if i < |rs| { assert more[i] == rs[i]; }
    }
  }

  lemma EmptyLive()
    ensures LiveOk(map[]) && Indexed(map[], map[]) && Ids(map[]) == {} && SameRecords([], map[]) && Parted([], [], [])
    ensures AllApart([])
  {
  }

  lemma ApartSane(rs: seq<Record>, i: nat)
    requires AllApart(rs) && i < |rs|
    ensures Sane(rs[i])
  {
  }

  lemma SortedApart(rs: seq<Record>, n: nat, viable: seq<Record>, stale: seq<Record>, live: Live)
    requires AllApart(rs) && n < |rs| && Parted(rs[..n], viable, stale) && LiveOk(live) && SameRecords(viable, live)
    ensures rs[n].attachment !in live && forall att :: att in live ==> Apart(live[att], rs[n])
  {
    hide Sane, AddrSet, Apart, AllApart;
    ApartFromEarlier(rs, n, live);
  }

  lemma AppendApart(rs: seq<Record>, n: nat, list: seq<Record>)
    requires AllApart(rs) && n < |rs| && AllApart(list) && forall r :: r in list ==> r in rs[..n]
    ensures AllApart(list + [rs[n]])
  {
    hide Sane, Apart;
    var more := list + [rs[n]];
    forall i, j | 0 <= i < j < |more| ensures Apart(more[i], more[j]) {
      assert more[i] == list[i] && list[i] in rs[..n];
      var k :| 0 <= k < n && rs[..n][k] == list[i];
      if j == |list| { assert Apart(rs[k], rs[n]); } else { assert more[j] == list[j]; }
    }
  }

  lemma PartsApart(rs: seq<Record>, n: nat, viable: seq<Record>, stale: seq<Record>)
    requires AllApart(rs) && n < |rs| && AllApart(viable) && AllApart(stale) && Parted(rs[..n], viable, stale)
    ensures AllApart(viable + [rs[n]]) && AllApart(stale + [rs[n]])
  {
    hide AllApart;
    AppendApart(rs, n, viable);
    AppendApart(rs, n, stale);
  }

  lemma ApartIds(rs: seq<Record>)
    requires AllApart(rs)
    ensures forall i, j :: 0 <= i < j < |rs| ==> rs[i].id != rs[j].id
    ensures forall i :: 0 <= i < |rs| ==> Sane(rs[i])
  {
    hide Sane, AddrSet;
    forall i, j | 0 <= i < j < |rs| ensures rs[i].id != rs[j].id { assert Apart(rs[i], rs[j]); }
  }

  lemma PartsListed(durable: map<u16, File>, rs: seq<Record>, viable: seq<Record>, stale: seq<Record>)
    requires Lists(durable, rs) && Parted(rs, viable, stale)
    ensures forall r :: r in viable || r in stale ==> r.id in durable && durable[r.id] == Stored(r)
  {
    forall r | r in viable || r in stale ensures r.id in durable && durable[r.id] == Stored(r) {
      assert r in rs;
      var i :| 0 <= i < |rs| && rs[i] == r;
    }
  }

  /** What is left after the stale records are gone is the viable ones. */
  lemma RemainingStored(before: map<u16, File>, rs: seq<Record>, viable: seq<Record>, stale: seq<Record>,
                        after: map<u16, File>)
    requires Lists(before, rs) && Parted(rs, viable, stale)
    requires after == before - set i | 0 <= i < |stale| :: stale[i].id
    ensures forall r :: r in viable ==> r.id in after && after[r.id] == Stored(r)
    ensures forall id :: id in after ==> after[id].Stored? && after[id].record.id == id && after[id].record in viable
  {
    PartsListed(before, rs, viable, stale);
    forall r | r in viable ensures r.id in after {
      forall i | 0 <= i < |stale| ensures stale[i].id != r.id {
        assert stale[i] in stale;
      }
    }
    forall id | id in after ensures after[id].record in viable {
      var r := before[id].record;
      assert r in rs;
      assert forall i :: 0 <= i < |stale| ==> stale[i].id != id;
    }
  }

  lemma AllLive(viable: seq<Record>, live: Live, records: Live)
    requires SameRecords(viable, live) && SameRecords(viable, records)
    requires forall att :: att in live ==> live[att].attachment == att
    requires forall att :: att in records ==> records[att].attachment == att
    ensures records == live
  {
    forall att | att in live ensures att in records && records[att] == live[att] {
      var i :| 0 <= i < |viable| && viable[i] == live[att];
    }
    forall att | att in records ensures att in live {
      var i :| 0 <= i < |viable| && viable[i] == records[att];
    }
  }

  lemma RemainingTracked(durable: map<u16, File>, viable: seq<Record>, records: Live)
    requires SameRecords(viable, records)
    requires forall id :: id in durable ==>
               durable[id].Stored? && durable[id].record.id == id && durable[id].record in viable
    ensures Tracked(records, durable)
  {
    forall id | id in durable ensures exists att :: TrackedAs(records, durable, id, att) {
      var r := durable[id].record;
      var i :| 0 <= i < |viable| && viable[i] == r;
      assert TrackedAs(records, durable, id, r.attachment);
    }
  }

  lemma MembersOf(rs: seq<Record>, live: Live)
    requires SameRecords(rs, live)
    ensures forall att :: att in live ==> live[att] in rs
  {
  }

  lemma StillForwards(before: map<Addr, Info>, after: map<Addr, Info>, r: Record, other: Record)
    requires Forwards(before, r) && OthersSame(before, after, other) && Apart(r, other)
    ensures Forwards(after, r)
  {
    hide AddrSet, InfoOf;
  }

  lemma SameServed(records: Live, deleting: set<string>, before: Disk, after: Disk)
    requires Served(records, deleting, before) && after.durable == before.durable && after.fwd == before.fwd
    ensures Served(records, deleting, after)
  {
  }

  lemma MarkServed(records: Live, deleting: set<string>, d: Disk, att: string)
    requires Served(records, deleting, d)
    ensures Served(records, deleting + {att}, d)
  {
  }

  lemma AlsoServed(records: Live, deleting: set<string>, d: Disk, r: Record)
    requires Served(records, deleting, d) && r.attachment in records && records[r.attachment] == r
    requires r.id in d.durable && d.durable[r.id] == Stored(r) && Forwards(d.fwd, r)
    ensures Served(records, deleting - {r.attachment}, d)
  {
  }

  class Manager {
    const world: World
    const ids: IdPool
    var records: Live
    var addresses: map<Addr, string>
    var deleting: set<string>

    constructor (machine: World, limit: u16)
      ensures world == machine && records == map[] && addresses == map[] && deleting == {}
      ensures fresh(ids) && ids.used == {} && ids.max == limit
    {
      world := machine;
      ids := new IdPool(limit);
      records := map[];
      addresses := map[];
      deleting := {};
    }

    /** Everything but the ID pool. */
    ghost predicate Consistent()
      reads this, world
    {
      && LiveOk(records) && Indexed(records, addresses) && Tracked(records, world.durable)
      && Served(records, deleting, world.Now()) && deleting <= records.Keys && world.Good()
    }

    /** What holds between calls. */
    ghost predicate Valid()
      reads this, world, ids
    {
      Consistent() && ids.used == Ids(records)
    }

    /** Take one restored record's addresses; the lease can be refused. */
    method AdoptAddresses(record: Record, ghost live: Live) returns (ok: bool)
      requires Sane(record) && Indexed(live, addresses) && record.attachment !in live
      modifies this`addresses
      ensures ok ==> Indexed(live[record.attachment := record], addresses)
      ensures world.healthy && (forall att :: att in live ==> Apart(live[att], record)) ==> ok
    {
      hide Sane, AddrSet, Addresses, Indexed, Apart;
      AddressesSane(record);
      AddressList(record);
      var ips := Addresses(record.doc).value;
      ghost var before := addresses;
      ghost var clear := forall att :: att in live ==> Apart(live[att], record);
      assert clear ==> forall a :: a in ips ==> a !in before by {
        if clear { AddressesFree(live, addresses, record); }
      }
      OneOfEach(record);
      for i := 0 to |ips|
        invariant forall x :: x in addresses <==> x in before || x in ips[..i]
        invariant forall x :: x in addresses ==> addresses[x] == if x in ips[..i] then record.attachment else before[x]
      {
        assert ips[..i + 1] == ips[..i] + [ips[i]];
        assert clear ==> ips[i] !in addresses by { assert ips[i] in ips; }
        if ips[i] in addresses { return false; }
        addresses := addresses[ips[i] := record.attachment];
        var leased := world.Try();
        if !leased { return false; }
      }
      assert ips[..|ips|] == ips;
      RegisterIndexed(live, before, record, addresses);
      ok := true;
    }

    /** Sort the restored records into those whose link is there and the rest. */
    method Adopt(rs: seq<Record>, links: set<string>)
      returns (ok: bool, viable: seq<Record>, stale: seq<Record>, ghost live: Live)
      requires AllApart(rs) && ids.used == {} && addresses == map[]
      modifies this`addresses, ids
      ensures ok ==> Parted(rs, viable, stale) && LiveOk(live) && SameRecords(viable, live)
      ensures ok ==> AllApart(viable) && AllApart(stale) && ByLink(links, viable, stale)
      ensures ok ==> Indexed(live, addresses) && ids.used == Ids(live)
      ensures world.healthy ==> ok
    {
      hide Sane, AddrSet, InfoOf, Indexed, Apart, Ids, AllApart, Parted, SameRecords;
      ok, viable, stale, live := true, [], [], map[];
      EmptyLive();
      assert rs[..0] == [];
      for i := 0 to |rs|
        invariant Parted(rs[..i], viable, stale) && LiveOk(live) && SameRecords(viable, live)
        invariant AllApart(viable) && AllApart(stale) && ByLink(links, viable, stale)
        invariant Indexed(live, addresses) && ids.used == Ids(live)
      {
        var record := rs[i];
        PartedMore(rs, i, viable, stale);
        PartsApart(rs, i, viable, stale);
        assert Sane(record) by { ApartSane(rs, i); }
        var asked := world.Try();
        if !asked { return false, viable, stale, live; }
        if record.doc.ifName !in links {
          assert InfoOf(record).Some? by { AddressesSane(record); }
          if InfoOf(record).None? { return false, viable, stale, live; }
          stale := stale + [record];
          continue;
        }
        SortedApart(rs, i, viable, stale, live);
        AddLive(live, record);
        SameMore(viable, live, record);
        FreshId(live, record);
        AddressesSane(record);
        var reserved := ids.Reserve(record.id);
        if !reserved { return false, viable, stale, live; }
        var matches := world.Try();
        if !matches { return false, viable, stale, live; }
        var taken := AdoptAddresses(record, live);
        if !taken { return false, viable, stale, live; }
        viable := viable + [record];
        live := live[record.attachment := record];
      }
      assert rs[..|rs|] == rs;
    }

    /** Remove the records whose link is gone: forwarding first, then the directory. */
    method DropStale(stale: seq<Record>) returns (ok: bool)
      requires world.Good()
      requires forall i :: 0 <= i < |stale| ==>
                 Sane(stale[i]) && stale[i].id in world.durable && world.durable[stale[i].id] == Stored(stale[i])
      requires forall i, j :: 0 <= i < j < |stale| ==> stale[i].id != stale[j].id
      modifies world`durable, world`staged, world`fwd, world`trail
      ensures world.Good() && old(world.trail) <= world.trail
      ensures ok ==> world.durable == old(world.durable) - set i | 0 <= i < |stale| :: stale[i].id
      ensures world.healthy ==> ok
    {
      hide Sane, AddrSet, InfoOf, Addresses, SafeDisk, OthersSame;
      for k := 0 to |stale|
        invariant world.durable == old(world.durable) && world.Good() && old(world.trail) <= world.trail
      {
        AddressesSane(stale[k]);
        var list := Addresses(stale[k].doc).value;
        OwnEntries(world.Now(), stale[k]);
        AddressList(stale[k]);
        ghost var now := world.Now();
        for i := 0 to |list|
          invariant world.Now() == now && world.Good() && old(world.trail) <= world.trail
          {
          assert list[i] in list;
          var seen, prior := world.Snapshot(list[i]);
          if !seen || (prior.Some? && prior != InfoOf(stale[k])) { return false; }
        }
      }
      ghost var gone: set<u16> := {};
      for k := 0 to |stale|
        invariant gone == set i | 0 <= i < k :: stale[i].id
        invariant world.durable == old(world.durable) - gone && world.Good() && old(world.trail) <= world.trail
      {
        var undone := Uninstall(world, stale[k]);
        if !undone { return false; }
        ghost var durable := world.durable;
        var removed := world.Remove(stale[k].id);
        if !removed { return false; }
        gone := gone + {stale[k].id};
        assert world.durable == old(world.durable) - gone;
      }
      ok := true;
    }

    /** Put back the forwarding of the restored records, and make them live. */
    method InstallAll(viable: seq<Record>) returns (ok: bool)
      requires world.Good() && records == map[] && AllApart(viable)
      requires forall i :: 0 <= i < |viable| ==>
                 viable[i].id in world.durable && world.durable[viable[i].id] == Stored(viable[i])
      modifies this`records, world`fwd, world`trail
      ensures world.Good() && old(world.trail) <= world.trail
      ensures ok ==> SameRecords(viable, records) && forall att :: att in records ==> records[att].attachment == att
      ensures ok ==> forall att :: att in records ==> Forwards(world.fwd, records[att])
      ensures world.healthy ==> ok
    {
      hide Sane, AddrSet, InfoOf, SafeDisk, OthersSame, Forwards, Apart, SameRecords;
      EmptyLive();
      assert viable[..0] == [];
      for k := 0 to |viable|
        invariant world.Good() && old(world.trail) <= world.trail
        invariant SameRecords(viable[..k], records) && forall att :: att in records ==> records[att].attachment == att
        invariant forall i :: 0 <= i < k ==> Forwards(world.fwd, viable[i])
      {
        ghost var before := world.fwd;
        var installed := Install(world, viable[k]);
        if !installed { return false; }
        forall i | 0 <= i < k ensures Forwards(world.fwd, viable[i]) {
          StillForwards(before, world.fwd, viable[i], viable[k]);
        }
        MembersOf(viable[..k], records);
        ApartFromEarlier(viable, k, records);
        SameMore(viable[..k], records, viable[k]);
        assert viable[..k + 1] == viable[..k] + [viable[k]];
        records := records[viable[k].attachment := viable[k]];
      }
      assert viable[..|viable|] == viable;
      MembersOf(viable, records);
      ok := true;
    }

    /** Take up the published records: those with their link are put back, the rest
        removed. */
    method Resume(rs: seq<Record>, links: set<string>) returns (fault: Option<Failure>)
      requires world.Good() && NoTorn(world.Now()) && Lists(world.durable, rs) && AllApart(rs)
      requires records == map[] && addresses == map[] && deleting == {} && ids.used == {}
      modifies this`records, this`addresses, ids, world`durable, world`staged, world`fwd, world`trail
      ensures world.Good() && old(world.trail) <= world.trail
      ensures fault.None? ==> Valid() && NoTorn(world.Now()) && KeptByLink(old(world.durable), links, records)
      ensures world.healthy ==> fault.None?
    {
      hide Sane, AddrSet, InfoOf, Addresses, Apart, Parted, SameRecords, AllApart, Ids, Indexed, Forwards, CrashSafe;
      hide ByLink, KeptByLink, Served, History;
      var sorted, viable, stale, live := Adopt(rs, links);
      if !sorted { return Some(BadState); }
      PartsListed(world.durable, rs, viable, stale);
      ApartIds(stale);
      ghost var durable := world.durable;
      var dropped := DropStale(stale);
      if !dropped { return Some(TeardownFailed); }
      RemainingStored(durable, rs, viable, stale, world.durable);
      var installed := InstallAll(viable);
      if !installed { return Some(InstallFailed); }
      AllLive(viable, live, records);
      RemainingTracked(world.durable, viable, records);
      KeptViable(durable, links, rs, viable, stale, records);
      AllServed(records, viable, world.Now());
      fault := None;
    }

    /** Start from what a run left, with some host links present: exactly the
        published records that have their link are live, all of them served, or
        the start fails and the machine is still safe. An unacceptable set of
        records fails before anything changes; without faults nothing else does. */
    static method Restore(world: World, limit: u16, pinned: bool, links: set<string>)
      returns (r: Result<Manager, Failure>)
      requires world.Good()
      modifies world`durable, world`staged, world`fwd, world`trail
      ensures world.Good() && old(world.trail) <= world.trail
      ensures r.Ok? ==>
                && fresh(r.value) && fresh(r.value.ids) && r.value.world == world && r.value.Valid()
                && r.value.deleting == {} && NoTorn(world.Now())
                && KeptByLink(old(world.durable), links, r.value.records)
      ensures !NoTorn(old(world.Now())) ==> r.Err? && world.Now() == old(world.Now())
      ensures world.healthy ==> (r.Ok? <==> NoTorn(old(world.Now())))
    {
      hide Sane, AddrSet, InfoOf, Addresses, Apart, Parted, SameRecords, AllApart, Ids, Indexed, Forwards, CrashSafe;
      hide ByLink, KeptByLink, Served, History;
      RestartAccepts(world.Now());
      var read := ReadRecords(world);
      if read.Err? { return Err(read.error); }
      var rs := read.value;
      ListedApart(world.Now(), rs);
      var manager := new Manager(world, limit);
      if !pinned { world.FreshMap(); }
      var fault := manager.Resume(rs, links);
      r := if fault.Some? then Err(fault.value) else Ok(manager);
    }

    /** Every check that precedes the first effect of a create. */
    method Preflight(id: u16, doc: Document) returns (r: Result<Record, Failure>)
      requires Consistent() && id != 0 && id !in Ids(records)
      ensures r.Ok? ==> r.value.id == id && r.value.doc == doc && Sane(r.value)
      ensures r.Ok? ==> r.value.attachment !in records && forall att :: att in records ==> Apart(records[att], r.value)
      ensures r.Ok? ==> AddrSet(r.value) !! world.fwd.Keys
      ensures r.Err? ==> r.error != Exhausted
      ensures r.Ok? ==> Creatable(records, doc)
      ensures world.healthy && Creatable(records, doc) ==> r.Ok?
    {
      hide AddrSet, Addresses, Tracked, LiveOk, Indexed, OwnersOk, History, CrashSafe, Creatable;
      CreatableNamed(records, doc);
      var parsed := Parse(id, doc);
      if parsed.None? { return Err(BadDocument); }
      var record := parsed.value;
      CreatableMeans(records, addresses, record);
      if record.attachment in records { return Err(AttachmentExists); }
      var live := Values(records);
      LiveOwners(records, live, record);
      var owned := ValidateOwners(live + [record]);
      if !owned { return Err(InterfaceOwned); }
      assert (live + [record])[|live|] == record;
      var ips := Addresses(doc);
      if ips.None? { return Err(BadDocument); }
      AddressList(record);
      for i := 0 to |ips.value|
        invariant forall k :: 0 <= k < i ==> ips.value[k] !in addresses
      {
        var leased := world.Try();
        assert ips.value[i] in ips.value;
        if ips.value[i] in addresses || !leased { return Err(AddressTaken); }
      }
      if InfoOf(record).None? { return Err(BadDocument); }
      var linked := world.Try();
      if !linked { return Err(LinkMismatch); }
      for i := 0 to |ips.value|
        invariant forall k :: 0 <= k < i ==> ips.value[k] !in world.fwd
      {
        var seen, prior := world.Snapshot(ips.value[i]);
        if ips.value[i] in world.fwd { ForwardedIsLive(records, addresses, world.Now(), ips.value[i]); }
        if !seen || prior.Some? { return Err(MapOwned); }
      }
      PreflightApart(records, addresses, live, record);
      r := Ok(record);
    }

    /** Take ownership of a checked record in memory, before it is published. */
    method Register(record: Record)
      requires Consistent() && Sane(record) && record.attachment !in records
      requires forall att :: att in records ==> Apart(records[att], record)
      modifies this
      ensures Consistent()
      ensures records == old(records)[record.attachment := record] && deleting == old(deleting) + {record.attachment}
      ensures Ids(records) == Ids(old(records)) + {record.id}
    {
      hide Forwards, Sane, AddrSet, Addresses, SafeDisk, LiveOk, Indexed, Tracked, Ids, Apart;
      AddressesSane(record);
      AddressList(record);
      var ips := Addresses(record.doc).value;
      ghost var before := addresses;
      AddLive(records, record);
      RegisterTracked(records, record, world.durable);
      for i := 0 to |ips|
        invariant records == old(records) && deleting == old(deleting)
        invariant forall x :: x in addresses <==> x in before || x in ips[..i]
        invariant forall x :: x in addresses ==> addresses[x] == if x in ips[..i] then record.attachment else before[x]
      {
        assert ips[..i + 1] == ips[..i] + [ips[i]];
        addresses := addresses[ips[i] := record.attachment];
      }
      assert ips[..|ips|] == ips;
      RegisterIndexed(records, before, record, addresses);
      records := records[record.attachment := record];
      deleting := deleting + {record.attachment};
    }

    /** Give up a record that left no durable trace. */
    method Unregister(record: Record)
      requires Consistent() && record.attachment in records && records[record.attachment] == record
      requires record.id !in world.durable
      modifies this
      ensures Consistent()
      ensures records == old(records) - {record.attachment} && deleting == old(deleting) - {record.attachment}
      ensures Ids(records) == Ids(old(records)) - {record.id}
    {
      hide Forwards, Sane, AddrSet, Addresses, SafeDisk, LiveOk, Indexed, Tracked, Ids, Apart;
      assert Sane(record) by { LiveSane(records, record.attachment); }
      AddressesSane(record);
      AddressList(record);
      var ips := Addresses(record.doc).value;
      ghost var before := addresses;
      DropLive(records, record.attachment);
      UnregisterTracked(records, record, world.durable);
      for i := 0 to |ips|
        invariant records == old(records) && deleting == old(deleting)
        invariant forall x :: x in addresses <==> x in before && x !in ips[..i]
        invariant forall x :: x in addresses ==> addresses[x] == before[x]
      {
        assert ips[..i + 1] == ips[..i] + [ips[i]];
        addresses := addresses - {ips[i]};
      }
      assert ips[..|ips|] == ips;
      UnregisterIndexed(records, before, record, addresses);
      records := records - {record.attachment};
      deleting := deleting - {record.attachment};
    }

    /** What a failed create with a number leaves: everything as before, or the
        record live and marked and nothing else touched. */
    twostate predicate CreateFailed(id: u16, att: string, doc: Document)
      reads this, world
    {
      || (records == old(records) && deleting == old(deleting)
          && world.durable == old(world.durable) && world.fwd == old(world.fwd))
      || (Added(old(records), records, att, id, doc) && deleting == old(deleting) + {att}
          && DirsSame(old(world.durable), world.durable, id)
          && OthersSame(old(world.fwd), world.fwd, Record(id, att, doc)))
    }

    /** What a create with a number leaves when it succeeds: the record live,
        published and forwarded, and nothing else touched. */
    twostate predicate CreateDone(id: u16, att: string, doc: Document)
      reads this, world
    {
      && Added(old(records), records, att, id, doc) && deleting == old(deleting)
      && id !in old(world.durable) && world.durable == old(world.durable)[id := Stored(records[att])]
      && Forwards(world.fwd, records[att]) && OthersSame(old(world.fwd), world.fwd, records[att])
    }

    method CreateAs(id: u16, doc: Document) returns (r: Result<u16, Failure>, ghost att: string)
      requires Consistent() && id != 0 && id !in Ids(records)
      modifies this, world`durable, world`staged, world`fwd, world`trail
      ensures Consistent() && old(world.trail) <= world.trail
      ensures match r
              case Ok(given) => given == id && CreateDone(id, att, doc)
              case Err(_) => CreateFailed(id, att, doc)
      ensures Ids(records) == Ids(old(records)) + {id} || (r.Err? && Ids(records) == Ids(old(records)))
      ensures r.Err? ==> r.error != Exhausted
      ensures r.Ok? ==> Creatable(old(records), doc)
      ensures world.healthy && id !in old(world.staged) && Creatable(old(records), doc) ==> r.Ok?
    {
      hide Sane, AddrSet, InfoOf, Addresses, SafeDisk, Forwards, OthersSame, Apart, LiveOk, Indexed, Ids, Tracked;
      hide Served, History, Creatable;
      assert id !in world.durable by { UnusedId(records, world.durable, id); }
      att := "";
      var checked := Preflight(id, doc);
      if checked.Err? { return Err(checked.error), att; }
      var record := checked.value;
      att := record.attachment;
      assert record == Record(id, att, doc) by { SaneShape(record); }
      ghost var before := world.Now();
      OthersSelf(before.fwd, record);
      var staged := world.Stage(record);
      SameServed(records, deleting, before, world.Now());
      if !staged { return Err(StoreFailed), att; }
      StoredApart(records, world.durable, record);
      Register(record);
      ghost var registered := world.Now();
      var published := world.Publish(record);
      PublishedTracked(records, registered.durable, world.durable, record);
      StillServed(records, deleting, registered, world.Now(), record);
      if !published { return Err(StoreFailed), att; }
      var deployed := Deploy(record, before);
      if !deployed {
        if record.attachment !in records { NotAdded(old(records), records, record); }
        return Err(InstallFailed), att;
      }
      r := Ok(id);
    }

    /** Put a published record into service, or undo its create. */
    method Deploy(record: Record, ghost before: Disk) returns (ok: bool)
      requires Consistent() && Sane(record) && record.attachment in records && records[record.attachment] == record
      requires record.attachment in deleting && record.id !in before.durable
      requires world.durable == before.durable[record.id := Stored(record)]
      requires world.fwd == before.fwd && AddrSet(record) !! before.fwd.Keys
      modifies this, world`durable, world`staged, world`fwd, world`trail
      ensures Consistent() && old(world.trail) <= world.trail
      ensures ok ==>
                && records == old(records) && deleting == old(deleting) - {record.attachment}
                && world.durable == old(world.durable)
                && Forwards(world.fwd, record) && OthersSame(before.fwd, world.fwd, record)
      ensures !ok ==>
                || (records == old(records) - {record.attachment} && deleting == old(deleting) - {record.attachment}
                    && Ids(records) == Ids(old(records)) - {record.id}
                    && world.durable == before.durable && world.fwd == before.fwd)
                || (records == old(records) && deleting == old(deleting)
                    && DirsSame(before.durable, world.durable, record.id) && OthersSame(before.fwd, world.fwd, record))
      ensures world.healthy ==> ok
    {
      hide Sane, AddrSet, InfoOf, Addresses, SafeDisk, Forwards, OthersSame, Apart, LiveOk, Indexed, Ids, Tracked;
      hide Served, History;
      ghost var stored := world.Now();
      ok := Install(world, record);
      StillServed(records, deleting, stored, world.Now(), record);
      if !ok {
        TakeBack(record, before);
        return;
      }
      AlsoServed(records, deleting, world.Now(), record);
      deleting := deleting - {record.attachment};
    }

    /** Undo a create whose forwarding failed: all of it, or the record stays live
        and marked. */
    method TakeBack(record: Record, ghost before: Disk)
      requires Consistent() && Sane(record) && record.attachment in records && records[record.attachment] == record
      requires record.attachment in deleting && record.id !in before.durable
      requires world.durable == before.durable[record.id := Stored(record)]
      requires OthersSame(before.fwd, world.fwd, record) && AddrSet(record) !! before.fwd.Keys
      modifies this, world`durable, world`staged, world`fwd, world`trail
      ensures Consistent() && old(world.trail) <= world.trail
      ensures
        || (records == old(records) - {record.attachment} && deleting == old(deleting) - {record.attachment}
            && Ids(records) == Ids(old(records)) - {record.id}
            && world.durable == before.durable && world.fwd == before.fwd)
        || (records == old(records) && deleting == old(deleting)
            && DirsSame(before.durable, world.durable, record.id) && OthersSame(before.fwd, world.fwd, record))
    {
      hide Sane, AddrSet, InfoOf, Addresses, SafeDisk, Forwards, OthersSame, Apart, LiveOk, Indexed, Ids, Tracked;
      hide Served, History;
      ghost var published := world.Now();
      var undone := Uninstall(world, record);
      OthersChain(before.fwd, published.fwd, world.fwd, record);
      StillServed(records, deleting, published, world.Now(), record);
      if !undone { return; }
      ghost var cleared := world.Now();
      OthersSelf(cleared.fwd, record);
      var removed := world.Remove(record.id);
      RemovedTracked(records, cleared.durable, world.durable, record);
      StillServed(records, deleting, cleared, world.Now(), record);
      if !removed { return; }
      Unregister(record);
      ClearedSame(before.fwd, world.fwd, record);
      assert world.durable == before.durable;
    }

    /** Create an endpoint under the lowest free number. On success it is live,
        durable and forwarded; on a failure everything is as it was, or the record
        stays live, marked as being deleted, because its teardown is uncertain.
        Nothing of any other endpoint changes. Without faults it succeeds exactly
        for documents that can stand beside the live records, while a number is
        free that no earlier attempt left a staging directory for. */
    method Create(doc: Document) returns (r: Result<u16, Failure>, ghost att: string)
      requires Valid()
      modifies this, ids, world`durable, world`staged, world`fwd, world`trail
      ensures Valid() && old(world.trail) <= world.trail
      ensures match r
              case Ok(id) =>
                && CreateDone(id, att, doc)
                && id !in old(ids.used) && forall i: u16 :: 1 <= i < id ==> i in old(ids.used)
              case Err(_) => exists id :: CreateFailed(id, att, doc)
      ensures r.Ok? ==> Creatable(old(records), doc)
      ensures r == Err(Exhausted) ==> forall i: u16 :: 1 <= i <= ids.max ==> i in old(ids.used)
      ensures world.healthy && Creatable(old(records), doc) ==>
                forall id: u16 :: NextId(old(ids.used), ids.max, id) && id !in old(world.staged) ==> r == Ok(id)
    {
      hide LiveOk, Indexed, Tracked, Ids, Forwards, OthersSame, Creatable;
      var given := ids.Allocate();
      if given.Err? {
        assert CreateFailed(0, "", doc);
        return Err(given.error), "";
      }
      var id := given.value;
      r, att := CreateAs(id, doc);
      var kept := HasId(id);
      if r.Err? && !kept { ids.Release(id); }
      assert r.Err? ==> CreateFailed(id, att, doc);
    }

    /** Whether some live record has the number. */
    method HasId(id: u16) returns (found: bool)
      ensures found <==> id in Ids(records)
    {
      var todo := records.Keys;
      while todo != {}
        invariant todo <= records.Keys && forall att :: att in records.Keys - todo ==> records[att].id != id
        decreases |todo|
      {
        var att :| att in todo;
        if records[att].id == id { return true; }
        todo := todo - {att};
      }
      found := false;
    }

    /** Delete an endpoint. On success nothing of it is left; a failure keeps it
        live and marked, so that deleting can be retried. Nothing of any other
        endpoint changes. Without faults it succeeds, also after failed attempts. */
    method Delete(att: string) returns (r: Result<bool, Failure>)
      requires Valid()
      modifies this, ids, world`durable, world`staged, world`fwd, world`trail
      ensures Valid() && old(world.trail) <= world.trail
      ensures match r
              case Ok(false) =>
                && att !in old(records) && records == old(records) && deleting == old(deleting)
                && world.Now() == old(world.Now())
              case Ok(true) =>
                && att in old(records) && records == old(records) - {att} && deleting == old(deleting) - {att}
                && world.durable == old(world.durable) - {old(records)[att].id}
                && OthersSame(old(world.fwd), world.fwd, old(records)[att])
                && AddrSet(old(records)[att]) !! world.fwd.Keys
              case Err(_) =>
                && att in old(records) && records == old(records) && deleting == old(deleting) + {att}
                && OthersSame(old(world.fwd), world.fwd, records[att])
                && DirsSame(old(world.durable), world.durable, records[att].id)
      ensures world.healthy ==> r.Ok?
    {
      hide Sane, AddrSet, InfoOf, Addresses, SafeDisk, Apart, Indexed, Tracked, OthersSame, Ids;
      hide Served, Forwards, History;
      if att !in records { return Ok(false); }
      var record := records[att];
      assert record.attachment == att && Sane(record);
      MarkServed(records, deleting, world.Now(), att);
      ghost var before := world.Now();
      deleting := deleting + {att};
      var undone := Uninstall(world, record);
      StillServed(records, deleting, before, world.Now(), record);
      if !undone { return Err(TeardownFailed); }
      var unlinked := world.Try();
      if !unlinked { return Err(TeardownFailed); }
      if record.id in world.durable && world.durable[record.id].Stored? { StoredIs(records, world.durable, att); }
      ghost var cleared := world.Now();
      OthersSelf(cleared.fwd, record);
      var removed := world.Remove(record.id);
      RemovedTracked(records, cleared.durable, world.durable, record);
      StillServed(records, deleting, cleared, world.Now(), record);
      if !removed { return Err(StoreFailed); }
      Unregister(record);
      ids.Release(record.id);
      r := Ok(true);
    }
  }

  // ---------- every run ----------

  /** Agents that start, serve any calls and stop at any point between two
      effects, over and over: the machine goes from empty through one allowed
      effect at a time, every state on the way is safe, and a restart's record
      checks accept it exactly when no directory is torn. */
  method AnyRun(steps: nat, limit: u16) returns (history: seq<Disk>)
    ensures History(history)
    ensures forall i :: 0 <= i < |history| ==> (Acceptable(history[i].durable) <==> NoTorn(history[i]))
  {
    hide SafeDisk, Acceptable, NoTorn, LiveOk, Indexed, Tracked, Ids, Forwards, OthersSame, AddrSet, Served;
    var world := new World();
    var manager: Manager? := null;
    for step := 0 to steps
      invariant fresh(world) && world.Good()
      invariant manager != null ==> fresh(manager) && fresh(manager.ids) && manager.world == world && manager.Valid()
    {
      world.healthy := *;
      if manager == null {
        var pinned: bool := *;
        var links: set<string> := *;
        var started := Manager.Restore(world, limit, pinned, links);
        if started.Ok? { manager := started.value; }
      } else {
        var create: bool := *;
        if create {
          var doc: Document := *;
          var made, att := manager.Create(doc);
        } else {
          var att: string := *;
          var gone := manager.Delete(att);
        }
      }
      var stop: bool := *;
      if stop {
        var at: nat := *;
        if at < |world.trail| { world.StopAt(at); }
        manager := null;
      }
    }
    history := world.trail;
    forall i | 0 <= i < |history| ensures Acceptable(history[i].durable) <==> NoTorn(history[i]) {
      RestartAccepts(history[i]);
    }
  }
}
