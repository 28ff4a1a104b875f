/** Endpoint records, the durable store, the forwarding map and every effect on
    them, each of which may fail or be the last before a crash
    (crates/flowsdn-agent/src/state.rs:14-258,
    crates/flowsdn-agent/src/endpoints.rs:30-82). */
module EndpointStore {
  import opened Bytes

  datatype Addr = V4(v4: u32) | V6(v6: nat)

  /** An endpoint document as its readers parse it: absent or malformed parts
      are `None`, an empty name or a zero index. */
  datatype Document = Document(
    attachment: Option<string>,
    ifName: string,
    ifIndex: u32,
    macs: Option<(u64, u64)>,
    v6: Option<nat>,
    v4: Option<u32>,
    addressesParse: bool,
    owner: string)

  datatype Record = Record(id: u16, attachment: string, doc: Document)

  /** A forwarding-map value. */
  datatype Info = Info(ifIndex: u32, endpoint: u16, mac: u64, nodeMac: u64)

  function Parse(id: u16, doc: Document): Option<Record>
  {
    if id == 0 || doc.attachment.None? then None else Some(Record(id, doc.attachment.value, doc))
  }

  /** The addresses of a document, IPv6 first. */
  function Addresses(doc: Document): (r: Option<seq<Addr>>)
    ensures r.Some? ==> r.value != [] && forall i, j :: 0 <= i < j < |r.value| ==> r.value[i] != r.value[j]
  {
    var list := (if doc.v6.Some? then [V6(doc.v6.value)] else []) + (if doc.v4.Some? then [V4(doc.v4.value)] else []);
    if !doc.addressesParse || list == [] then None else Some(list)
  }

  function InfoOf(r: Record): Option<Info>
  {
    if r.doc.ifIndex == 0 || r.doc.macs.None? then None
    else Some(Info(r.doc.ifIndex, r.id, r.doc.macs.value.0, r.doc.macs.value.1))
  }

  function AddrSet(r: Record): set<Addr>
  {
    match Addresses(r.doc)
    case None => {}
    case Some(list) => set a | a in list
  }

  /** What every record that reaches the store has. */
  predicate Sane(r: Record)
  {
    && r.id != 0 && r.doc.attachment == Some(r.attachment) && r.doc.ifName != ""
    && Addresses(r.doc).Some? && InfoOf(r).Some?
  }

  /** Two endpoints share nothing that identifies one. */
  ghost predicate Apart(a: Record, b: Record)
  {
    && a.id != b.id && a.attachment != b.attachment
    && a.doc.ifName != b.doc.ifName && a.doc.ifIndex != b.doc.ifIndex
    && AddrSet(a) !! AddrSet(b)
  }

  /** A numbered directory: published, or left without its file. */
  datatype File = Torn | Stored(record: Record)

  /** What survives the process: directories, staging directories, the pinned map. */
  datatype Disk = Disk(durable: map<u16, File>, staged: set<u16>, fwd: map<Addr, Info>)

  ghost predicate DiskOk(d: Disk)
  {
    && (forall id :: id in d.durable && d.durable[id].Stored? ==>
          d.durable[id].record.id == id && Sane(d.durable[id].record))
    && (forall i, j :: i in d.durable && j in d.durable && i != j && d.durable[i].Stored? && d.durable[j].Stored? ==>
          Apart(d.durable[i].record, d.durable[j].record))
  }

  /** The published record that forwarding of an address belongs to. */
  ghost predicate OwnedBy(d: Disk, a: Addr, id: u16)
  {
    && id in d.durable && d.durable[id].Stored?
    && a in AddrSet(d.durable[id].record) && a in d.fwd
    && InfoOf(d.durable[id].record) == Some(d.fwd[a])
  }

  /** Every forwarded address belongs to a durable published record. */
  ghost predicate CrashSafe(d: Disk)
  {
    forall a :: a in d.fwd ==> exists id :: OwnedBy(d, a, id)
  }

  ghost predicate SafeDisk(d: Disk) { DiskOk(d) && CrashSafe(d) }

  ghost predicate NoTorn(d: Disk) { forall id :: id in d.durable ==> d.durable[id].Stored? }

  /** A published record's addresses carry its own entries or none. */
  lemma OwnEntries(d: Disk, r: Record)
    requires SafeDisk(d) && r.id in d.durable && d.durable[r.id] == Stored(r)
    ensures forall a :: a in AddrSet(r) && a in d.fwd ==> Some(d.fwd[a]) == InfoOf(r)
  {
    hide AddrSet, InfoOf, Sane;
    forall a | a in AddrSet(r) && a in d.fwd ensures Some(d.fwd[a]) == InfoOf(r) {
      var id :| OwnedBy(d, a, id);
      assert id != r.id ==> Apart(d.durable[id].record, d.durable[r.id].record);
    }
  }

  lemma UpsertSafe(d: Disk, r: Record, a: Addr)
    requires SafeDisk(d) && r.id in d.durable && d.durable[r.id] == Stored(r) && a in AddrSet(r) && InfoOf(r).Some?
    ensures SafeDisk(d.(fwd := d.fwd[a := InfoOf(r).value]))
  {
    hide AddrSet, InfoOf, Sane, Apart;
    var e := d.(fwd := d.fwd[a := InfoOf(r).value]);
    forall b | b in e.fwd ensures exists id :: OwnedBy(e, b, id) {
      if b == a {
        assert OwnedBy(e, b, r.id);
      } else {
        var id :| OwnedBy(d, b, id);
        assert OwnedBy(e, b, id);
      }
    }
  }

  lemma RemoveSafe(d: Disk, a: Addr)
    requires SafeDisk(d)
    ensures SafeDisk(d.(fwd := d.fwd - {a}))
  {
    hide AddrSet, InfoOf, Sane, Apart;
    var e := d.(fwd := d.fwd - {a});
    forall b | b in e.fwd ensures exists id :: OwnedBy(e, b, id) {
      var id :| OwnedBy(d, b, id);
      assert OwnedBy(e, b, id);
    }
  }

  /** Taking a directory apart is safe once nothing is forwarded for it. */
  lemma TearSafe(d: Disk, id: u16)
    requires SafeDisk(d)
    requires id in d.durable && d.durable[id].Stored? ==> AddrSet(d.durable[id].record) !! d.fwd.Keys
    ensures SafeDisk(d.(durable := d.durable[id := Torn]))
  {
    hide AddrSet, InfoOf, Sane, Apart;
    var e := d.(durable := d.durable[id := Torn]);
    forall b | b in d.fwd ensures exists i :: OwnedBy(e, b, i) {
      var i :| OwnedBy(d, b, i);
      assert b in d.fwd.Keys;
      assert OwnedBy(e, b, i);
    }
  }

  lemma DropTornSafe(d: Disk, id: u16)
    requires SafeDisk(d) && id in d.durable && d.durable[id] == Torn
    ensures SafeDisk(d.(durable := d.durable - {id}))
  {
    hide AddrSet, InfoOf, Sane, Apart;
    var e := d.(durable := d.durable - {id});
    forall b | b in d.fwd ensures exists i :: OwnedBy(e, b, i) {
      var i :| OwnedBy(d, b, i);
      assert OwnedBy(e, b, i);
    }
  }

  lemma PublishSafe(d: Disk, r: Record)
    requires SafeDisk(d) && r.id !in d.durable && Sane(r)
    requires forall id :: id in d.durable && d.durable[id].Stored? ==> Apart(d.durable[id].record, r)
    ensures SafeDisk(d.(durable := d.durable[r.id := Stored(r)]))
  {
    hide AddrSet, InfoOf, Sane;
    var e := d.(durable := d.durable[r.id := Stored(r)]);
    forall b | b in e.fwd ensures exists i :: OwnedBy(e, b, i) {
      var i :| OwnedBy(d, b, i);
      assert OwnedBy(e, b, i);
    }
    forall i, j | i in e.durable && j in e.durable && i != j && e.durable[i].Stored? && e.durable[j].Stored?
      ensures Apart(e.durable[i].record, e.durable[j].record)
    {
      if i == r.id { ApartSymmetric(d.durable[j].record, r); }
    }
  }

  lemma ApartSymmetric(a: Record, b: Record)
    requires Apart(a, b)
    ensures Apart(b, a)
  {
  }

  /** Staging directories play no part. */
  lemma StagedApart(d: Disk, staged: set<u16>)
    ensures SafeDisk(d.(staged := staged)) <==> SafeDisk(d)
  {
    hide AddrSet, InfoOf, Sane, Apart;
    var e := d.(staged := staged);
    forall b, i ensures OwnedBy(e, b, i) <==> OwnedBy(d, b, i) {}
    assert CrashSafe(e) <==> CrashSafe(d) by {
      if CrashSafe(e) {
        forall b | b in d.fwd ensures exists i :: OwnedBy(d, b, i) {
          var i :| OwnedBy(e, b, i);
          assert OwnedBy(d, b, i);
        }
      }
      if CrashSafe(d) {
        forall b | b in e.fwd ensures exists i :: OwnedBy(e, b, i) {
          var i :| OwnedBy(d, b, i);
          assert OwnedBy(e, b, i);
        }
      }
    }
  }

  // ---------- one effect at a time ----------

  /** The atomic effects on the machine. */
  datatype Effect =
    | Staging(id: u16) | Unstaging(id: u16) | Publishing(record: Record)
    | Tearing(id: u16) | Dropping(id: u16)
    | Pointing(address: Addr, owner: Record) | Clearing(address: Addr) | Renewing

  /** When the manager may have an effect: publication is of a staged record apart
      from all others, forwarding is of a published record, and a file goes only
      after its forwarding. */
  ghost predicate Allowed(d: Disk, x: Effect)
  {
    match x
    case Staging(id) => id !in d.staged && id !in d.durable
    case Unstaging(id) => id in d.staged
    case Publishing(r) =>
      && Sane(r) && r.id in d.staged && r.id !in d.durable
      && forall id :: id in d.durable && d.durable[id].Stored? ==> Apart(d.durable[id].record, r)
    case Tearing(id) =>
      id in d.durable && (d.durable[id].Stored? ==> AddrSet(d.durable[id].record) !! d.fwd.Keys)
    case Dropping(id) => id in d.durable && d.durable[id] == Torn
    case Pointing(a, r) =>
      r.id in d.durable && d.durable[r.id] == Stored(r) && a in AddrSet(r) && InfoOf(r).Some?
    case Clearing(_) => true
    case Renewing => true
  }

  ghost function Apply(d: Disk, x: Effect): (e: Disk)
    requires Allowed(d, x)
  {
    match x
    case Staging(id) => d.(staged := d.staged + {id})
    case Unstaging(id) => d.(staged := d.staged - {id})
    case Publishing(r) => d.(durable := d.durable[r.id := Stored(r)], staged := d.staged - {r.id})
    case Tearing(id) => d.(durable := d.durable[id := Torn])
    case Dropping(id) => d.(durable := d.durable - {id})
    case Pointing(a, r) => d.(fwd := d.fwd[a := InfoOf(r).value])
    case Clearing(a) => d.(fwd := d.fwd - {a})
    case Renewing => d.(fwd := map[])
  }

  lemma EffectSafe(d: Disk, x: Effect)
    requires SafeDisk(d) && Allowed(d, x)
    ensures SafeDisk(Apply(d, x))
  {
    hide SafeDisk, AddrSet, InfoOf, Sane, Apart;
    match x
    case Staging(id) => StagedApart(d, d.staged + {id});
    case Unstaging(id) => StagedApart(d, d.staged - {id});
    case Publishing(r) =>
      PublishSafe(d, r);
      StagedApart(d.(durable := d.durable[r.id := Stored(r)]), d.staged - {r.id});
    case Tearing(id) => TearSafe(d, id);
    case Dropping(id) => DropTornSafe(d, id);
    case Pointing(a, r) => UpsertSafe(d, r, a);
    case Clearing(a) => RemoveSafe(d, a);
    case Renewing => RenewSafe(d);
  }

  lemma RenewSafe(d: Disk)
    requires SafeDisk(d)
    ensures SafeDisk(d.(fwd := map[]))
  {
  }

  /** Adjacent states of a trail are one allowed effect apart. */
  ghost predicate Follows(trail: seq<Disk>, i: nat)
    requires i + 1 < |trail|
  {
    exists x :: Allowed(trail[i], x) && trail[i + 1] == Apply(trail[i], x)
  }

  const BLANK := Disk(map[], {}, map[])

  /** What a machine went through, from an empty one: effect by effect, safe in
      between. */
  ghost predicate History(trail: seq<Disk>)
  {
    && trail != [] && trail[0] == BLANK
    && (forall i :: 0 <= i < |trail| ==> SafeDisk(trail[i]))
    && (forall i: nat :: i + 1 < |trail| ==> Follows(trail, i))
  }

  lemma HistoryMore(trail: seq<Disk>, x: Effect)
    requires History(trail) && Allowed(trail[|trail| - 1], x)
    ensures History(trail + [Apply(trail[|trail| - 1], x)])
  {
    hide SafeDisk, Allowed, Apply;
    var last := |trail| - 1;
    var more := trail + [Apply(trail[last], x)];
    EffectSafe(trail[last], x);
    forall i: nat | i + 1 < |more| ensures Follows(more, i) {
      assert more[i] == trail[i];
      if i < last {
        assert Follows(trail, i) && more[i + 1] == trail[i + 1];
      }
    }
  }

  lemma HistoryLess(trail: seq<Disk>, n: nat)
    requires History(trail) && 0 < n <= |trail|
    ensures History(trail[..n])
  {
    hide SafeDisk, Allowed, Apply;
    forall i: nat | i + 1 < n ensures Follows(trail[..n], i) {
      assert Follows(trail, i) && trail[..n][i] == trail[i] && trail[..n][i + 1] == trail[i + 1];
    }
  }

  /** The machine outside the process, with every state it went through. */
  class World {
    var durable: map<u16, File>
    var staged: set<u16>
    var fwd: map<Addr, Info>
    var trail: seq<Disk>
    /** While set, kernel and filesystem do what they are asked. */
    var healthy: bool

    constructor ()
      ensures Now() == BLANK && trail == [BLANK] && Good()
    {
      healthy := true;
      durable := map[];
      staged := {};
      fwd := map[];
      trail := [BLANK];
    }

    function Now(): Disk
      reads this
    {
      Disk(durable, staged, fwd)
    }

    /** The trail is the history of the machine up to now, so every effect so far
        is in it. */
    ghost predicate Good()
      reads this
    {
      SafeDisk(Now()) && History(trail) && trail[|trail| - 1] == Now()
    }

    /** Record the effect that has just happened. */
    method Note(ghost x: Effect)
      requires History(trail) && Allowed(trail[|trail| - 1], x) && Now() == Apply(trail[|trail| - 1], x)
      modifies this`trail
      ensures Good() && trail == old(trail) + [Now()]
    {
      hide SafeDisk, Allowed, Apply;
      EffectSafe(trail[|trail| - 1], x);
      HistoryMore(trail, x);
      trail := trail + [Now()];
    }

    /** The process stops with the machine in an earlier state of the trail: the
        effects after it never happened. */
    method StopAt(k: nat)
      requires Good() && k < |trail|
      modifies this`durable, this`staged, this`fwd, this`trail
      ensures Good() && Now() == old(trail)[k] && trail == old(trail)[..k + 1]
    {
      hide SafeDisk;
      HistoryLess(trail, k + 1);
      durable := trail[k].durable;
      staged := trail[k].staged;
      fwd := trail[k].fwd;
      trail := trail[..k + 1];
    }

    /** Any call into the kernel or the filesystem without a lasting effect of
        interest here: it succeeds or fails, and fails only for a fault. */
    method Try() returns (ok: bool)
      ensures healthy ==> ok
    {
      if healthy { return true; }
      ok := *;
    }

    /** Load the forwarding map anew, without the pinned one. */
    method FreshMap()
      requires Good()
      modifies this`fwd, this`trail
      ensures Good() && old(trail) <= trail && fwd == map[]
    {
      hide SafeDisk;
      fwd := map[];
      Note(Renewing);
    }

    /** Prepare `<id>_next`; refused when the directory or a leftover exists. */
    method Stage(r: Record) returns (ok: bool)
      requires Good()
      modifies this`staged, this`trail
      ensures Good() && old(trail) <= trail
      ensures r.id in durable || r.id in old(staged) ==> !ok && staged == old(staged)
      ensures healthy && r.id !in durable && r.id !in old(staged) ==> ok
      ensures staged == old(staged) + {r.id} || (!ok && staged == old(staged))
    {
      hide SafeDisk;
      if r.id in durable || r.id in staged { return false; }
      ok := Try();
      if !ok { return; }
      staged := staged + {r.id};
      Note(Staging(r.id));
      ok := Try();
      if !ok {
        var cleaned := Try();
        if cleaned {
          staged := staged - {r.id};
          Note(Unstaging(r.id));
          assert staged == old(staged);
        }
      }
    }

    /** Rename the staging directory; an error may follow the rename. */
    method Publish(r: Record) returns (ok: bool)
      requires Good() && Sane(r) && r.id !in durable && r.id in staged
      requires forall id :: id in durable && durable[id].Stored? ==> Apart(durable[id].record, r)
      modifies this`durable, this`staged, this`trail
      ensures Good() && old(trail) <= trail
      ensures durable == old(durable)[r.id := Stored(r)] || (!ok && durable == old(durable))
      ensures staged == old(staged) - {r.id} || (durable == old(durable) && staged == old(staged))
      ensures healthy ==> ok
    {
      hide SafeDisk, Sane, Apart;
      ok := Try();
      if ok {
        durable := durable[r.id := Stored(r)];
        staged := staged - {r.id};
        Note(Publishing(r));
        ok := Try();
      } else {
        var cleaned := Try();
        if cleaned {
          staged := staged - {r.id};
          Note(Unstaging(r.id));
        }
      }
    }

    /** Take a directory down: its file first, then the directory. */
    method Remove(id: u16) returns (ok: bool)
      requires Good()
      requires id in durable && durable[id].Stored? ==> AddrSet(durable[id].record) !! fwd.Keys
      modifies this`durable, this`trail
      ensures Good() && old(trail) <= trail
      ensures ok ==> durable == old(durable) - {id}
      ensures durable == old(durable) || durable == old(durable) - {id} || durable == old(durable)[id := Torn]
      ensures healthy ==> ok
    {
      hide SafeDisk, AddrSet;
      ok := Try();
      if !ok { return; }
      if id !in durable {
        assert durable - {id} == durable;
        return;
      }
      ghost var before := durable;
      durable := durable[id := Torn];
      Note(Tearing(id));
      ok := Try();
      if !ok { return; }
      assert durable - {id} == before - {id};
      durable := durable - {id};
      Note(Dropping(id));
      ok := Try();
    }

    method Snapshot(a: Addr) returns (ok: bool, prior: Option<Info>)
      ensures ok ==> prior == if a in fwd then Some(fwd[a]) else None
      ensures healthy ==> ok
    {
      ok := Try();
      prior := if a in fwd then Some(fwd[a]) else None;
    }

    /** Point an address of a published record at its endpoint; an error may
        follow the write. */
    method Upsert(a: Addr, r: Record) returns (ok: bool)
      requires Good() && r.id in durable && durable[r.id] == Stored(r) && a in AddrSet(r) && InfoOf(r).Some?
      modifies this`fwd, this`trail
      ensures Good() && old(trail) <= trail
      ensures fwd == old(fwd)[a := InfoOf(r).value] || (!ok && fwd == old(fwd))
      ensures healthy ==> ok
    {
      hide SafeDisk, AddrSet, InfoOf;
      ok := Try();
      if !ok { return; }
      fwd := fwd[a := InfoOf(r).value];
      Note(Pointing(a, r));
      ok := Try();
    }

    method RemoveIfPresent(a: Addr) returns (ok: bool)
      requires Good()
      modifies this`fwd, this`trail
      ensures Good() && old(trail) <= trail
      ensures fwd == old(fwd) - {a} || (!ok && fwd == old(fwd))
      ensures healthy ==> ok
    {
      hide SafeDisk;
      ok := Try();
      if !ok { return; }
      fwd := fwd - {a};
      Note(Clearing(a));
      ok := Try();
    }
  }
}
