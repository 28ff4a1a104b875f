/** Runs of the identity cluster: what a reported number means, and exactly which
    deletions keep it so. */
module IdentityRuns {
  import opened Bytes
  import opened Identity
  import opened IdentityCluster

  ghost function Run(w: World, steps: seq<Step>, cluster: string): World
    decreases |steps|
  {
    if steps == [] then w else Run(Next(w, steps[0], cluster), steps[1..], cluster)
  }

  lemma {:induction false} RunKeeps(w: World, steps: seq<Step>, cluster: string)
    requires WorldInv(w, cluster)
    ensures WorldInv(Run(w, steps, cluster), cluster)
    decreases |steps|
  {
    hide WorldInv, Next;
    if steps != [] {
      NextKeeps(w, steps[0], cluster);
      RunKeeps(Next(w, steps[0], cluster), steps[1..], cluster);
    }
  }

  /** Every number any node reports names the label set it is reported for. */
  ghost predicate AllNamed(w: World, cluster: string)
  {
    forall n, key :: n in w.nodes && Reported(w.nodes[n].held, key).Some? ==>
      Names(Reported(w.nodes[n].held, key).value, key, w.store, cluster)
  }

  lemma InvNamed(w: World, cluster: string)
    requires WorldInv(w, cluster)
    ensures AllNamed(w, cluster)
  {
    hide WellKnown, Lawful;
    forall n, key | n in w.nodes && Reported(w.nodes[n].held, key).Some?
      ensures Names(Reported(w.nodes[n].held, key).value, key, w.store, cluster)
    {
      assert NodeInv(w.nodes[n], w.store, cluster);
    }
  }

  /** A cluster before any agent ran. */
  ghost predicate Start(w: World)
  {
    w.nodes == map[] && w.sent == {} && forall id :: id in w.store ==> !Reserved(id)
  }

  predicate SameNumber(n: Node, a: Key, m: Node, b: Key)
  {
    Reported(n.held, a).Some? && Reported(n.held, a) == Reported(m.held, b)
  }

  /** On every run, a number a node reports for a label set names exactly that
      label set, so two reports of one number are of one label set. */
  lemma NumbersNameOneSet(w: World, steps: seq<Step>, cluster: string)
    requires Start(w)
    ensures var r := Run(w, steps, cluster);
            && AllNamed(r, cluster)
            && (forall n, m, a, b ::
                  n in r.nodes && m in r.nodes && SameNumber(r.nodes[n], a, r.nodes[m], b) ==> a == b)
  {
    hide WellKnown, Run, NodeInv;
    RunKeeps(w, steps, cluster);
    var r := Run(w, steps, cluster);
    InvNamed(r, cluster);
    forall n, m, a, b | n in r.nodes && m in r.nodes && SameNumber(r.nodes[n], a, r.nodes[m], b) ensures a == b {
      OneName(Reported(r.nodes[n].held, a).value, a, b, r.store, cluster);
    }
  }

  lemma OneName(id: u32, a: Key, b: Key, store: map<u32, Option<Key>>, cluster: string)
    requires Names(id, a, store, cluster) && Names(id, b, store, cluster)
    requires forall id :: id in store ==> !Reserved(id)
    ensures a == b
  {
    hide WellKnown;
    if WellKnown(a, cluster).Some? && WellKnown(b, cluster).Some? { WellKnownInjective(a, b, cluster); }
  }

  // ---------- exactly which deletions are safe ----------

  function Deleted(w: World, id: u32): World { w.(store := w.store - {id}) }

  lemma {:induction false} RunSplit(w: World, a: seq<Step>, b: seq<Step>, cluster: string)
    ensures Run(w, a + b, cluster) == Run(Run(w, a, cluster), b, cluster)
    decreases |a|
  {
    hide Next;
    if a == [] {
      assert a + b == b;
    } else {
      assert (a + b)[1..] == a[1..] + b;
      RunSplit(Next(w, a[0], cluster), a[1..], b, cluster);
    }
  }

  lemma RunOne(w: World, step: Step, cluster: string)
    ensures Run(w, [step], cluster) == Next(w, step, cluster)
  {
    hide Next;
    var none: seq<Step> := [step][1..];
    assert none == [];
    assert Run(w, [step], cluster) == Run(Next(w, step, cluster), none, cluster);
  }

  ghost predicate Idle(node: Node) { node.wait.None? && node.outbox == [] }

  /** A node can always come to rest without the store or its lists changing. */
  lemma {:induction false} ComesToRest(w: World, n: nat, cluster: string) returns (steps: seq<Step>)
    requires n in w.nodes
    ensures var r := Run(w, steps, cluster);
            n in r.nodes && Idle(r.nodes[n]) && r.nodes[n].lists == w.nodes[n].lists && r.store == w.store
    decreases |w.nodes[n].outbox|, w.nodes[n].wait.Some?
  {
    hide Record;
    var node := w.nodes[n];
    if node.wait.Some? {
      RunOne(w, Lose(n), cluster);
      var rest := ComesToRest(Next(w, Lose(n), cluster), n, cluster);
      steps := [Lose(n)] + rest;
      RunSplit(w, [Lose(n)], rest, cluster);
    } else if node.outbox != [] {
      RunOne(w, Send(n), cluster);
      var rest := ComesToRest(Next(w, Send(n), cluster), n, cluster);
      steps := [Send(n)] + rest;
      RunSplit(w, [Send(n)], rest, cluster);
    } else {
      steps := [];
    }
  }

  lemma PassOfNone(held: Holding, list: seq<Object>, cluster: string)
    ensures Pass(held, [], list, cluster, 0) == Settled(map[], [])
  {
    assert Retain(held, Members([])) == map[];
  }

  /** A pass over one label set that nothing is held for. */
  lemma PassOfOne(list: seq<Object>, key: Key, cluster: string, start: u32)
    requires WellKnown(key, cluster).None?
    ensures Pass(map[], [key], list, cluster, start) == LookUp(map[], key, ViewOf(list), start)
  {
    hide WellKnown, LookUp, ViewOf;
    var view := ViewOf(list);
    assert Retain(map[], Members([key])) == map[];
    assert [key][..0] == [];
    assert SettleAll(map[], [], view, cluster, start) == Settled(map[], []);
    var last := Settle(map[], key, view, cluster, start);
    assert [] + last.actions == last.actions;
    assert SettleAll(map[], [key], view, cluster, start) == Settled(last.held, [] + last.actions);
  }

  /** An idle node with a list that resolves a label set to a number takes the
      number up, whatever the store says by then. */
  lemma TakesUp(w: World, n: nat, list: seq<Object>, key: Key, cluster: string)
    requires n in w.nodes && Idle(w.nodes[n]) && list in w.nodes[n].lists
    requires WellKnown(key, cluster).None? && key in OldestOf(list)
    ensures var r := Run(w, [Reconcile(n, list, [], 0), Reconcile(n, list, [key], 0)], cluster);
            n in r.nodes && Reported(r.nodes[n].held, key) == Some(OldestOf(list)[key].id) && r.store == w.store
  {
    hide WellKnown, Pass, OldestOf, ById;
    var release, take := Reconcile(n, list, [], 0), Reconcile(n, list, [key], 0);
    assert [release, take] == [release] + [take];
    RunSplit(w, [release], [take], cluster);
    RunOne(w, release, cluster);
    PassOfNone(w.nodes[n].held, list, cluster);
    PassOfOne(list, key, cluster, 0);
    RunOne(Next(w, release, cluster), take, cluster);
  }

  /** The number means another label set while this one reports it. */
  ghost predicate Broken(w: World, n: nat, key: Key, id: u32, cluster: string)
  {
    && n in w.nodes && Reported(w.nodes[n].held, key) == Some(id)
    && WellKnown(key, cluster).None? && !(id in w.store && w.store[id] == Some(key))
  }

  lemma BrokenUnnamed(w: World, n: nat, key: Key, id: u32, cluster: string)
    requires Broken(w, n, key, id, cluster)
    ensures !AllNamed(w, cluster)
  {
    hide WellKnown;
    assert !Names(Reported(w.nodes[n].held, key).value, key, w.store, cluster);
  }

  /** Deleting an object some node counts on leads to a wrong report. */
  lemma DeletionBreaks(w: World, id: u32, n: nat, key: Key, cluster: string) returns (steps: seq<Step>)
    requires n in w.nodes && NeedsFor(w.nodes[n], id, key, cluster)
    ensures !AllNamed(Run(Deleted(w, id), steps, cluster), cluster)
  {
    hide WellKnown, OldestOf, Run, AllNamed;
    var gone := Deleted(w, id);
    var node := w.nodes[n];
    if key in node.held && node.held[key].id == id && node.held[key].verified {
      steps := [];
      RunNothing(gone, cluster);
      BrokenUnnamed(gone, n, key, id, cluster);
    } else if key in node.held && node.held[key].id == id && node.wait == Some(Wait(id, key, Some(Done))) {
      steps := [Reply(n)];
      RunOne(gone, Reply(n), cluster);
      BrokenUnnamed(Next(gone, Reply(n), cluster), n, key, id, cluster);
    } else {
      var list :| list in node.lists && key in OldestOf(list) && OldestOf(list)[key].id == id;
      var rest := ComesToRest(gone, n, cluster);
      var calm := Run(gone, rest, cluster);
      var take := [Reconcile(n, list, [], 0), Reconcile(n, list, [key], 0)];
      TakesUp(calm, n, list, key, cluster);
      steps := rest + take;
      RunSplit(gone, rest, take, cluster);
      BrokenUnnamed(Run(calm, take, cluster), n, key, id, cluster);
    }
  }

  lemma RunNothing(w: World, cluster: string)
    ensures Run(w, [], cluster) == w
  {
  }

  /** Deleting an object keeps every report right on every continuation exactly
      when no node counts on it: none reports it, none is about to, and no list
      still in use resolves a label set to it. */
  lemma DeletionExactly(w: World, id: u32, cluster: string)
    requires WorldInv(w, cluster)
    ensures (forall steps :: AllNamed(Run(Deleted(w, id), steps, cluster), cluster)) <==> Unused(w, id, cluster)
  {
    hide WorldInv, Run, AllNamed, NeedsFor;
    if Unused(w, id, cluster) {
      DeleteKeeps(w, id, cluster);
      forall steps ensures AllNamed(Run(Deleted(w, id), steps, cluster), cluster) {
        RunKeeps(Deleted(w, id), steps, cluster);
        InvNamed(Run(Deleted(w, id), steps, cluster), cluster);
      }
    } else {
      var n :| n in w.nodes && !Unneeded(w.nodes[n], id, cluster);
      var key :| NeedsFor(w.nodes[n], id, key, cluster);
      var steps := DeletionBreaks(w, id, n, key, cluster);
    }
  }

  lemma OneObject(o: Object, key: Key)
    requires o.key == Some(key) && !Reserved(o.id)
    ensures Listing([o]) && OldestOf([o]) == map[key := o]
  {
    assert [o][..0] == [];
    assert OldestOf([o]) == Improve(OldestOf([o][..0]), o);
  }

  lemma StartInv(w: World, cluster: string)
    requires Start(w)
    ensures WorldInv(w, cluster)
  {
  }

  lemma RunTwo(w: World, a: Step, b: Step, cluster: string)
    ensures Run(w, [a, b], cluster) == Next(Next(w, a, cluster), b, cluster)
  {
    hide Next, Run;
    assert [a, b] == [a] + [b];
    RunSplit(w, [a], [b], cluster);
    RunOne(w, a, cluster);
    RunOne(Next(w, a, cluster), b, cluster);
  }

  /** Not holding an object is not enough to delete it: after one node has started
      and read the list, no node holds the only object, and deleting it leads to a
      number that is reported and means nothing. */
  lemma UnheldIsNotEnough(key: Key, cluster: string)
    requires WellKnown(key, cluster).None?
    ensures var w0 := World(map[300 := Some(key)], map[], {});
            var w := Run(w0, [Restart(0), Learn(0, [Object(300, Some(key), "", false, "")])], cluster);
            && Start(w0) && w.nodes.Keys == {0} && w.nodes[0].held == map[]
            && exists steps :: !AllNamed(Run(Deleted(w, 300), steps, cluster), cluster)
  {
    hide WellKnown, OldestOf, AllNamed, Run, WorldInv;
    var o := Object(300, Some(key), "", false, "");
    var w0 := World(map[300 := Some(key)], map[], {});
    var steps := [Restart(0), Learn(0, [o])];
    var w := Run(w0, steps, cluster);
    OneObject(o, key);
    RunTwo(w0, Restart(0), Learn(0, [o]), cluster);
    assert Agrees([o], w0.store);
    assert [o] in w.nodes[0].lists;
    assert NeedsFor(w.nodes[0], 300, key, cluster);
    assert !Unneeded(w.nodes[0], 300, cluster);
    StartInv(w0, cluster);
    RunKeeps(w0, steps, cluster);
    DeletionExactly(w, 300, cluster);
  }

  // ---------- leases ----------

  /** Writes of distinct label sets and numbers. */
  ghost predicate Spread(actions: seq<Action>)
  {
    forall i, j :: 0 <= i < j < |actions| ==> actions[i].key != actions[j].key && actions[i].id != actions[j].id
  }

  /** The create was answered: stored under its label set, and reported. */
  ghost predicate Leased(w: World, n: nat, id: u32, key: Key)
  {
    n in w.nodes && Reported(w.nodes[n].held, key) == Some(id) && id in w.store && w.store[id] == Some(key)
  }

  /** A create the node has still to send, of a number it holds and nobody has. */
  ghost predicate Leasing(w: World, n: nat, id: u32, key: Key)
  {
    && n in w.nodes && Create(id, key) in w.nodes[n].outbox && id !in w.store
    && key in w.nodes[n].held && w.nodes[n].held[key].id == id
  }

  /** Where a node and the store stand once its first write is answered. */
  ghost predicate Answers(w: World, r: World, n: nat)
    requires n in w.nodes && w.nodes[n].outbox != []
  {
    var first := w.nodes[n].outbox[0];
    && n in r.nodes && r.nodes[n].wait.None? && r.nodes[n].outbox == w.nodes[n].outbox[1..]
    && (forall key :: key != first.key ==>
          && (key in r.nodes[n].held <==> key in w.nodes[n].held)
          && (key in w.nodes[n].held ==> r.nodes[n].held[key] == w.nodes[n].held[key]))
    && (forall id :: id != first.id ==> (id in r.store <==> id in w.store))
    && (forall id :: id in w.store ==> id in r.store && r.store[id] == w.store[id])
    && (first.Create? && Leasing(w, n, first.id, first.key) ==> Leased(r, n, first.id, first.key))
  }

  /** Sending and answering the first write. */
  lemma FirstAnswered(w: World, n: nat, cluster: string) returns (steps: seq<Step>)
    requires n in w.nodes && w.nodes[n].wait.None? && w.nodes[n].outbox != []
    ensures Answers(w, Run(w, steps, cluster), n)
  {
    hide Run;
    if w.nodes[n].outbox[0].Acquire? {
      steps := [Send(n)];
      RunOne(w, Send(n), cluster);
    } else {
      steps := [Send(n)] + [Serve(n), Reply(n)];
      RunSplit(w, [Send(n)], [Serve(n), Reply(n)], cluster);
      RunOne(w, Send(n), cluster);
      RunTwo(Next(w, Send(n), cluster), Serve(n), Reply(n), cluster);
    }
  }

  /** The other leases go on, and what was leased stays. */
  lemma OthersGoOn(w: World, r: World, n: nat)
    requires n in w.nodes && w.nodes[n].outbox != [] && Spread(w.nodes[n].outbox) && Answers(w, r, n)
    ensures var first := w.nodes[n].outbox[0];
            && (forall id, key :: Leasing(w, n, id, key) && first != Create(id, key) ==> Leasing(r, n, id, key))
            && (forall id, key :: Leased(w, n, id, key) && key != first.key ==> Leased(r, n, id, key))
  {
    var outbox := w.nodes[n].outbox;
    forall id, key | Leasing(w, n, id, key) && outbox[0] != Create(id, key) ensures Leasing(r, n, id, key) {
      var i :| 0 <= i < |outbox| && outbox[i] == Create(id, key);
      assert outbox[1..][i - 1] == Create(id, key);
    }
  }

  lemma {:induction false} Drains(w: World, n: nat, cluster: string) returns (steps: seq<Step>)
    requires n in w.nodes && w.nodes[n].wait.None? && Spread(w.nodes[n].outbox)
    ensures var r := Run(w, steps, cluster);
            && n in r.nodes && Idle(r.nodes[n])
            && (forall id, key :: Leasing(w, n, id, key) ==> Leased(r, n, id, key))
            && (forall id, key :: Leased(w, n, id, key) && (forall a :: a in w.nodes[n].outbox ==> a.key != key) ==>
                  Leased(r, n, id, key))
    decreases |w.nodes[n].outbox|
  {
    hide Run, Leased;
    if w.nodes[n].outbox == [] {
      steps := [];
      RunNothing(w, cluster);
    } else {
      var outbox := w.nodes[n].outbox;
      var first := FirstAnswered(w, n, cluster);
      var mid := Run(w, first, cluster);
      OthersGoOn(w, mid, n);
      forall a | a in outbox[1..] ensures a in outbox && a.key != outbox[0].key {
        var i :| 0 <= i < |outbox| - 1 && outbox[1..][i] == a;
        assert outbox[i + 1] == a;
      }
      var rest := Drains(mid, n, cluster);
      steps := first + rest;
      RunSplit(w, first, rest, cluster);
    }
  }

  lemma ActionsSpread(held: Holding, actions: seq<Action>, cluster: string)
    requires Lawful(held, cluster)
    requires forall i, j :: 0 <= i < j < |actions| ==> actions[i].id != actions[j].id
    requires forall i :: 0 <= i < |actions| ==> actions[i].key in held && actions[i].id == held[actions[i].key].id
    ensures Spread(actions)
  {
  }

  /** Whatever an idle node holds and wants, once the writes of a pass are answered
      every number it asked to create that no one else had taken is stored under
      its label set and reported. */
  lemma LeasesComplete(w: World, n: nat, list: seq<Object>, order: seq<Key>, start: u32, cluster: string)
    returns (steps: seq<Step>)
    requires n in w.nodes && list in w.nodes[n].lists && Lawful(w.nodes[n].held, cluster) && Listing(list)
    requires Idle(w.nodes[n]) && NoRepeats(order)
    ensures var r := Run(w, [Reconcile(n, list, order, start)] + steps, cluster);
            && n in r.nodes && Idle(r.nodes[n])
            && forall id, key ::
                 Create(id, key) in Pass(w.nodes[n].held, order, list, cluster, start).actions && id !in w.store ==>
                   Leased(r, n, id, key)
  {
    hide WellKnown, Run, Pass, Lawful, Leased, Listing, PicksAgree;
    var pass := Reconcile(n, list, order, start);
    var p := Pass(w.nodes[n].held, order, list, cluster, start);
    PassKeeps(w.nodes[n].held, order, list, cluster, start);
    ActionsSpread(p.held, p.actions, cluster);
    var sending := Next(w, pass, cluster);
    forall id, key | Create(id, key) in p.actions && id !in w.store ensures Leasing(sending, n, id, key) {
      var i :| 0 <= i < |p.actions| && p.actions[i] == Create(id, key);
    }
    steps := Drains(sending, n, cluster);
    RunSplit(w, [pass], steps, cluster);
    RunOne(w, pass, cluster);
  }

  /** An object that is deleted while a node holds it as seen is stored again, under
      the same number and label set, once the node has seen a list of what is left
      and the writes of its next pass are answered. */
  lemma LostIsStoredAgain(w: World, n: nat, list: seq<Object>, order: seq<Key>, start: u32, key: Key, cluster: string)
    returns (steps: seq<Step>)
    requires WorldInv(w, cluster) && n in w.nodes && Idle(w.nodes[n])
    requires NoRepeats(order) && key in order && WellKnown(key, cluster).None?
    requires key in w.nodes[n].held && w.nodes[n].held[key].seen
    requires Listing(list) && Agrees(list, Deleted(w, w.nodes[n].held[key].id).store)
    ensures var id := w.nodes[n].held[key].id;
            var r := Run(Deleted(w, id), [Learn(n, list), Reconcile(n, list, order, start)] + steps, cluster);
            n in r.nodes && Idle(r.nodes[n]) && Leased(r, n, id, key)
  {
    hide WellKnown, Run, Pass, Leased, ById, Listing, Lawful, Agrees;
    var node := w.nodes[n];
    var id := node.held[key].id;
    assert NodeInv(node, w.store, cluster);
    var gone := Deleted(w, id);
    assert id !in ById(list) by { NotListed(list, gone.store, id); }
    RecreatesLost(node.held, order, list, cluster, start, key);
    var learned := Next(gone, Learn(n, list), cluster);
    assert learned.nodes[n].held == node.held && Idle(learned.nodes[n]);
    var rest := LeasesComplete(learned, n, list, order, start, cluster);
    var pass := Reconcile(n, list, order, start);
    steps := rest;
    assert [Learn(n, list), pass] + rest == [Learn(n, list)] + ([pass] + rest);
    RunSplit(gone, [Learn(n, list)], [pass] + rest, cluster);
    RunOne(gone, Learn(n, list), cluster);
  }

  lemma NotListed(list: seq<Object>, store: map<u32, Option<Key>>, id: u32)
    requires Listing(list) && Agrees(list, store) && id !in store
    ensures id !in ById(list)
  {
    ByIdExact(list, id);
  }

  // ---------- one label set, two numbers ----------

  /** The world after a node's lease of one label set was planned and sent. */
  function Asked(w: World, n: nat, key: Key, id: u32): World
    requires n in w.nodes
  {
    var node := w.nodes[n].(held := map[key := Held(id, false, false)], wait := Some(Wait(id, key, None)));
    w.(nodes := w.nodes[n := node], sent := w.sent + {(id, key)})
  }

  lemma LeaseAsked(w: World, n: nat, list: seq<Object>, key: Key, start: u32, id: u32, cluster: string)
    requires n in w.nodes && list in w.nodes[n].lists && Idle(w.nodes[n]) && w.nodes[n].held == map[]
    requires WellKnown(key, cluster).None? && key !in OldestOf(list) && Free(ById(list).Keys, start) == Some(id)
    ensures Run(w, [Reconcile(n, list, [key], start), Send(n)], cluster) == Asked(w, n, key, id)
  {
    hide WellKnown, Pass, OldestOf, ById, Free, Run;
    RunTwo(w, Reconcile(n, list, [key], start), Send(n), cluster);
    PassOfOne(list, key, cluster, start);
    var none: Holding := map[];
    assert Used(none, ViewOf(list)) == ById(list).Keys;
    assert [Create(id, key)][1..] == [];
    var planned := Next(w, Reconcile(n, list, [key], start), cluster);
    assert planned.nodes[n := Asked(w, n, key, id).nodes[n]] == Asked(w, n, key, id).nodes;
  }

  lemma LeaseAnswered(w: World, n: nat, key: Key, id: u32, cluster: string)
    requires n in w.nodes && Idle(w.nodes[n]) && id !in w.store
    ensures Run(Asked(w, n, key, id), [Serve(n), Reply(n)], cluster) ==
            World(w.store[id := Some(key)], w.nodes[n := w.nodes[n].(held := map[key := Held(id, true, false)])],
                  w.sent + {(id, key)})
  {
    hide Run;
    var asked := Asked(w, n, key, id);
    RunTwo(asked, Serve(n), Reply(n), cluster);
    var leased := asked.nodes[n];
    var done := w.nodes[n].(held := map[key := Held(id, true, false)]);
    var served := Next(asked, Serve(n), cluster);
    assert served.nodes == w.nodes[n := leased.(wait := Some(Wait(id, key, Some(Done))))];
    assert Record(leased.held, key, id, Done) == done.held;
    assert Next(served, Reply(n), cluster).nodes == w.nodes[n := done];
  }

  /** A node that wants one label set, which its list does not show, leases a
      number; nothing else of the world changes. */
  lemma LeaseAlone(w: World, n: nat, list: seq<Object>, key: Key, start: u32, id: u32, cluster: string)
    requires n in w.nodes && list in w.nodes[n].lists && Idle(w.nodes[n]) && w.nodes[n].held == map[]
    requires WellKnown(key, cluster).None? && key !in OldestOf(list)
    requires Free(ById(list).Keys, start) == Some(id) && id !in w.store
    ensures Run(w, [Reconcile(n, list, [key], start), Send(n)] + [Serve(n), Reply(n)], cluster) ==
            World(w.store[id := Some(key)], w.nodes[n := w.nodes[n].(held := map[key := Held(id, true, false)])],
                  w.sent + {(id, key)})
  {
    hide WellKnown, OldestOf, ById, Free, Run, Asked;
    RunSplit(w, [Reconcile(n, list, [key], start), Send(n)], [Serve(n), Reply(n)], cluster);
    LeaseAsked(w, n, list, key, start, id, cluster);
    LeaseAnswered(w, n, key, id, cluster);
  }

  lemma FreeOfNone()
    ensures Free({}, 0) == Some(256) && Free({}, 1) == Some(257)
  {
    assert Visit(0, 0) == 256 && Visit(1, 0) == 257;
  }

  /** The list that shows both leases; the first is the one the label set resolves to. */
  lemma BothListed(key: Key)
    ensures var list := [Object(256, Some(key), "", false, ""), Object(257, Some(key), "", false, "")];
            && Listing(list) && OldestOf(list) == map[key := list[0]]
            && Listed(key, 256, ViewOf(list)) && Listed(key, 257, ViewOf(list))
  {
    var a, b := Object(256, Some(key), "", false, ""), Object(257, Some(key), "", false, "");
    var list := [a, b];
    assert list[..1] == [a];
    OneObject(a, key);
    assert OldestOf(list) == Improve(OldestOf(list[..1]), b);
    assert !TextBefore("", "");
    assert a in list && b in list;
    ByIdExact(list, 256);
    ByIdExact(list, 257);
  }

  /** A node that reports a listed number of a label set goes on reporting it. */
  lemma KeepsListed(w: World, n: nat, list: seq<Object>, key: Key, id: u32, start: u32, cluster: string)
    requires n in w.nodes && Idle(w.nodes[n]) && Listing(list)
    requires WellKnown(key, cluster).None? && key in OldestOf(list) && Listed(key, id, ViewOf(list))
    requires Agrees(list, w.store) && Reported(w.nodes[n].held, key) == Some(id)
    ensures var r := Run(w, [Learn(n, list), Reconcile(n, list, [key], start)], cluster);
            && r.nodes.Keys == w.nodes.Keys && r.store == w.store && Reported(r.nodes[n].held, key) == Some(id)
            && forall m :: m in w.nodes && m != n ==> r.nodes[m] == w.nodes[m]
  {
    hide WellKnown, Pass, OldestOf, ViewOf, Run, Listing;
    RunTwo(w, Learn(n, list), Reconcile(n, list, [key], start), cluster);
    PassResolvesOldest(w.nodes[n].held, [key], list, cluster, start, key);
  }

  lemma TwoAgents(cluster: string)
    ensures var node := FRESH.(lists := {[]});
            Run(World(map[], map[], {}), [Restart(0), Restart(1)] + [Learn(0, []), Learn(1, [])], cluster) ==
            World(map[], map[0 := node, 1 := node], {})
  {
    hide Run;
    var w := World(map[], map[], {});
    RunSplit(w, [Restart(0), Restart(1)], [Learn(0, []), Learn(1, [])], cluster);
    RunTwo(w, Restart(0), Restart(1), cluster);
    var two := w.(nodes := map[0 := FRESH, 1 := FRESH]);
    assert Run(w, [Restart(0), Restart(1)], cluster) == two;
    RunTwo(two, Learn(0, []), Learn(1, []), cluster);
    assert Listing([]) && Agrees([], map[]);
    assert FRESH.lists + {[]} == {[]};
  }

  /** Agents do not always converge: of two that lease for one label set before
      either sees the other's object, each keeps its own number after both have
      seen both objects, although the list resolves the label set to the first. */
  lemma TwoNumbersForOneSet(key: Key, cluster: string) returns (steps: seq<Step>)
    requires WellKnown(key, cluster).None?
    ensures var w0 := World(map[], map[], {});
            var w := Run(w0, steps, cluster);
            var list := [Object(256, Some(key), "", false, ""), Object(257, Some(key), "", false, "")];
            && Start(w0) && 0 in w.nodes && 1 in w.nodes && Agrees(list, w.store)
            && key in OldestOf(list) && OldestOf(list)[key].id == 256
            && Reported(w.nodes[0].held, key) == Some(256) && Reported(w.nodes[1].held, key) == Some(257)
            && 4 <= |steps|
            && steps[|steps| - 4..] == [Learn(0, list), Reconcile(0, list, [key], 0)]
                                       + [Learn(1, list), Reconcile(1, list, [key], 0)]
  {
    hide WellKnown, OldestOf, ViewOf, Run, Next, Listing, Free;
    var w0 := World(map[], map[], {});
    var list := [Object(256, Some(key), "", false, ""), Object(257, Some(key), "", false, "")];
    var s0 := [Restart(0), Restart(1)] + [Learn(0, []), Learn(1, [])];
    TwoAgents(cluster);
    var w1 := Run(w0, s0, cluster);
    assert OldestOf([]) == map[] && ById([]).Keys == {} by { NothingListed(); }
    FreeOfNone();
    var s1 := [Reconcile(0, [], [key], 0), Send(0)] + [Serve(0), Reply(0)];
    LeaseAlone(w1, 0, [], key, 0, 256, cluster);
    var w2 := Run(w1, s1, cluster);
    var s2 := [Reconcile(1, [], [key], 1), Send(1)] + [Serve(1), Reply(1)];
    LeaseAlone(w2, 1, [], key, 1, 257, cluster);
    var w3 := Run(w2, s2, cluster);
    BothListed(key);
    var s3 := [Learn(0, list), Reconcile(0, list, [key], 0)];
    KeepsListed(w3, 0, list, key, 256, 0, cluster);
    var w4 := Run(w3, s3, cluster);
    var s4 := [Learn(1, list), Reconcile(1, list, [key], 0)];
    KeepsListed(w4, 1, list, key, 257, 0, cluster);
    steps := s0 + (s1 + (s2 + (s3 + s4)));
    RunSplit(w0, s0, s1 + (s2 + (s3 + s4)), cluster);
    RunSplit(w1, s1, s2 + (s3 + s4), cluster);
    RunSplit(w2, s2, s3 + s4, cluster);
    RunSplit(w3, s3, s4, cluster);
  }

  lemma NothingListed()
    ensures OldestOf([]) == map[] && ById([]).Keys == {}
  {
  }
}
