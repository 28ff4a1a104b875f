/** Identity allocation across nodes that share one create-if-absent store: lists
    lag, creates race, replies get lost, requests arrive late, nodes restart
    (crates/flowsdn-agent/src/identity.rs:230-353 and
    crates/flowsdn-agent/src/kubernetes_controller.rs:460-512). */
module IdentityCluster {
  import opened Bytes
  import opened Identity

  /** A create on its way; `answer` is what the store replied, once it did. */
  datatype Wait = Wait(id: u32, key: Key, answer: Option<Outcome>)

  /** A node: its allocator, the identity lists it may still use, the writes it
      has to send and the create it waits for. */
  datatype Node = Node(held: Holding, lists: set<seq<Object>>, outbox: seq<Action>, wait: Option<Wait>)

  const FRESH := Node(map[], {}, [], None)

  /** The label set of each stored object, the nodes, and the creates ever sent. */
  datatype World = World(store: map<u32, Option<Key>>, nodes: map<nat, Node>, sent: set<(u32, Key)>)

  datatype Step =
    | Restart(n: nat)
    | Learn(n: nat, list: seq<Object>)
    | Forget(n: nat, list: seq<Object>)
    | Reconcile(n: nat, list: seq<Object>, order: seq<Key>, start: u32)
    | Send(n: nat)
    | Serve(n: nat)
    | Reply(n: nat)
    | Lose(n: nat)
    | Late(id: u32, key: Key)
    | Foreign(id: u32, labels: Option<Key>)
    | Delete(id: u32)

  /** Every listed object is stored with the listed label set. */
  ghost predicate Agrees(list: seq<Object>, store: map<u32, Option<Key>>)
  {
    forall i :: 0 <= i < |list| ==> list[i].id in store && store[list[i].id] == list[i].key
  }

  /** Some list this node may still use resolves the label set to the number. */
  ghost predicate Resolves(node: Node, key: Key, id: u32)
  {
    exists list :: list in node.lists && key in OldestOf(list) && OldestOf(list)[key].id == id
  }

  /** The node counts on the stored object: it reports the number for an ordinary
      label set, is about to learn that its create succeeded, or may take the
      number up from a list. */
  ghost predicate NeedsFor(node: Node, id: u32, key: Key, cluster: string)
  {
    && WellKnown(key, cluster).None?
    && (|| (key in node.held && node.held[key].id == id && node.held[key].verified)
        || (key in node.held && node.held[key].id == id && node.wait == Some(Wait(id, key, Some(Done))))
        || Resolves(node, key, id))
  }

  ghost predicate Unneeded(node: Node, id: u32, cluster: string)
  {
    forall key :: !NeedsFor(node, id, key, cluster)
  }

  ghost predicate Unused(w: World, id: u32, cluster: string)
  {
    forall n :: n in w.nodes ==> Unneeded(w.nodes[n], id, cluster)
  }

  function Put(w: World, n: nat, node: Node): World { w.(nodes := w.nodes[n := node]) }

  function Insert(w: World, id: u32, key: Option<Key>): World
  {
    if id in w.store then w else w.(store := w.store[id := key])
  }

  function SendNext(w: World, n: nat): World
    requires n in w.nodes
  {
    var node := w.nodes[n];
    if node.outbox == [] || node.wait.Some? then w else
    var rest := node.(outbox := node.outbox[1..]);
    match node.outbox[0]
    case Create(id, key) => Put(w, n, rest.(wait := Some(Wait(id, key, None)))).(sent := w.sent + {(id, key)})
    case Acquire(_, _, _) => Put(w, n, rest)
  }

  function ServeNext(w: World, n: nat): World
    requires n in w.nodes
  {
    var node := w.nodes[n];
    if node.wait.None? || node.wait.value.answer.Some? then w else
    var wait := node.wait.value;
    var answer := if wait.id in w.store then Conflict else Done;
    Put(Insert(w, wait.id, Some(wait.key)), n, node.(wait := Some(wait.(answer := Some(answer)))))
  }

  function Answered(w: World, n: nat, outcome: Outcome): World
    requires n in w.nodes && w.nodes[n].wait.Some?
  {
    var node := w.nodes[n];
    Put(w, n, node.(held := Record(node.held, node.wait.value.key, node.wait.value.id, outcome), wait := None))
  }

  /** One step; what is not possible leaves the world as it is. */
  ghost function Next(w: World, step: Step, cluster: string): World
  {
    match step
    case Restart(n) => Put(w, n, FRESH)
    case Foreign(id, key) => if Reserved(id) then w else Insert(w, id, key)
    case Late(id, key) => if (id, key) in w.sent then Insert(w, id, Some(key)) else w
    case Delete(id) => if Unused(w, id, cluster) then w.(store := w.store - {id}) else w
    case Learn(n, list) =>
      if n in w.nodes && Listing(list) && Agrees(list, w.store)
      then Put(w, n, w.nodes[n].(lists := w.nodes[n].lists + {list})) else w
    case Forget(n, list) =>
      if n in w.nodes then Put(w, n, w.nodes[n].(lists := w.nodes[n].lists - {list})) else w
    case Reconcile(n, list, order, start) =>
      if n in w.nodes && list in w.nodes[n].lists && w.nodes[n].wait.None? && w.nodes[n].outbox == []
         && NoRepeats(order)
      then
        var r := Pass(w.nodes[n].held, order, list, cluster, start);
        Put(w, n, w.nodes[n].(held := r.held, outbox := r.actions))
      else w
    case Send(n) => if n in w.nodes then SendNext(w, n) else w
    case Serve(n) => if n in w.nodes then ServeNext(w, n) else w
    case Reply(n) =>
      if n in w.nodes && w.nodes[n].wait.Some? && w.nodes[n].wait.value.answer.Some?
      then Answered(w, n, w.nodes[n].wait.value.answer.value) else w
    case Lose(n) => if n in w.nodes && w.nodes[n].wait.Some? then Answered(w, n, Failed) else w
  }

  // ---------- the invariant ----------

  /** The number means this label set: well known, or stored with it. */
  ghost predicate Names(id: u32, key: Key, store: map<u32, Option<Key>>, cluster: string)
  {
    if WellKnown(key, cluster).Some? then WellKnown(key, cluster) == Some(id)
    else id in store && store[id] == Some(key)
  }

  ghost predicate NodeInv(node: Node, store: map<u32, Option<Key>>, cluster: string)
  {
    && Lawful(node.held, cluster)
    && (forall list :: list in node.lists ==> Listing(list) && PicksAgree(list, store, cluster))
    && (forall key :: key in node.held && node.held[key].verified ==> Names(node.held[key].id, key, store, cluster))
    && (forall key :: key in node.held && !node.held[key].verified ==> Pending(node, key, node.held[key].id))
    && (forall i :: 0 <= i < |node.outbox| ==> Lease(node.outbox[i], cluster))
    && (node.wait.Some? ==> WaitInv(node.held, node.wait.value, store, cluster))
  }

  /** What a list resolves label sets to is stored with them. */
  ghost predicate PicksAgree(list: seq<Object>, store: map<u32, Option<Key>>, cluster: string)
  {
    forall key :: key in OldestOf(list) && WellKnown(key, cluster).None? ==>
      Names(OldestOf(list)[key].id, key, store, cluster)
  }

  /** The create of an unverified number is still to be sent or answered. */
  ghost predicate Pending(node: Node, key: Key, id: u32)
  {
    Create(id, key) in node.outbox || (node.wait.Some? && node.wait.value.id == id && node.wait.value.key == key)
  }

  /** Writes are for numbers of the common range of label sets that are not well known. */
  ghost predicate Lease(action: Action, cluster: string)
  {
    !Reserved(action.id) && WellKnown(action.key, cluster).None?
  }

  ghost predicate WaitInv(held: Holding, wait: Wait, store: map<u32, Option<Key>>, cluster: string)
  {
    && !Reserved(wait.id) && WellKnown(wait.key, cluster).None?
    && (wait.answer == Some(Done) && wait.key in held && held[wait.key].id == wait.id ==>
          Names(wait.id, wait.key, store, cluster))
  }

  ghost predicate WorldInv(w: World, cluster: string)
  {
    && (forall id :: id in w.store ==> !Reserved(id))
    && (forall c :: c in w.sent ==> !Reserved(c.0))
    && (forall n :: n in w.nodes ==> NodeInv(w.nodes[n], w.store, cluster))
  }

  ghost predicate Grows(store: map<u32, Option<Key>>, more: map<u32, Option<Key>>)
  {
    forall id :: id in store ==> id in more && more[id] == store[id]
  }

  lemma StoreGrows(node: Node, store: map<u32, Option<Key>>, more: map<u32, Option<Key>>, cluster: string)
    requires NodeInv(node, store, cluster) && Grows(store, more)
    ensures NodeInv(node, more, cluster)
  {
    hide WellKnown, Lawful, Listing, OldestOf, Pending;
  }

  lemma UnusedDeleted(node: Node, store: map<u32, Option<Key>>, id: u32, cluster: string)
    requires NodeInv(node, store, cluster) && Unneeded(node, id, cluster)
    ensures NodeInv(node, store - {id}, cluster)
  {
    hide WellKnown, Lawful, Listing, OldestOf, Pending;
    var less := store - {id};
    forall list | list in node.lists ensures PicksAgree(list, less, cluster) {
      forall key | key in OldestOf(list) && WellKnown(key, cluster).None?
        ensures Names(OldestOf(list)[key].id, key, less, cluster)
      {
        assert !NeedsFor(node, id, key, cluster);
      }
    }
    forall key | key in node.held && node.held[key].verified ensures Names(node.held[key].id, key, less, cluster) {
      assert !NeedsFor(node, id, key, cluster);
    }
    if node.wait.Some? { assert !NeedsFor(node, id, node.wait.value.key, cluster); }
  }

  /** A list that agrees with the store resolves to stored numbers. */
  lemma AgreesPicks(list: seq<Object>, store: map<u32, Option<Key>>, cluster: string)
    requires Listing(list) && Agrees(list, store)
    ensures PicksAgree(list, store, cluster)
  {
    hide WellKnown, OldestOf, Listing;
    forall key | key in OldestOf(list) && WellKnown(key, cluster).None?
      ensures Names(OldestOf(list)[key].id, key, store, cluster)
    {
      OldestExact(list, key);
      var i :| 0 <= i < |list| && list[i] == OldestOf(list)[key];
    }
  }

  lemma PassStep(node: Node, store: map<u32, Option<Key>>, list: seq<Object>, order: seq<Key>, start: u32,
                 cluster: string)
    requires NodeInv(node, store, cluster) && list in node.lists && NoRepeats(order)
    requires node.wait.None? && node.outbox == []
    ensures var r := Pass(node.held, order, list, cluster, start);
            NodeInv(node.(held := r.held, outbox := r.actions), store, cluster)
  {
    hide WellKnown, Pass, OldestOf, ById;
    var r := Pass(node.held, order, list, cluster, start);
    PassKeeps(node.held, order, list, cluster, start);
    forall key | key in r.held
      ensures r.held[key].verified ==> Names(r.held[key].id, key, store, cluster)
      ensures !r.held[key].verified ==> Create(r.held[key].id, key) in r.actions
    {
      PassExplained(node.held, order, list, cluster, start, key);
      assert InClass(key, r.held[key].id, cluster);
      assert key in node.held ==> node.held[key].verified;
    }
    PassLeases(node.held, order, list, cluster, start);
  }

  /** The writes of a pass are leases of held numbers. */
  lemma PassLeases(held: Holding, order: seq<Key>, list: seq<Object>, cluster: string, start: u32)
    requires Lawful(held, cluster) && Listing(list) && NoRepeats(order)
    ensures forall i :: 0 <= i < |Pass(held, order, list, cluster, start).actions| ==>
              Lease(Pass(held, order, list, cluster, start).actions[i], cluster)
  {
    hide WellKnown, SettleAll, ViewOf;
    PassKeeps(held, order, list, cluster, start);
    var r := Pass(held, order, list, cluster, start);
    forall id | id in ViewOf(list).byId ensures ViewOf(list).byId[id].id == id { ViewIds(list, id); }
    forall i | 0 <= i < |r.actions| ensures Lease(r.actions[i], cluster) {
      SettleAllOrdinary(Retain(held, Members(order)), order, ViewOf(list), cluster, start, i);
      assert InClass(r.actions[i].key, r.held[r.actions[i].key].id, cluster);
    }
  }

  lemma ViewIds(list: seq<Object>, id: u32)
    requires Listing(list) && id in ViewOf(list).byId
    ensures ViewOf(list).byId[id].id == id
  {
    ByIdExact(list, id);
  }

  lemma {:induction false} SettleAllOrdinary(held: Holding, order: seq<Key>, view: View, cluster: string, start: u32,
                                             i: nat)
    requires forall id :: id in view.byId ==> view.byId[id].id == id
    requires i < |SettleAll(held, order, view, cluster, start).actions|
    ensures WellKnown(SettleAll(held, order, view, cluster, start).actions[i].key, cluster).None?
  {
    hide WellKnown, Settle;
    if order != [] {
      var init, key := order[..|order| - 1], order[|order| - 1];
      var before := SettleAll(held, init, view, cluster, start);
      if i < |before.actions| {
        SettleAllOrdinary(held, init, view, cluster, start, i);
      } else {
        SettleActs(before.held, key, view, cluster, start);
        var acts := Settle(before.held, key, view, cluster, start).actions;
        assert SettleAll(held, order, view, cluster, start).actions[i] == acts[i - |before.actions|];
      }
    }
  }

  lemma RecordStep(node: Node, store: map<u32, Option<Key>>, outcome: Outcome, cluster: string)
    requires NodeInv(node, store, cluster) && node.wait.Some?
    requires outcome == Done ==> node.wait.value.answer == Some(Done)
    ensures NodeInv(node.(held := Record(node.held, node.wait.value.key, node.wait.value.id, outcome), wait := None),
                    store, cluster)
  {
    hide WellKnown, Lawful, Listing, PicksAgree;
    RecordKeeps(node.held, node.wait.value.key, node.wait.value.id, outcome, cluster);
  }

  lemma InsertKeeps(w: World, id: u32, key: Option<Key>, cluster: string)
    requires WorldInv(w, cluster) && !Reserved(id)
    ensures WorldInv(Insert(w, id, key), cluster)
  {
    hide NodeInv;
    forall n | n in w.nodes ensures NodeInv(w.nodes[n], Insert(w, id, key).store, cluster) {
      StoreGrows(w.nodes[n], w.store, Insert(w, id, key).store, cluster);
    }
  }

  lemma PutKeeps(w: World, n: nat, node: Node, cluster: string)
    requires WorldInv(w, cluster) && NodeInv(node, w.store, cluster)
    ensures WorldInv(Put(w, n, node), cluster)
  {
    hide NodeInv;
  }

  lemma SendKeeps(w: World, n: nat, cluster: string)
    requires WorldInv(w, cluster) && n in w.nodes
    ensures WorldInv(SendNext(w, n), cluster)
  {
    hide NodeInv;
    var node := w.nodes[n];
    if node.outbox != [] && node.wait.None? {
      SendNode(node, w.store, cluster);
      var sent := SendNext(w, n);
      assert sent.nodes == w.nodes[n := sent.nodes[n]];
    }
  }

  lemma SendNode(node: Node, store: map<u32, Option<Key>>, cluster: string)
    requires NodeInv(node, store, cluster) && node.outbox != [] && node.wait.None?
    ensures var rest := node.(outbox := node.outbox[1..]);
            match node.outbox[0]
            case Create(id, key) => !Reserved(id) && NodeInv(rest.(wait := Some(Wait(id, key, None))), store, cluster)
            case Acquire(_, _, _) => NodeInv(rest, store, cluster)
  {
    hide WellKnown, Lawful, Listing, PicksAgree, Names;
    assert Lease(node.outbox[0], cluster);
    assert node.outbox == [node.outbox[0]] + node.outbox[1..];
  }

  lemma ServeKeeps(w: World, n: nat, cluster: string)
    requires WorldInv(w, cluster) && n in w.nodes
    ensures WorldInv(ServeNext(w, n), cluster)
  {
    hide NodeInv;
    var node := w.nodes[n];
    if node.wait.Some? && node.wait.value.answer.None? {
      var wait := node.wait.value;
      assert !Reserved(wait.id) by { WaitOrdinary(node, w.store, cluster); }
      var more := Insert(w, wait.id, Some(wait.key));
      InsertKeeps(w, wait.id, Some(wait.key), cluster);
      ServeNode(node, w.store, more.store, cluster);
      var answer := if wait.id in w.store then Conflict else Done;
      PutKeeps(more, n, node.(wait := Some(wait.(answer := Some(answer)))), cluster);
    }
  }

  lemma WaitOrdinary(node: Node, store: map<u32, Option<Key>>, cluster: string)
    requires NodeInv(node, store, cluster) && node.wait.Some?
    ensures !Reserved(node.wait.value.id) && WellKnown(node.wait.value.key, cluster).None?
  {
    hide WellKnown;
  }

  lemma ServeNode(node: Node, store: map<u32, Option<Key>>, more: map<u32, Option<Key>>, cluster: string)
    requires NodeInv(node, more, cluster) && node.wait.Some?
    requires var wait := node.wait.value; wait.id !in store ==> wait.id in more && more[wait.id] == Some(wait.key)
    ensures var wait := node.wait.value;
            var answer := if wait.id in store then Conflict else Done;
            NodeInv(node.(wait := Some(wait.(answer := Some(answer)))), more, cluster)
  {
    hide WellKnown, Lawful, Listing, PicksAgree;
  }

  lemma DeleteKeeps(w: World, id: u32, cluster: string)
    requires WorldInv(w, cluster) && Unused(w, id, cluster)
    ensures WorldInv(w.(store := w.store - {id}), cluster)
  {
    hide NodeInv, Unneeded;
    forall n | n in w.nodes ensures NodeInv(w.nodes[n], w.store - {id}, cluster) {
      UnusedDeleted(w.nodes[n], w.store, id, cluster);
    }
  }

  lemma LearnKeeps(node: Node, store: map<u32, Option<Key>>, list: seq<Object>, cluster: string)
    requires NodeInv(node, store, cluster)
    ensures Listing(list) && Agrees(list, store) ==> NodeInv(node.(lists := node.lists + {list}), store, cluster)
    ensures NodeInv(node.(lists := node.lists - {list}), store, cluster)
  {
    hide WellKnown, Lawful, Listing, Agrees, Names, PicksAgree;
    if Listing(list) && Agrees(list, store) { AgreesPicks(list, store, cluster); }
  }

  lemma NextKeeps(w: World, step: Step, cluster: string)
    requires WorldInv(w, cluster)
    ensures WorldInv(Next(w, step, cluster), cluster)
  {
    hide NodeInv, Unused, Pass, Listing, Agrees, NoRepeats, SendNext, ServeNext, WellKnown;
    match step
    case Restart(n) =>
      FreshInv(w.store, cluster);
      PutKeeps(w, n, FRESH, cluster);
    case Foreign(id, key) => if !Reserved(id) { InsertKeeps(w, id, key, cluster); }
    case Late(id, key) =>
      if (id, key) in w.sent {
        assert !Reserved((id, key).0);
        InsertKeeps(w, id, Some(key), cluster);
      }
    case Delete(id) => if Unused(w, id, cluster) { DeleteKeeps(w, id, cluster); }
    case Learn(n, list) =>
      if n in w.nodes && Listing(list) && Agrees(list, w.store) {
        LearnKeeps(w.nodes[n], w.store, list, cluster);
        PutKeeps(w, n, w.nodes[n].(lists := w.nodes[n].lists + {list}), cluster);
      }
    case Forget(n, list) =>
      if n in w.nodes {
        LearnKeeps(w.nodes[n], w.store, list, cluster);
        PutKeeps(w, n, w.nodes[n].(lists := w.nodes[n].lists - {list}), cluster);
      }
    case Reconcile(n, list, order, start) =>
      if n in w.nodes && list in w.nodes[n].lists && w.nodes[n].wait.None? && w.nodes[n].outbox == []
         && NoRepeats(order)
      {
        PassStep(w.nodes[n], w.store, list, order, start, cluster);
        var r := Pass(w.nodes[n].held, order, list, cluster, start);
        PutKeeps(w, n, w.nodes[n].(held := r.held, outbox := r.actions), cluster);
      }
    case Send(n) => if n in w.nodes { SendKeeps(w, n, cluster); }
    case Serve(n) => if n in w.nodes { ServeKeeps(w, n, cluster); }
    case Reply(n) =>
      if n in w.nodes && w.nodes[n].wait.Some? && w.nodes[n].wait.value.answer.Some? {
        AnsweredKeeps(w, n, w.nodes[n].wait.value.answer.value, cluster);
      }
    case Lose(n) => if n in w.nodes && w.nodes[n].wait.Some? { AnsweredKeeps(w, n, Failed, cluster); }
  }

  lemma FreshInv(store: map<u32, Option<Key>>, cluster: string)
    ensures NodeInv(FRESH, store, cluster)
  {
  }

  lemma AnsweredKeeps(w: World, n: nat, outcome: Outcome, cluster: string)
    requires WorldInv(w, cluster) && n in w.nodes && w.nodes[n].wait.Some?
    requires outcome == Done ==> w.nodes[n].wait.value.answer == Some(Done)
    ensures WorldInv(Answered(w, n, outcome), cluster)
  {
    hide NodeInv, Record;
    var node := w.nodes[n];
    RecordStep(node, w.store, outcome, cluster);
    var held := Record(node.held, node.wait.value.key, node.wait.value.id, outcome);
    PutKeeps(w, n, node.(held := held, wait := None), cluster);
  }
}
