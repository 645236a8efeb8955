/** Synchronising a node store with the ordered list of nodes of the management daemon (NodeStoreEx.c):
    a merge of the two ordered collections finds what was added and removed, then the store is changed. */
module NodeSync {

  type NumId = nat
  type Ref = nat

  /** A node object. `ref` is its identity. */
  datatype Node = Node(ref: Ref, numId: NumId, stringId: string, interfaces: nat, active: bool)

  type Nodes = map<NumId, Node>

  /** What becomes of a stored node when a node with its numeric ID is reported: the same node is brought
      up to date, a different one (by its string ID) leaves it alone. */
  function Updated(stored: Node, reported: Node): Node {
    if stored.stringId == reported.stringId then stored.(interfaces := reported.interfaces) else stored
  }

  /** The store after addOrUpdateNode. */
  function AddedOrUpdated(nodes: Nodes, node: Node): Nodes {
    if node.numId == 0 then nodes
    else if node.numId in nodes then nodes[node.numId := Updated(nodes[node.numId], node)]
    else nodes[node.numId := node.(active := true)]
  }

  predicate Ordered(list: seq<Node>) {
    forall i, j :: 0 <= i < j < |list| ==> list[i].numId < list[j].numId
  }

  predicate HasId(list: seq<Node>, n: nat, id: NumId)
    requires n <= |list|
  {
    exists k :: 0 <= k < n && list[k].numId == id
  }

  predicate Ascending(ids: seq<NumId>) {
    forall i, j :: 0 <= i < j < |ids| ==> ids[i] < ids[j]
  }

  lemma AscendingSnoc(ids: seq<NumId>, x: NumId)
    requires Ascending(ids) && forall y :: y in ids ==> y < x
    ensures Ascending(ids + [x])
  {
    var r := ids + [x];
    forall i, j | 0 <= i < j < |r| ensures r[i] < r[j] {
      assert r[i] in ids;
    }
  }

  lemma BelowNext(list: seq<Node>, n: nat, id: NumId)
    requires Ordered(list) && n < |list| && HasId(list, n, id)
    ensures id < list[n].numId
  {
  }

  /** The store after the first n nodes of the list. */
  function Fold(nodes: Nodes, list: seq<Node>, n: nat): Nodes
    requires n <= |list|
  {
    if n == 0 then nodes else AddedOrUpdated(Fold(nodes, list, n - 1), list[n - 1])
  }

  /** The objects of the list that addOrUpdateNode releases. */
  function Dropped(nodes: Nodes, list: seq<Node>, n: nat): seq<Ref>
    requires n <= |list|
  {
    if n == 0 then []
    else Dropped(nodes, list, n - 1)
         + if list[n - 1].numId == 0 || list[n - 1].numId in Fold(nodes, list, n - 1)
           then [list[n - 1].ref] else []
  }

  function RefsOf(nodes: Nodes, ids: seq<NumId>, n: nat): seq<Ref>
    requires n <= |ids| && forall k :: 0 <= k < |ids| ==> ids[k] in nodes
  {
    if n == 0 then [] else RefsOf(nodes, ids, n - 1) + [nodes[ids[n - 1]].ref]
  }

  /** The least key behind a position, as rb_first and rb_next find it. */
  predicate IsNext(keys: set<NumId>, after: int, next: int) {
    if next >= 0
    then next in keys && next > after && forall x :: x in keys && x > after ==> next <= x
    else forall x :: x in keys ==> x <= after
  }

  /** How far the merge has come: the first i nodes of the list and all keys below `active`, or all keys
      if it is negative. */
  ghost predicate Merged(keys: set<NumId>, master: seq<Node>, i: nat, active: int, added: seq<NumId>,
                         removed: seq<NumId>)
  {
    && i <= |master|
    && (active >= 0 ==> forall k :: 0 <= k < i ==> master[k].numId < active)
    && (i < |master| ==> forall x :: x in keys && Below(x, active) ==> x < master[i].numId)
    && Ascending(added) && Ascending(removed)
    && (forall x: NumId :: x in added <==> x !in keys && HasId(master, i, x))
    && (forall x: NumId :: x in removed <==> x in keys && Below(x, active) && !HasId(master, |master|, x))
  }

  predicate Below(x: NumId, active: int) {
    active < 0 || x < active
  }

  /** The keys that the iterator has yet to visit. */
  ghost function Behind(keys: set<NumId>, active: int): set<NumId> {
    set x | x in keys && !Below(x, active)
  }

  lemma MergedAdd(keys: set<NumId>, master: seq<Node>, i: nat, active: int, added: seq<NumId>, removed: seq<NumId>)
    requires Ordered(master) && Merged(keys, master, i, active, added, removed)
    requires i < |master| && Below(master[i].numId, active)
    ensures Merged(keys, master, i + 1, active, added + [master[i].numId], removed)
  {
    var id := master[i].numId;
    forall y | y in added ensures y < id { BelowNext(master, i, y); }
    AscendingSnoc(added, id);
    forall x: NumId ensures HasId(master, i + 1, x) <==> HasId(master, i, x) || x == id {
      HasIdSnoc(master, i + 1, x);
    }
  }

  lemma MergedRemove(keys: set<NumId>, master: seq<Node>, i: nat, active: NumId, next: int, added: seq<NumId>,
                     removed: seq<NumId>)
    requires Merged(keys, master, i, active, added, removed)
    requires active in keys && IsNext(keys, active, next)
    requires Ordered(master) && (i < |master| ==> active < master[i].numId)
    ensures Merged(keys, master, i, next, added, removed + [active])
    ensures Behind(keys, next) < Behind(keys, active)
  {
    AscendingSnoc(removed, active);
    forall x: NumId ensures x in keys && Below(x, next) <==> x in keys && (Below(x, active) || x == active) {
    }
    assert !HasId(master, |master|, active);
    assert active in Behind(keys, active) && active !in Behind(keys, next);
  }

  lemma MergedBoth(keys: set<NumId>, master: seq<Node>, i: nat, active: NumId, next: int, added: seq<NumId>,
                   removed: seq<NumId>)
    requires Ordered(master) && Merged(keys, master, i, active, added, removed)
    requires active in keys && IsNext(keys, active, next)
    requires i < |master| && active == master[i].numId
    ensures Merged(keys, master, i + 1, next, added, removed)
  {
    forall x: NumId ensures x in keys && Below(x, next) <==> x in keys && (Below(x, active) || x == active) {
    }
    assert HasId(master, |master|, active);
    forall x: NumId ensures HasId(master, i + 1, x) <==> HasId(master, i, x) || x == active {
      HasIdSnoc(master, i + 1, x);
    }
  }

  class NodeStore {
    var nodes: Nodes
    ghost var released: seq<Ref>   // the Node_put calls on a last reference, in order

    ghost predicate Valid()
      reads this
    {
      && 0 !in nodes
      && forall id :: id in nodes ==> nodes[id].numId == id
    }

    method Next(after: int) returns (next: int)
      ensures IsNext(nodes.Keys, after, next) && next >= -1
    {
      var rest := set x | x in nodes && x > after;
      next := -1;
      while rest != {}
        invariant forall x :: x in rest ==> x in nodes && x > after
        invariant next >= -1 && (next >= 0 ==> next in nodes && next > after)
        invariant forall x :: x in nodes && x > after && x !in rest ==> 0 <= next <= x
        decreases rest
      {
        var x :| x in rest;
        if next < 0 || x < next {
          next := x;
        }
        rest := rest - {x};
      }
    }

    /** addOrUpdateNode: the object now belongs to the store or was released. */
    method AddOrUpdateNode(node: Node) returns (isNew: bool)
      requires Valid()
      modifies this
      ensures Valid() && nodes == AddedOrUpdated(old(nodes), node)
      ensures forall id :: id in old(nodes) ==> id in nodes && nodes[id].ref == old(nodes)[id].ref
      ensures node.numId in old(nodes) ==>
        nodes[node.numId].interfaces == (if old(nodes)[node.numId].stringId == node.stringId then node.interfaces
                                         else old(nodes)[node.numId].interfaces)
      ensures isNew <==> node.numId in nodes && node.numId !in old(nodes)
      ensures released == old(released) + if isNew then [] else [node.ref]
    {
      if node.numId == 0 {
        released := released + [node.ref];
        return false;
      }
      if node.numId in nodes {
        var active := nodes[node.numId];
        if active.stringId == node.stringId {
          nodes := nodes[node.numId := active.(interfaces := node.interfaces)];
        }
        released := released + [node.ref];
        isNew := false;
      } else {
        nodes := nodes[node.numId := node.(active := true)];
        isNew := true;
      }
    }

    /** deleteNode */
    method DeleteNode(id: NumId) returns (wasActive: bool)
      requires Valid()
      modifies this
      ensures Valid() && nodes == old(nodes) - {id}
      ensures wasActive <==> id in old(nodes)
      ensures released == old(released) + if wasActive then [old(nodes)[id].ref] else []
    {
      wasActive := id in nodes;
      if wasActive {
        released := released + [nodes[id].ref];
        nodes := nodes - {id};
      }
    }

    /** One turn of the merge while both collections have something left. */
    method MergeStep(master: seq<Node>, i: nat, active: int, added: seq<NumId>, removed: seq<NumId>)
      returns (i': nat, active': int, added': seq<NumId>, removed': seq<NumId>)
      requires Ordered(master) && i < |master| && active in nodes
      requires Merged(nodes.Keys, master, i, active, added, removed)
      ensures Merged(nodes.Keys, master, i', active', added', removed')
      ensures active' >= 0 ==> active' in nodes
      ensures i' > i || (i' == i && Behind(nodes.Keys, active') < Behind(nodes.Keys, active))
    {
      i', active', added', removed' := i, active, added, removed;
      var currentMaster := master[i].numId;
      if currentMaster < active {
        MergedAdd(nodes.Keys, master, i, active, added, removed);
        added' := added + [currentMaster];
        i' := i + 1;
      } else if active < currentMaster {
        active' := Next(active);
        MergedRemove(nodes.Keys, master, i, active, active', added, removed);
        removed' := removed + [active];
      } else {
        active' := Next(active);
        MergedBoth(nodes.Keys, master, i, active, active', added, removed);
        i' := i + 1;
      }
    }

    /** Phase 1: what the list adds to the store and what it lacks, both in ascending order. */
    method FindChanges(master: seq<Node>) returns (added: seq<NumId>, removed: seq<NumId>)
      requires Valid() && Ordered(master)
      ensures Ascending(added) && Ascending(removed)
      ensures forall x: NumId :: x in added <==> x !in nodes && HasId(master, |master|, x)
      ensures forall x: NumId :: x in removed <==> x in nodes && !HasId(master, |master|, x)
    {
      var i := 0;
      added, removed := [], [];
      var active := Next(-1);
      while active >= 0 && i < |master|
        invariant active >= 0 ==> active in nodes
        invariant Merged(nodes.Keys, master, i, active, added, removed)
        decreases |master| - i, Behind(nodes.Keys, active)
      {
        i, active, added, removed := MergeStep(master, i, active, added, removed);
      }
      added := AddRest(master, i, active, added, removed);
      removed := RemoveRest(master, active, added, removed);
    }

    /** The rest of the list is new. */
    method AddRest(master: seq<Node>, start: nat, active: int, added0: seq<NumId>, removed: seq<NumId>)
      returns (added: seq<NumId>)
      requires Ordered(master) && Merged(nodes.Keys, master, start, active, added0, removed)
      requires active < 0 || start == |master|
      ensures Merged(nodes.Keys, master, |master|, active, added, removed)
    {
      added := added0;
      for i := start to |master|
        invariant Merged(nodes.Keys, master, i, active, added, removed)
      {
        MergedAdd(nodes.Keys, master, i, active, added, removed);
        added := added + [master[i].numId];
      }
    }

    /** The rest of the store is removed. */
    method RemoveRest(master: seq<Node>, start: int, added: seq<NumId>, removed0: seq<NumId>)
      returns (removed: seq<NumId>)
      requires Ordered(master) && (start >= 0 ==> start in nodes)
      requires Merged(nodes.Keys, master, |master|, start, added, removed0)
      ensures Merged(nodes.Keys, master, |master|, -1, added, removed)
    {
      removed := removed0;
      var active := start;
      while active >= 0
        invariant active >= -1 || active == start
        invariant active >= 0 ==> active in nodes
        invariant Merged(nodes.Keys, master, |master|, active, added, removed)
        decreases Behind(nodes.Keys, active)
      {
        var next := Next(active);
        MergedRemove(nodes.Keys, master, |master|, active, next, added, removed);
        removed := removed + [active];
        active := next;
      }
    }

    /** syncNodes: afterwards the store holds exactly the reported nodes. */
    method SyncNodes(master: seq<Node>) returns (added: seq<NumId>, removed: seq<NumId>)
      requires Valid() && Ordered(master)
      modifies this
      ensures Valid()
      ensures Ascending(added) && Ascending(removed)
      ensures forall x: NumId :: x in added <==> x !in old(nodes) && HasId(master, |master|, x)
      ensures forall x: NumId :: x in removed <==> x in old(nodes) && !HasId(master, |master|, x)
      ensures nodes == Fold(Retained(old(nodes), master), master, |master|)
      ensures released == old(released) + RefsOf(old(nodes), removed, |removed|)
                + Dropped(Retained(old(nodes), master), master, |master|)
    {
      added, removed := FindChanges(master);
      DeleteAll(removed);
      assert nodes == Retained(old(nodes), master);
      AddAll(master);
    }

    method DeleteAll(ids: seq<NumId>)
      requires Valid() && Ascending(ids) && forall k :: 0 <= k < |ids| ==> ids[k] in nodes
      modifies this
      ensures Valid()
      ensures nodes == map x | x in old(nodes) && x !in ids :: old(nodes)[x]
      ensures released == old(released) + RefsOf(old(nodes), ids, |ids|)
    {
      for n := 0 to |ids|
        invariant Valid()
        invariant nodes == map x | x in old(nodes) && x !in ids[..n] :: old(nodes)[x]
        invariant released == old(released) + RefsOf(old(nodes), ids, n)
      {
        assert ids[..n + 1] == ids[..n] + [ids[n]];
        assert ids[n] in nodes;
        var _ := DeleteNode(ids[n]);
      }
      assert ids[..|ids|] == ids;
    }

    method AddAll(list: seq<Node>)
      requires Valid()
      modifies this
      ensures Valid()
      ensures nodes == Fold(old(nodes), list, |list|)
      ensures released == old(released) + Dropped(old(nodes), list, |list|)
    {
      for n := 0 to |list|
        invariant Valid()
        invariant nodes == Fold(old(nodes), list, n)
        invariant released == old(released) + Dropped(old(nodes), list, n)
      {
        var _ := AddOrUpdateNode(list[n]);
      }
    }
  }

  /** The stored nodes that the list still names. */
  function Retained(nodes: Nodes, master: seq<Node>): Nodes {
    map id | id in nodes && HasId(master, |master|, id) :: nodes[id]
  }

  /** What the store holds under an ID after the first n nodes. */
  lemma {:induction false} FoldAt(nodes: Nodes, list: seq<Node>, n: nat, id: NumId)
    requires n <= |list| && Ordered(list)
    ensures id in Fold(nodes, list, n) <==> id in nodes || (id != 0 && HasId(list, n, id))
    ensures id in nodes && !HasId(list, n, id) ==> Fold(nodes, list, n)[id] == nodes[id]
    ensures id != 0 ==> forall k :: 0 <= k < n && list[k].numId == id ==>
              Fold(nodes, list, n)[id] == if id in nodes then Updated(nodes[id], list[k]) else list[k].(active := true)
  {
    if n > 0 {
      FoldAt(nodes, list, n - 1, id);
      HasIdSnoc(list, n, id);
    }
  }

  lemma HasIdSnoc(list: seq<Node>, n: nat, id: NumId)
    requires 0 < n <= |list|
    ensures HasId(list, n, id) <==> HasId(list, n - 1, id) || list[n - 1].numId == id
  {
  }

  /** The IDs in the store after a synchronisation are exactly the reported ones, except for the
      undefined ID 0. A node that was stored before is the same object, with the reported interfaces if
      the report is about that node and with its own if it is about another node of the same numeric ID.
      A node that was not stored is the reported object, now active. */
  lemma StoreIsMaster(nodes: Nodes, master: seq<Node>, id: NumId)
    requires 0 !in nodes && Ordered(master)
    ensures var after := Fold(Retained(nodes, master), master, |master|);
            && (id in after <==> id != 0 && HasId(master, |master|, id))
            && (forall k :: 0 <= k < |master| && master[k].numId == id && id in after && id in nodes ==>
                  && after[id].interfaces == (if nodes[id].stringId == master[k].stringId then master[k].interfaces
                                              else nodes[id].interfaces)
                  && after[id].ref == nodes[id].ref && after[id].numId == nodes[id].numId
                  && after[id].stringId == nodes[id].stringId && after[id].active == nodes[id].active)
            && (forall k :: 0 <= k < |master| && master[k].numId == id && id in after && id !in nodes ==>
                  && after[id].active && after[id].ref == master[k].ref && after[id].numId == id
                  && after[id].stringId == master[k].stringId && after[id].interfaces == master[k].interfaces)
  {
    FoldAt(Retained(nodes, master), master, |master|, id);
  }

  predicate DistinctRefs(list: seq<Node>) {
    forall i, j :: 0 <= i < j < |list| ==> list[i].ref != list[j].ref
  }

  /** The reported object k is dropped exactly if its ID is undefined or was in the store already. */
  lemma {:induction false} DroppedIff(nodes: Nodes, list: seq<Node>, n: nat, k: nat)
    requires n <= |list| && Ordered(list) && k < |list| && DistinctRefs(list)
    ensures list[k].ref in Dropped(nodes, list, n) <==> k < n && (list[k].numId == 0 || list[k].numId in nodes)
  {
    if n > 0 {
      DroppedIff(nodes, list, n - 1, k);
      FoldAt(nodes, list, n - 1, list[n - 1].numId);
    }
  }

  lemma {:induction false} DroppedOnce(nodes: Nodes, list: seq<Node>, n: nat, i: nat, j: nat)
    requires n <= |list| && Ordered(list) && DistinctRefs(list)
    requires i < j < |Dropped(nodes, list, n)|
    ensures Dropped(nodes, list, n)[i] != Dropped(nodes, list, n)[j]
  {
    var before := Dropped(nodes, list, n - 1);
    if j < |before| {
      DroppedOnce(nodes, list, n - 1, i, j);
    } else {
      assert before[i] in before;
      DroppedIff(nodes, list, n - 1, n - 1);
    }
  }

  /** Every reported object ends up in exactly one of two places: stored, or released once. */
  lemma ReportedIsAccounted(nodes: Nodes, master: seq<Node>, k: nat)
    requires 0 !in nodes && Ordered(master) && k < |master| && DistinctRefs(master)
    requires forall id, i :: id in nodes && 0 <= i < |master| ==> nodes[id].ref != master[i].ref
    ensures var kept := Retained(nodes, master);
            var after := Fold(kept, master, |master|);
            master[k].ref in Dropped(kept, master, |master|) <==>
              !(master[k].numId in after && after[master[k].numId].ref == master[k].ref)
  {
    var kept := Retained(nodes, master);
    DroppedIff(kept, master, |master|, k);
    StoreIsMaster(nodes, master, master[k].numId);
  }

  /** Every stored object stays stored or is released with the removed ones. */
  lemma StoredIsAccounted(nodes: Nodes, master: seq<Node>, removed: seq<NumId>, id: NumId)
    requires 0 !in nodes && Ordered(master) && id in nodes
    requires forall x: NumId :: x in removed <==> x in nodes && !HasId(master, |master|, x)
    requires Ascending(removed)
    requires forall x, y :: x in nodes && y in nodes && x != y ==> nodes[x].ref != nodes[y].ref
    ensures nodes[id].ref in RefsOf(nodes, removed, |removed|) <==> !HasId(master, |master|, id)
    ensures HasId(master, |master|, id) ==>
      var after := Fold(Retained(nodes, master), master, |master|); id in after && after[id].ref == nodes[id].ref
    ensures |RefsOf(nodes, removed, |removed|)| == |removed|
  {
    RefsOfAt(nodes, removed, |removed|);
    if HasId(master, |master|, id) {
      StoreIsMaster(nodes, master, id);
      var k :| 0 <= k < |master| && master[k].numId == id;
      assert Updated(nodes[id], master[k]).ref == nodes[id].ref;
    } else {
      var j :| 0 <= j < |removed| && removed[j] == id;
      assert RefsOf(nodes, removed, |removed|)[j] == nodes[id].ref;
    }
  }

  lemma {:induction false} RefsOfAt(nodes: Nodes, ids: seq<NumId>, n: nat)
    requires n <= |ids| && forall k :: 0 <= k < |ids| ==> ids[k] in nodes
    ensures |RefsOf(nodes, ids, n)| == n
    ensures forall k :: 0 <= k < n ==> RefsOf(nodes, ids, n)[k] == nodes[ids[k]].ref
  {
    if n > 0 {
      RefsOfAt(nodes, ids, n - 1);
    }
  }
}
