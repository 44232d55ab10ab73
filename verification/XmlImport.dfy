/** Adding the parsed nodes to the address space in a given order: when that raises, and what sorting gains. */
module XmlImport {
  import opened Wrappers
  import opened NodeIds
  import opened AddressSpace
  import opened NodeManagement
  import opened Loading
  import opened Namespaces
  import opened XmlOrder

  function Migrate(indices: map<nat, nat>, id: NodeId): NodeId {
    id.(namespaceIndex := Reindex(indices, id.namespaceIndex))
  }

  function ItemOf(nd: NodeData, indices: map<nat, nat>): NodeItem {
    var linked := nd.parent.Some? && nd.parentLink.Some?;
    NodeItem(Migrate(indices, nd.nodeId),
             if linked then Migrate(indices, nd.parent.value) else NULL_ID,
             if linked then Migrate(indices, nd.parentLink.value) else NULL_ID,
             nd.nodeClass,
             if nd.typeDefinition.Some? then Migrate(indices, nd.typeDefinition.value) else NULL_ID)
  }

  /** The references that a node of the file asks for. */
  function RefItems(source: NodeId, refs: seq<RefData>, indices: map<nat, nat>): seq<ReferenceItem> {
    if refs == [] then []
    else
      [ReferenceItem(source, refs[0].refType, Migrate(indices, refs[0].target), refs[0].isForward, DATA_TYPE_CLASS)]
      + RefItems(source, refs[1..], indices)
  }

  function RefsOf(nd: NodeData, indices: map<nat, nat>): seq<ReferenceItem> {
    RefItems(Migrate(indices, nd.nodeId), nd.refs, indices)
  }

  /**
   One node and its references, of which those that fail are kept; None where the node is refused and the
   import raises.
   */
  function AddNodeData(l: Loader, nd: NodeData, indices: map<nat, nat>): Option<Loader> {
    var (added, status, _) := AddNode(l.space, ItemOf(nd, indices), true);
    var (after, failed) := AttemptAll(added, RefsOf(nd, indices));
    if status == Good then Some(Loader(after, l.postponed + failed)) else None
  }

  /** The nodes in the order of the list. */
  function ImportNodes(space: Space, nodes: seq<NodeData>, indices: map<nat, nat>): Option<Loader>
    decreases |nodes|
  {
    if nodes == [] then Some(Loader(space, []))
    else
      var before := ImportNodes(space, nodes[..|nodes| - 1], indices);
      if before.None? then None else AddNodeData(before.value, nodes[|nodes| - 1], indices)
  }

  /** The whole import: the references that failed are tried once more, and none may be left. */
  function Import(space: Space, nodes: seq<NodeData>, indices: map<nat, nat>): Option<Space> {
    var l := ImportNodes(space, nodes, indices);
    if l.None? then None
    else
      var (after, remaining) := AttemptAll(l.value.space, l.value.postponed);
      if remaining == [] then Some(after) else None
  }

  /** The ids of the nodes on the server. */
  function NewIds(nodes: seq<NodeData>, indices: map<nat, nat>): set<NodeId> {
    set nd | nd in nodes :: Migrate(indices, nd.nodeId)
  }

  /** A file names its nodes; a null identifier would make the server choose an id. */
  predicate ProperIds(nodes: seq<NodeData>) {
    forall nd | nd in nodes :: !nd.nodeId.identifier.IsNull()
  }

  /** The ids are new to the server and different from each other. */
  predicate FreshIds(space: Space, nodes: seq<NodeData>, indices: map<nat, nat>) {
    forall i | 0 <= i < |nodes| :: IdIsFresh(space, nodes, indices, i)
  }

  predicate IdIsFresh(space: Space, nodes: seq<NodeData>, indices: map<nat, nat>, i: nat)
    requires i < |nodes|
  {
    Migrate(indices, nodes[i].nodeId) !in space.nodes.Keys + NewIds(nodes[..i], indices)
  }

  /** Without a parent or a link to it; or with the parent on the server, from before or from earlier in the list. */
  predicate ParentIsKnown(space: Space, nodes: seq<NodeData>, indices: map<nat, nat>, i: nat)
    requires i < |nodes|
  {
    var parent := ItemOf(nodes[i], indices).parent;
    parent.IsNull() || parent in space.nodes.Keys + NewIds(nodes[..i], indices)
  }

  lemma {:induction false} AttemptAllKeys(space: Space, refs: seq<ReferenceItem>)
    ensures AttemptAll(space, refs).0.nodes.Keys == space.nodes.Keys
    decreases |refs|
  {
    if refs != [] {
      AddReferenceKeys(space, refs[0]);
      AttemptCons(space, refs);
      hide AddReference, AttemptAll;
      AttemptAllKeys(AddReference(space, refs[0], true).0, refs[1..]);
    }
  }

  lemma AddReferenceKeys(space: Space, item: ReferenceItem)
    ensures AddReference(space, item, true).0.nodes.Keys == space.nodes.Keys
  {
  }

  lemma LinkNodeKeys(space: Space, id: NodeId, item: NodeItem)
    requires id !in space.nodes && (item.parent.IsNull() || item.parent in space.nodes)
    ensures LinkNode(space, id, item).nodes.Keys == space.nodes.Keys + {id}
  {
    var space1 := space.(nodes := space.nodes[id := Node(item.nodeClass, [])]);
    var first := ReferenceItem(item.parent, item.refType, id, true, item.nodeClass);
    AddReferenceKeys(space1, first);
    var fromParent := AddReference(space1, first, true).0;
    var third := ReferenceItem(id, HAS_TYPE_DEFINITION, item.typeDefinition, true, DATA_TYPE_CLASS);
    AddReferenceKeys(space1, third);
    if !item.parent.IsNull() {
      var second := ReferenceItem(id, item.refType, item.parent, false, space.nodes[item.parent].nodeClass);
      AddReferenceKeys(fromParent, second);
      AddReferenceKeys(AddReference(fromParent, second, true).0, third);
    }
    hide AddReference;
  }

  lemma AddOne(l: Loader, nd: NodeData, indices: map<nat, nat>)
    requires !nd.nodeId.identifier.IsNull()
    ensures var after := AddNodeData(l, nd, indices);
            var (id, parent) := (Migrate(indices, nd.nodeId), ItemOf(nd, indices).parent);
            && (after.Some? <==> id !in l.space.nodes && (parent.IsNull() || parent in l.space.nodes))
            && (after.Some? ==> after.value.space.nodes.Keys == l.space.nodes.Keys + {id})
  {
    hide LinkNode, AttemptAll;
    var item := ItemOf(nd, indices);
    AttemptAllKeys(AddNode(l.space, item, true).0, RefsOf(nd, indices));
    if item.requested !in l.space.nodes && (item.parent.IsNull() || item.parent in l.space.nodes) {
      LinkNodeKeys(l.space, item.requested, item);
    }
  }

  /**
   The nodes of a list are all added, and no others, if and only if every id is new and every parent
   that a node is linked to is known by then; otherwise the import raises.
   */
  lemma {:induction false} NodesImportExactly(space: Space, nodes: seq<NodeData>, indices: map<nat, nat>, k: nat)
    requires ProperIds(nodes) && k <= |nodes|
    ensures var r := ImportNodes(space, nodes[..k], indices);
            && (r.Some? <==> forall i | 0 <= i < k ::
                IdIsFresh(space, nodes, indices, i) && ParentIsKnown(space, nodes, indices, i))
            && (r.Some? ==> r.value.space.nodes.Keys == space.nodes.Keys + NewIds(nodes[..k], indices))
    decreases k
  {
    hide AddNodeData, NewIds;
    if k > 0 {
      assert nodes[k - 1] in nodes;
      NodesImportExactly(space, nodes, indices, k - 1);
      OneMoreId(nodes, indices, k - 1);
      ImportStep(space, nodes, indices, k - 1);
      hide ImportNodes;
      var before := ImportNodes(space, nodes[..k - 1], indices);
      if before.Some? {
        AddOne(before.value, nodes[k - 1], indices);
        assert forall id :: id in before.value.space.nodes <==> id in before.value.space.nodes.Keys;
        assert AddNodeData(before.value, nodes[k - 1], indices).Some? <==>
               IdIsFresh(space, nodes, indices, k - 1) && ParentIsKnown(space, nodes, indices, k - 1);
      }
    } else {
      assert NewIds(nodes[..k], indices) == {} by { NoIds(nodes[..k], indices); }
    }
  }

  lemma NoIds(nodes: seq<NodeData>, indices: map<nat, nat>)
    requires nodes == []
    ensures NewIds(nodes, indices) == {}
  {
  }

  lemma OneMoreId(nodes: seq<NodeData>, indices: map<nat, nat>, k: nat)
    requires k < |nodes|
    ensures NewIds(nodes[..k + 1], indices) == NewIds(nodes[..k], indices) + {Migrate(indices, nodes[k].nodeId)}
  {
    assert nodes[..k + 1] == nodes[..k] + [nodes[k]];
  }

  lemma ImportStep(space: Space, nodes: seq<NodeData>, indices: map<nat, nat>, k: nat)
    requires k < |nodes|
    ensures var before := ImportNodes(space, nodes[..k], indices);
            ImportNodes(space, nodes[..k + 1], indices) ==
            if before.None? then None else AddNodeData(before.value, nodes[k], indices)
  {
    hide AddNodeData;
    assert nodes[..k + 1][..k] == nodes[..k];
  }

  // ----- After sorting -----

  /** A node that waits comes after its parent in any list with parents first, so its parent is known. */
  lemma WaitingParentIsKnown(space: Space, nodes: seq<NodeData>, indices: map<nat, nat>, i: nat)
    requires ParentFirst(nodes, indices.Keys) && i < |nodes| && Waits(nodes[i], nodes, indices.Keys)
    ensures ParentIsKnown(space, nodes, indices, i)
  {
    assert Ready(nodes[i], nodes, indices.Keys, nodes[..i]);
    var m :| m in nodes[..i] && m.nodeId == nodes[i].parent.value;
    assert Migrate(indices, m.nodeId) in NewIds(nodes[..i], indices);
  }

  /**
   Exactly when a sorted file is imported: the ids are new and distinct, and every node that does not
   wait finds its parent on the server or earlier in the sorted list. For the nodes that wait the
   sorting has seen to it.
   */
  lemma SortedImportsExactly(space: Space, file: seq<NodeData>, indices: map<nat, nat>)
    requires ProperIds(file) && Ends(file, indices.Keys)
    ensures var sorted := Sorted(file, indices.Keys);
            var r := ImportNodes(space, sorted, indices);
            && (r.Some? <==>
                  && FreshIds(space, file, indices)
                  && forall i | 0 <= i < |sorted| && !Waits(sorted[i], file, indices.Keys) ::
                     ParentIsKnown(space, sorted, indices, i))
            && (r.Some? ==> r.value.space.nodes.Keys == space.nodes.Keys + NewIds(file, indices))
  {
    var sorted := Sorted(file, indices.Keys);
    SortedIsOrdered(file, indices.Keys);
    hide ImportNodes, Sorted, Ends, ParentFirst, FreshIds, ParentIsKnown, Waits;
    SameElements(file, sorted);
    SameMigrated(space, file, sorted, indices);
    WaitsSame(file, sorted, indices.Keys);
    assert sorted[..|sorted|] == sorted;
    NodesImportExactly(space, sorted, indices, |sorted|);
    forall i | 0 <= i < |sorted| && Waits(sorted[i], file, indices.Keys)
      ensures ParentIsKnown(space, sorted, indices, i)
    {
      WaitingParentIsKnown(space, sorted, indices, i);
    }
    FreshIsEach(space, sorted, indices);
  }

  lemma FreshIsEach(space: Space, nodes: seq<NodeData>, indices: map<nat, nat>)
    ensures FreshIds(space, nodes, indices) <==> forall i | 0 <= i < |nodes| :: IdIsFresh(space, nodes, indices, i)
  {
  }

  lemma SameElements(file: seq<NodeData>, sorted: seq<NodeData>)
    requires multiset(file) == multiset(sorted)
    ensures forall nd :: nd in file <==> nd in sorted
  {
    forall nd: NodeData
      ensures nd in file <==> nd in sorted
    {
      assert nd in multiset(file) <==> nd in multiset(sorted);
    }
  }

  lemma WaitsSame(file: seq<NodeData>, sorted: seq<NodeData>, keys: set<nat>)
    requires forall nd :: nd in file <==> nd in sorted
    ensures forall nd :: Waits(nd, file, keys) == Waits(nd, sorted, keys)
  {
  }

  /** The order does not matter for the ids. */
  lemma SameMigrated(space: Space, file: seq<NodeData>, sorted: seq<NodeData>, indices: map<nat, nat>)
    requires multiset(file) == multiset(sorted) && forall nd :: nd in file <==> nd in sorted
    ensures NewIds(file, indices) == NewIds(sorted, indices)
    ensures FreshIds(space, file, indices) <==> FreshIds(space, sorted, indices)
    ensures ProperIds(file) <==> ProperIds(sorted)
  {
    FreshIsDistinct(space, file, indices);
    FreshIsDistinct(space, sorted, indices);
    hide FreshIds;
    assert |multiset(file)| == |file| && |multiset(sorted)| == |sorted|;
  }

  predicate Distinct(nodes: seq<NodeData>, indices: map<nat, nat>) {
    |NewIds(nodes, indices)| == |nodes|
  }

  lemma {:induction false} FreshIsDistinct(space: Space, nodes: seq<NodeData>, indices: map<nat, nat>)
    ensures |NewIds(nodes, indices)| <= |nodes|
    ensures FreshIds(space, nodes, indices) <==> Distinct(nodes, indices) && NewIds(nodes, indices) !! space.nodes.Keys
    decreases |nodes|
  {
    if nodes != [] {
      var n := |nodes| - 1;
      var front := nodes[..n];
      FreshIsDistinct(space, front, indices);
      assert nodes[..n + 1] == nodes;
      OneMoreId(nodes, indices, n);
      hide NewIds;
      var id := Migrate(indices, nodes[n].nodeId);
      var ids := NewIds(front, indices);
      assert NewIds(nodes, indices) == ids + {id};
      assert |ids + {id}| == if id in ids then |ids| else |ids| + 1 by { if id in ids { assert ids + {id} == ids; } }
      assert forall i | 0 <= i < n :: front[..i] == nodes[..i];
      assert FreshIds(space, nodes, indices) <==>
             FreshIds(space, front, indices) && IdIsFresh(space, nodes, indices, n) by {
        FreshStep(space, nodes, indices);
      }
    } else {
      NoIds(nodes, indices);
    }
  }

  lemma FreshStep(space: Space, nodes: seq<NodeData>, indices: map<nat, nat>)
    requires nodes != []
    ensures FreshIds(space, nodes, indices) <==>
              FreshIds(space, nodes[..|nodes| - 1], indices) && IdIsFresh(space, nodes, indices, |nodes| - 1)
  {
    var n := |nodes| - 1;
    hide NewIds;
    forall i | 0 <= i < n
      ensures IdIsFresh(space, nodes[..n], indices, i) <==> IdIsFresh(space, nodes, indices, i)
    {
      assert nodes[..n][..i] == nodes[..i] && nodes[..n][i] == nodes[i];
    }
  }

  /** With every namespace of the file mapped, parents in the file or on the server are all that is needed. */
  lemma MappedFileImports(space: Space, file: seq<NodeData>, indices: map<nat, nat>)
    requires ProperIds(file) && Ends(file, indices.Keys) && FreshIds(space, file, indices)
    requires forall nd | nd in file :: nd.nodeId.namespaceIndex in indices
    requires forall nd | nd in file && nd.parent.Some? ::
               HasId(file, nd.parent.value) || Migrate(indices, nd.parent.value) in space.nodes
    ensures ImportNodes(space, Sorted(file, indices.Keys), indices).Some?
  {
    var sorted := Sorted(file, indices.Keys);
    SortedIsOrdered(file, indices.Keys);
    SameElements(file, sorted);
    SortedImportsExactly(space, file, indices);
    hide ImportNodes, Sorted, Ends, FreshIds, NewIds;
    forall i | 0 <= i < |sorted| && !Waits(sorted[i], file, indices.Keys)
      ensures ParentIsKnown(space, sorted, indices, i)
    {
      assert sorted[i] in file;
    }
  }

  /**
   Sorting does not help a node of a namespace outside the map: listed before its parent it stays
   there, and the import raises, although all ids are new and the sorting ends.
   */
  lemma UnmappedChildFails()
    ensures exists file: seq<NodeData>, indices: map<nat, nat> ::
              && ProperIds(file) && FreshIds(EMPTY_SPACE, file, indices) && Ends(file, indices.Keys)
              && |file| == 2 && file[0].parent == Some(file[1].nodeId)
              && ImportNodes(EMPTY_SPACE, Sorted(file, indices.Keys), indices) == None
  {
    var parent := NodeId(1, Numeric(7));
    var child := NodeData(0, NodeId(0, Numeric(99999)), Some(parent), Some(NodeId(0, Numeric(47))), None, 1, []);
    var top := NodeData(1, parent, None, None, None, 1, []);
    var file, indices := [child, top], map[1 := 2];
    assert InOrder(file, file, indices.Keys) by {
      assert !Waits(child, file, indices.Keys) && !Waits(top, file, indices.Keys);
    }
    SortedIsFixed(file, indices.Keys);
    assert file[1] == top && HasId(file, parent);
    assert file[..0] == [] && file[..1] == [child];
    assert FreshIds(EMPTY_SPACE, file, indices);
    NoIds(file[..0], indices);
    assert !ParentIsKnown(EMPTY_SPACE, file, indices, 0);
    assert file[..2] == file;
    NodesImportExactly(EMPTY_SPACE, file, indices, 2);
  }
}
