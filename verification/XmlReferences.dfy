/** The references of an imported file: when all of them are in the graph at the end, and what else is. */
module XmlReferences {
  import opened Wrappers
  import opened NodeIds
  import opened AddressSpace
  import opened NodeManagement
  import opened Loading
  import opened XmlOrder
  import opened XmlImport

  // ----- What a file asks for -----

  /** The i-th node brings this edge with it: half of its parent link, or its type link if the type is there by then. */
  predicate BringsLink(space: Space, nodes: seq<NodeData>, indices: map<nat, nat>, i: nat, e: Edge)
    requires i < |nodes|
  {
    var item := ItemOf(nodes[i], indices);
    || IsParentLink(e, item.requested, item)
    || (&& item.typeDefinition != NULL_ID && e == TypeLink(item)
        && item.typeDefinition in space.nodes.Keys + NewIds(nodes[..i + 1], indices)
        && !IsParentLink(Opposite(e), item.requested, item))
  }

  /** There before, or brought by one of the first k nodes. */
  predicate BaseEdge(space: Space, nodes: seq<NodeData>, indices: map<nat, nat>, k: nat, e: Edge)
    requires k <= |nodes|
  {
    HasEdge(space, e) || exists i | 0 <= i < k :: BringsLink(space, nodes, indices, i, e)
  }

  /** One of the first k nodes asks for this reference. */
  predicate Asked(nodes: seq<NodeData>, indices: map<nat, nat>, k: nat, r: ReferenceItem)
    requires k <= |nodes|
  {
    exists i | 0 <= i < k :: r in RefsOf(nodes[i], indices)
  }

  // ----- Trying references -----

  ghost predicate Tried(space: Space, refs: seq<ReferenceItem>, after: Space, failed: seq<ReferenceItem>) {
    && Consistent(after) && after.nodes.Keys == space.nodes.Keys
    && (forall e | HasEdge(space, e) :: HasEdge(after, e))
    && (forall e | HasEdge(after, e) :: HasEdge(space, e) || exists r :: r in refs && EdgeOf(r) == e)
    && (forall r | r in refs :: HasEdge(after, EdgeOf(r)) || r in failed)
    && (forall r | r in failed :: r in refs)
  }

  lemma TryOne(space: Space, r: ReferenceItem)
    requires Consistent(space)
    ensures Tried(space, [r], AddReference(space, r, true).0, Left(space, r))
  {
    AddReferenceKeeps(space, r, true);
    if r.source in space.nodes && r.target in space.nodes {
      AddReferenceEdges(space, r);
    }
    hide Consistent, HasEdge;
    assert forall q :: q in [r] <==> q == r;
  }

  lemma TriedCons(space: Space, r: ReferenceItem, next: Space, left: seq<ReferenceItem>, refs: seq<ReferenceItem>,
                  after: Space, failed: seq<ReferenceItem>)
    requires Tried(space, [r], next, left) && Tried(next, refs, after, failed)
    ensures Tried(space, [r] + refs, after, left + failed)
  {
    hide Consistent, HasEdge;
  }

  lemma {:induction false} TryAll(space: Space, refs: seq<ReferenceItem>)
    requires Consistent(space)
    ensures Tried(space, refs, AttemptAll(space, refs).0, AttemptAll(space, refs).1)
    decreases |refs|
  {
    if refs == [] {
      NothingToAttempt(space);
    } else {
      TryOne(space, refs[0]);
      AttemptCons(space, refs);
      var next := AddReference(space, refs[0], true).0;
      assert Consistent(next);
      hide AddReference, AttemptAll, Consistent, Tried, Left;
      TryAll(next, refs[1..]);
      assert refs == [refs[0]] + refs[1..];
      TriedCons(space, refs[0], next, Left(space, refs[0]), refs[1..], AttemptAll(next, refs[1..]).0,
                AttemptAll(next, refs[1..]).1);
    }
  }

  /** Every reference is accepted when its ends are there and its opposite is neither there nor asked for. */
  lemma {:induction false} AllAccepted(space: Space, refs: seq<ReferenceItem>)
    requires Consistent(space)
    requires forall r | r in refs ::
             r.source in space.nodes && r.target in space.nodes && !HasEdge(space, Opposite(EdgeOf(r)))
    requires forall r, q | r in refs && q in refs :: EdgeOf(q) != Opposite(EdgeOf(r))
    ensures AttemptAll(space, refs).1 == []
    decreases |refs|
  {
    if refs == [] {
      NothingToAttempt(space);
    } else {
      var r := refs[0];
      AddReferenceEdges(space, r);
      AddReferenceKeeps(space, r, true);
      AttemptCons(space, refs);
      var next := AddReference(space, r, true).0;
      hide AddReference, AttemptAll, Consistent, HasEdge;
      assert r in refs && forall q | q in refs[1..] :: q in refs;
      AllAccepted(next, refs[1..]);
    }
  }

  // ----- The invariant of the import -----

  ghost predicate Progress(space: Space, nodes: seq<NodeData>, indices: map<nat, nat>, k: nat, l: Loader)
    requires k <= |nodes|
  {
    && Consistent(l.space) && l.space.nodes.Keys == space.nodes.Keys + NewIds(nodes[..k], indices)
    && (forall e | BaseEdge(space, nodes, indices, k, e) :: HasEdge(l.space, e))
    && (forall e | HasEdge(l.space, e) :: BaseEdge(space, nodes, indices, k, e) || exists r ::
        Asked(nodes, indices, k, r) && EdgeOf(r) == e)
    && (forall r | Asked(nodes, indices, k, r) :: HasEdge(l.space, EdgeOf(r)) || r in l.postponed)
    && (forall r | r in l.postponed :: Asked(nodes, indices, k, r))
  }

  lemma BaseStep(space: Space, nodes: seq<NodeData>, indices: map<nat, nat>, k: nat, e: Edge)
    requires k < |nodes|
    ensures BaseEdge(space, nodes, indices, k + 1, e) <==>
              BaseEdge(space, nodes, indices, k, e) || BringsLink(space, nodes, indices, k, e)
  {
    hide BringsLink, HasEdge;
  }

  lemma AskedStep(nodes: seq<NodeData>, indices: map<nat, nat>, k: nat, r: ReferenceItem)
    requires k < |nodes|
    ensures Asked(nodes, indices, k + 1, r) <==> Asked(nodes, indices, k, r) || r in RefsOf(nodes[k], indices)
  {
    hide RefsOf;
  }

  /** The k-th node is added: its links and nothing else. */
  lemma NodeStep(space: Space, nodes: seq<NodeData>, indices: map<nat, nat>, k: nat, l: Loader) returns (added: Space)
    requires k < |nodes| && !nodes[k].nodeId.identifier.IsNull()
    requires Consistent(l.space) && l.space.nodes.Keys == space.nodes.Keys + NewIds(nodes[..k], indices)
    requires AddNodeData(l, nodes[k], indices).Some?
    ensures Consistent(added) && added.nodes.Keys == space.nodes.Keys + NewIds(nodes[..k + 1], indices)
    ensures forall e :: HasEdge(added, e) <==> HasEdge(l.space, e) || BringsLink(space, nodes, indices, k, e)
    ensures var (after, failed) := AttemptAll(added, RefsOf(nodes[k], indices));
            AddNodeData(l, nodes[k], indices) == Some(Loader(after, l.postponed + failed))
  {
    var item := ItemOf(nodes[k], indices);
    hide AttemptAll, Consistent, HasEdge, NewIds, LinkNode, AddNodeData, IsParentLink;
    added := AddedIs(l, nodes[k], indices);
    LinkNodeKeeps(l.space, item.requested, item);
    LinkNodeEdges(l.space, item.requested, item);
    OneMoreId(nodes, indices, k);
    hide IsTypeLink, BringsLink;
    forall e
      ensures HasEdge(added, e) <==> HasEdge(l.space, e) || BringsLink(space, nodes, indices, k, e)
    {
      LinkIs(space, nodes, indices, k, l.space, e);
    }
  }

  lemma LinkIs(space: Space, nodes: seq<NodeData>, indices: map<nat, nat>, k: nat, now: Space, e: Edge)
    requires k < |nodes| && now.nodes.Keys == space.nodes.Keys + NewIds(nodes[..k], indices)
    ensures var item := ItemOf(nodes[k], indices);
            BringsLink(space, nodes, indices, k, e) <==>
              IsParentLink(e, item.requested, item) || IsTypeLink(now, e, item.requested, item)
  {
    hide NewIds, IsParentLink;
    OneMoreId(nodes, indices, k);
    var item := ItemOf(nodes[k], indices);
    assert item.typeDefinition in now.nodes <==> item.typeDefinition in now.nodes.Keys;
  }

  lemma AddedIs(l: Loader, nd: NodeData, indices: map<nat, nat>) returns (added: Space)
    requires !nd.nodeId.identifier.IsNull() && AddNodeData(l, nd, indices).Some?
    ensures var item := ItemOf(nd, indices);
            && item.requested !in l.space.nodes && (item.parent.IsNull() || item.parent in l.space.nodes)
            && added == LinkNode(l.space, item.requested, item)
    ensures var (after, failed) := AttemptAll(added, RefsOf(nd, indices));
            AddNodeData(l, nd, indices) == Some(Loader(after, l.postponed + failed))
  {
    hide AttemptAll, LinkNode;
    added := AddNode(l.space, ItemOf(nd, indices), true).0;
  }

  lemma ProgressStep(space: Space, nodes: seq<NodeData>, indices: map<nat, nat>, k: nat, l: Loader, added: Space,
                     after: Space, failed: seq<ReferenceItem>)
    requires k < |nodes| && Progress(space, nodes, indices, k, l)
    requires added.nodes.Keys == space.nodes.Keys + NewIds(nodes[..k + 1], indices)
    requires forall e :: HasEdge(added, e) <==> HasEdge(l.space, e) || BringsLink(space, nodes, indices, k, e)
    requires Tried(added, RefsOf(nodes[k], indices), after, failed)
    ensures Progress(space, nodes, indices, k + 1, Loader(after, l.postponed + failed))
  {
    hide HasEdge, Consistent, BringsLink, BaseEdge, Asked, NewIds, RefsOf;
    forall e
      ensures BaseEdge(space, nodes, indices, k + 1, e) <==>
              BaseEdge(space, nodes, indices, k, e) || BringsLink(space, nodes, indices, k, e)
    {
      BaseStep(space, nodes, indices, k, e);
    }
    forall r
      ensures Asked(nodes, indices, k + 1, r) <==> Asked(nodes, indices, k, r) || r in RefsOf(nodes[k], indices)
    {
      AskedStep(nodes, indices, k, r);
    }
  }

  lemma {:induction false} ImportProgress(space: Space, nodes: seq<NodeData>, indices: map<nat, nat>, k: nat)
    requires Consistent(space) && ProperIds(nodes) && k <= |nodes|
    requires ImportNodes(space, nodes[..k], indices).Some?
    ensures Progress(space, nodes, indices, k, ImportNodes(space, nodes[..k], indices).value)
    decreases k
  {
    if k == 0 {
      NoIds(nodes[..0], indices);
    } else {
      assert nodes[k - 1] in nodes;
      ImportStep(space, nodes, indices, k - 1);
      hide ImportNodes, AddNodeData, Consistent, Progress;
      ImportProgress(space, nodes, indices, k - 1);
      var before := ImportNodes(space, nodes[..k - 1], indices).value;
      assert Consistent(before.space)
             && before.space.nodes.Keys == space.nodes.Keys + NewIds(nodes[..k - 1], indices) by {
        ProgressKeys(space, nodes, indices, k - 1, before);
      }
      var added := NodeStep(space, nodes, indices, k - 1, before);
      var refs := RefsOf(nodes[k - 1], indices);
      TryAll(added, refs);
      ProgressStep(space, nodes, indices, k - 1, before, added, AttemptAll(added, refs).0, AttemptAll(added, refs).1);
    }
  }

  lemma ProgressKeys(space: Space, nodes: seq<NodeData>, indices: map<nat, nat>, k: nat, l: Loader)
    requires k <= |nodes| && Progress(space, nodes, indices, k, l)
    ensures Consistent(l.space) && l.space.nodes.Keys == space.nodes.Keys + NewIds(nodes[..k], indices)
  {
  }

  // ----- The end of the import -----

  /** The target is known in the end, and the opposite of the reference is neither there nor asked for. */
  ghost predicate Acceptable(space: Space, nodes: seq<NodeData>, indices: map<nat, nat>, r: ReferenceItem) {
    && r.target in space.nodes.Keys + NewIds(nodes, indices)
    && !BaseEdge(space, nodes, indices, |nodes|, Opposite(EdgeOf(r)))
    && !AskedAsEdge(nodes, indices, Opposite(EdgeOf(r)))
  }

  ghost predicate AskedAsEdge(nodes: seq<NodeData>, indices: map<nat, nat>, e: Edge) {
    exists q :: Asked(nodes, indices, |nodes|, q) && EdgeOf(q) == e
  }

  /** References that are all in a consistent graph have their targets there, and no opposites. */
  lemma NoOpposites(space: Space, e: Edge)
    requires Consistent(space) && HasEdge(space, e)
    ensures e.target in space.nodes && !HasEdge(space, Opposite(e))
  {
  }

  lemma {:induction false} RefsHaveSource(source: NodeId, refs: seq<RefData>, indices: map<nat, nat>, r: ReferenceItem)
    requires r in RefItems(source, refs, indices)
    ensures r.source == source
  {
    if r in RefItems(source, refs[1..], indices) {
      RefsHaveSource(source, refs[1..], indices, r);
    }
  }

  lemma AskedFromNewNode(nodes: seq<NodeData>, indices: map<nat, nat>, r: ReferenceItem)
    requires Asked(nodes, indices, |nodes|, r)
    ensures r.source in NewIds(nodes, indices)
  {
    var i :| 0 <= i < |nodes| && r in RefsOf(nodes[i], indices);
    RefsHaveSource(Migrate(indices, nodes[i].nodeId), nodes[i].refs, indices, r);
    assert nodes[i] in nodes;
  }

  /**
   Once the nodes are in, the import succeeds if and only if every reference of the file has its target
   on the server or in the file, and no reference of the file has its opposite there, brought by a node
   or asked for as well. The graph then holds exactly what was there, what the nodes bring and what the
   file asks for.
   */
  lemma ImportExactly(space: Space, nodes: seq<NodeData>, indices: map<nat, nat>)
    requires Consistent(space) && ProperIds(nodes) && ImportNodes(space, nodes, indices).Some?
    ensures var r := Import(space, nodes, indices);
            && (r.Some? <==> forall q | Asked(nodes, indices, |nodes|, q) :: Acceptable(space, nodes, indices, q))
            && (r.Some? ==>
                  && Consistent(r.value) && r.value.nodes.Keys == space.nodes.Keys + NewIds(nodes, indices)
                  && forall e :: HasEdge(r.value, e) <==>
                     BaseEdge(space, nodes, indices, |nodes|, e) || AskedAsEdge(nodes, indices, e))
  {
    assert nodes[..|nodes|] == nodes;
    ImportProgress(space, nodes, indices, |nodes|);
    var l := ImportNodes(space, nodes, indices).value;
    TryAll(l.space, l.postponed);
    var (after, remaining) := AttemptAll(l.space, l.postponed);
    hide ImportNodes, HasEdge, Consistent, BaseEdge, Asked, NewIds, AttemptAll;
    if remaining == [] {
      AllIn(space, nodes, indices, l, after);
    }
    if forall q | Asked(nodes, indices, |nodes|, q) :: Acceptable(space, nodes, indices, q) {
      RetryAccepted(space, nodes, indices, l);
    }
  }

  lemma AllIn(space: Space, nodes: seq<NodeData>, indices: map<nat, nat>, l: Loader, after: Space)
    requires Progress(space, nodes, indices, |nodes|, l) && Tried(l.space, l.postponed, after, [])
             && nodes[..|nodes|] == nodes
    ensures forall q | Asked(nodes, indices, |nodes|, q) :: Acceptable(space, nodes, indices, q)
    ensures Consistent(after) && after.nodes.Keys == space.nodes.Keys + NewIds(nodes, indices)
    ensures forall e :: HasEdge(after, e) <==>
            BaseEdge(space, nodes, indices, |nodes|, e) || AskedAsEdge(nodes, indices, e)
  {
    hide HasEdge, Consistent, BaseEdge, Asked, NewIds;
    forall q | Asked(nodes, indices, |nodes|, q)
      ensures HasEdge(after, EdgeOf(q))
    {
    }
    forall q | Asked(nodes, indices, |nodes|, q)
      ensures Acceptable(space, nodes, indices, q)
    {
      NoOpposites(after, EdgeOf(q));
    }
  }

  lemma RetryAccepted(space: Space, nodes: seq<NodeData>, indices: map<nat, nat>, l: Loader)
    requires Progress(space, nodes, indices, |nodes|, l) && nodes[..|nodes|] == nodes
    requires forall q | Asked(nodes, indices, |nodes|, q) :: Acceptable(space, nodes, indices, q)
    ensures AttemptAll(l.space, l.postponed).1 == []
  {
    hide HasEdge, Consistent, BaseEdge, Asked, NewIds, AttemptAll;
    forall r | r in l.postponed
      ensures r.source in l.space.nodes && r.target in l.space.nodes && !HasEdge(l.space, Opposite(EdgeOf(r)))
    {
      AskedFromNewNode(nodes, indices, r);
      assert r.source in l.space.nodes.Keys && r.target in l.space.nodes.Keys;
    }
    AllAccepted(l.space, l.postponed);
  }

  // ----- The same in the file's own terms -----

  /** A namespace index of the file becomes the server's; one that the file does not map stays. */
  function Mapped(indices: map<nat, nat>, id: NodeId): NodeId {
    NodeId(if id.namespaceIndex in indices then indices[id.namespaceIndex] else id.namespaceIndex, id.identifier)
  }

  /** The edge that a reference element asks for: its type is not mapped, its target is. */
  function EdgeFor(nd: NodeData, indices: map<nat, nat>, d: RefData): Edge {
    Edge(Mapped(indices, nd.nodeId), d.refType, Mapped(indices, d.target), d.isForward)
  }

  /** Both a parent and the link to it are given. */
  predicate HasParent(nd: NodeData, indices: map<nat, nat>) {
    nd.parent.Some? && nd.parentLink.Some? && !Mapped(indices, nd.parent.value).IsNull()
  }

  predicate ParentEdge(nd: NodeData, indices: map<nat, nat>, e: Edge) {
    HasParent(nd, indices) &&
    var (id, parent) := (Mapped(indices, nd.nodeId), Mapped(indices, nd.parent.value));
    var link := Mapped(indices, nd.parentLink.value);
    e == Edge(parent, link, id, true) || e == Edge(id, link, parent, false)
  }

  predicate InFile(nodes: seq<NodeData>, indices: map<nat, nat>, id: NodeId) {
    exists nd :: nd in nodes && Mapped(indices, nd.nodeId) == id
  }

  /**
   A type link (reference type 40) to a type that the server or the file has by then, unless it opposes the
   parent link.
   */
  predicate TypeEdge(space: Space, nodes: seq<NodeData>, indices: map<nat, nat>, i: nat, e: Edge)
    requires i < |nodes|
  {
    var nd := nodes[i];
    nd.typeDefinition.Some? &&
    var t := Mapped(indices, nd.typeDefinition.value);
    && t != NodeId(0, Numeric(0)) && e == Edge(Mapped(indices, nd.nodeId), NodeId(0, Numeric(40)), t, true)
    && (t in space.nodes || InFile(nodes[..i + 1], indices, t))
    && !ParentEdge(nd, indices, e.(isForward := false))
  }

  /** There before, or a link of one of the nodes. */
  predicate GivenEdge(space: Space, nodes: seq<NodeData>, indices: map<nat, nat>, e: Edge) {
    HasEdge(space, e)
    || exists i | 0 <= i < |nodes| :: ParentEdge(nodes[i], indices, e) || TypeEdge(space, nodes, indices, i, e)
  }

  predicate IsReference(nodes: seq<NodeData>, indices: map<nat, nat>, i: nat, d: RefData) {
    i < |nodes| && d in nodes[i].refs
  }

  /** Some reference element of the file asks for it. */
  ghost predicate FileEdge(nodes: seq<NodeData>, indices: map<nat, nat>, e: Edge) {
    exists i: nat, d :: IsReference(nodes, indices, i, d) && e == EdgeFor(nodes[i], indices, d)
  }

  ghost predicate CanBeAdded(space: Space, nodes: seq<NodeData>, indices: map<nat, nat>, e: Edge) {
    var back := e.(isForward := !e.isForward);
    && (e.target in space.nodes || InFile(nodes, indices, e.target))
    && !GivenEdge(space, nodes, indices, back) && !FileEdge(nodes, indices, back)
  }

  // ----- Both say the same -----

  lemma MigrateIsMapped(indices: map<nat, nat>, id: NodeId)
    ensures Migrate(indices, id) == Mapped(indices, id)
  {
  }

  /** The node that is asked for, field by field. */
  lemma ItemIs(nd: NodeData, indices: map<nat, nat>)
    ensures var (item, linked) := (ItemOf(nd, indices), nd.parent.Some? && nd.parentLink.Some?);
            && item.requested == Mapped(indices, nd.nodeId) && item.nodeClass == nd.nodeClass
            && item.parent == (if linked then Mapped(indices, nd.parent.value) else NodeId(0, Numeric(0)))
            && item.refType == (if linked then Mapped(indices, nd.parentLink.value) else NodeId(0, Numeric(0)))
            && item.typeDefinition == (if nd.typeDefinition.Some? then Mapped(indices, nd.typeDefinition.value)
                                       else NodeId(0, Numeric(0)))
  {
  }

  lemma ParentIs(nd: NodeData, indices: map<nat, nat>, e: Edge)
    ensures ParentEdge(nd, indices, e) <==> IsParentLink(e, Mapped(indices, nd.nodeId), ItemOf(nd, indices))
  {
    ItemIs(nd, indices);
    hide ItemOf;
  }

  lemma InFileIs(nodes: seq<NodeData>, indices: map<nat, nat>, id: NodeId)
    ensures InFile(nodes, indices, id) <==> id in NewIds(nodes, indices)
  {
  }

  lemma BringsIs(space: Space, nodes: seq<NodeData>, indices: map<nat, nat>, i: nat, e: Edge)
    requires i < |nodes|
    ensures BringsLink(space, nodes, indices, i, e) <==>
              ParentEdge(nodes[i], indices, e) || TypeEdge(space, nodes, indices, i, e)
  {
    hide ItemOf, Mapped, InFile, NewIds, ParentEdge, IsParentLink;
    ItemIs(nodes[i], indices);
    ParentIs(nodes[i], indices, e);
    ParentIs(nodes[i], indices, Opposite(e));
    InFileIs(nodes[..i + 1], indices, ItemOf(nodes[i], indices).typeDefinition);
  }

  lemma GivenIs(space: Space, nodes: seq<NodeData>, indices: map<nat, nat>, e: Edge)
    ensures BaseEdge(space, nodes, indices, |nodes|, e) <==> GivenEdge(space, nodes, indices, e)
  {
    hide BringsLink, ParentEdge, TypeEdge, HasEdge;
    forall i | 0 <= i < |nodes|
      ensures BringsLink(space, nodes, indices, i, e) <==>
                ParentEdge(nodes[i], indices, e) || TypeEdge(space, nodes, indices, i, e)
    {
      BringsIs(space, nodes, indices, i, e);
    }
  }

  /** The requests for references, one for each element, all with the class DataType. */
  lemma {:induction false} RefItemsAre(source: NodeId, refs: seq<RefData>, indices: map<nat, nat>)
    ensures var items := RefItems(source, refs, indices);
            |items| == |refs| && forall k | 0 <= k < |refs| ::
              items[k] == ReferenceItem(source, refs[k].refType, Mapped(indices, refs[k].target), refs[k].isForward, 64)
  {
    hide Mapped, Migrate;
    if refs != [] {
      RefItemsAre(source, refs[1..], indices);
      MigrateIsMapped(indices, refs[0].target);
    }
  }

  lemma AsksForEdge(nodes: seq<NodeData>, indices: map<nat, nat>, i: nat, d: RefData)
    requires IsReference(nodes, indices, i, d)
    ensures exists q :: Asked(nodes, indices, |nodes|, q) && EdgeOf(q) == EdgeFor(nodes[i], indices, d)
  {
    var nd := nodes[i];
    RefItemsAre(Mapped(indices, nd.nodeId), nd.refs, indices);
    MigrateIsMapped(indices, nd.nodeId);
    hide Mapped, Migrate, RefItems;
    var k :| 0 <= k < |nd.refs| && nd.refs[k] == d;
    var q := RefsOf(nd, indices)[k];
    assert Asked(nodes, indices, |nodes|, q) && EdgeOf(q) == EdgeFor(nd, indices, d);
  }

  lemma AskedByElement(nodes: seq<NodeData>, indices: map<nat, nat>, q: ReferenceItem) returns (i: nat, d: RefData)
    requires Asked(nodes, indices, |nodes|, q)
    ensures IsReference(nodes, indices, i, d) && EdgeOf(q) == EdgeFor(nodes[i], indices, d)
  {
    i :| 0 <= i < |nodes| && q in RefsOf(nodes[i], indices);
    var nd := nodes[i];
    RefItemsAre(Mapped(indices, nd.nodeId), nd.refs, indices);
    MigrateIsMapped(indices, nd.nodeId);
    hide Mapped, Migrate, RefItems;
    var k :| 0 <= k < |RefsOf(nd, indices)| && RefsOf(nd, indices)[k] == q;
    d := nd.refs[k];
  }

  lemma FileEdgeIs(nodes: seq<NodeData>, indices: map<nat, nat>, e: Edge)
    ensures AskedAsEdge(nodes, indices, e) <==> FileEdge(nodes, indices, e)
  {
    hide Asked, EdgeFor;
    if AskedAsEdge(nodes, indices, e) {
      var q :| Asked(nodes, indices, |nodes|, q) && EdgeOf(q) == e;
      var i, d := AskedByElement(nodes, indices, q);
    }
    if FileEdge(nodes, indices, e) {
      var i: nat, d :| IsReference(nodes, indices, i, d) && e == EdgeFor(nodes[i], indices, d);
      AsksForEdge(nodes, indices, i, d);
    }
  }

  lemma AcceptableIs(space: Space, nodes: seq<NodeData>, indices: map<nat, nat>, q: ReferenceItem)
    ensures Acceptable(space, nodes, indices, q) <==> CanBeAdded(space, nodes, indices, EdgeOf(q))
  {
    hide BaseEdge, GivenEdge, AskedAsEdge, FileEdge, NewIds, InFile;
    InFileIs(nodes, indices, q.target);
    GivenIs(space, nodes, indices, Opposite(EdgeOf(q)));
    FileEdgeIs(nodes, indices, Opposite(EdgeOf(q)));
  }

  /**
   Once the nodes are in, the import succeeds if and only if every reference element of the file has its
   mapped target on the server or in the file, and the opposite edge is neither there, nor a link of a
   node, nor asked for. The graph then holds exactly what was there, the links of the nodes and the
   edges that the elements ask for, in their own direction.
   */
  lemma FileImportsExactly(space: Space, nodes: seq<NodeData>, indices: map<nat, nat>)
    requires Consistent(space) && ProperIds(nodes) && ImportNodes(space, nodes, indices).Some?
    ensures var r := Import(space, nodes, indices);
            && (r.Some? <==> forall i: nat, d | IsReference(nodes, indices, i, d) ::
                  CanBeAdded(space, nodes, indices, EdgeFor(nodes[i], indices, d)))
            && (r.Some? ==>
                  && (forall id :: id in r.value.nodes <==> id in space.nodes || InFile(nodes, indices, id))
                  && forall e :: HasEdge(r.value, e) <==>
                       GivenEdge(space, nodes, indices, e) || FileEdge(nodes, indices, e))
  {
    hide Import, ImportNodes, Asked, Acceptable, CanBeAdded, BaseEdge, GivenEdge, AskedAsEdge, FileEdge, NewIds, InFile;
    hide EdgeFor, HasEdge, Consistent, ProperIds;
    ImportExactly(space, nodes, indices);
    forall e
      ensures BaseEdge(space, nodes, indices, |nodes|, e) <==> GivenEdge(space, nodes, indices, e)
      ensures AskedAsEdge(nodes, indices, e) <==> FileEdge(nodes, indices, e)
    {
      GivenIs(space, nodes, indices, e);
      FileEdgeIs(nodes, indices, e);
    }
    forall id
      ensures InFile(nodes, indices, id) <==> id in NewIds(nodes, indices)
    {
      InFileIs(nodes, indices, id);
    }
    SameConditions(space, nodes, indices);
  }

  lemma SameConditions(space: Space, nodes: seq<NodeData>, indices: map<nat, nat>)
    ensures (forall q | Asked(nodes, indices, |nodes|, q) :: Acceptable(space, nodes, indices, q)) <==>
            forall i: nat, d | IsReference(nodes, indices, i, d) ::
              CanBeAdded(space, nodes, indices, EdgeFor(nodes[i], indices, d))
  {
    hide Asked, Acceptable, CanBeAdded, EdgeFor;
    if forall q | Asked(nodes, indices, |nodes|, q) :: Acceptable(space, nodes, indices, q) {
      forall i: nat, d | IsReference(nodes, indices, i, d)
        ensures CanBeAdded(space, nodes, indices, EdgeFor(nodes[i], indices, d))
      {
        AsksForEdge(nodes, indices, i, d);
        var q :| Asked(nodes, indices, |nodes|, q) && EdgeOf(q) == EdgeFor(nodes[i], indices, d);
        AcceptableIs(space, nodes, indices, q);
      }
    }
    if forall i: nat, d | IsReference(nodes, indices, i, d) ::
       CanBeAdded(space, nodes, indices, EdgeFor(nodes[i], indices, d)) {
      forall q | Asked(nodes, indices, |nodes|, q)
        ensures Acceptable(space, nodes, indices, q)
      {
        var i, d := AskedByElement(nodes, indices, q);
        AcceptableIs(space, nodes, indices, q);
      }
    }
  }
}
