/** What one call does to the reference lists: which entries come, which go, and with what status. */
module References {
  import opened Wrappers
  import opened NodeIds
  import opened AddressSpace

  /** Everything but one node's list is as it was. */
  predicate OnlyList(space: Space, after: Space, n: NodeId) {
    n in space.nodes && n in after.nodes &&
    after == space.(nodes := space.nodes[n := space.nodes[n].(references := after.nodes[n].references)])
  }

  // ----- Adding -----

  /** The type and target are listed already, in either direction. */
  predicate Listed(refs: seq<Reference>, refType: NodeId, target: NodeId) {
    exists r :: r in refs && r.refType == refType && r.target == target
  }

  /** The first entry for the pair decides; without one the reference is appended with its class. */
  lemma AddedReference(space: Space, item: ReferenceItem)
    requires item.source in space.nodes && item.target in space.nodes
    ensures var (after, status) := AddReference(space, item, true);
            var refs := space.nodes[item.source].references;
            if Listed(refs, item.refType, item.target) then after == space
            else
              && status == Good && OnlyList(space, after, item.source)
              && after.nodes[item.source].references ==
                 refs + [Reference(item.refType, item.target, item.isForward, item.targetClass)]
  {
    var refs := space.nodes[item.source].references;
    var i := Find(refs, item.refType, item.target);
    if i.Some? {
      assert refs[i.value] in refs;
      assert space.nodes[item.source := space.nodes[item.source].(references := refs)] == space.nodes;
    }
  }

  /** The checks come in this order, and a request that fails one changes nothing. */
  lemma RefusedReference(space: Space, item: ReferenceItem, admin: bool)
    requires item.source !in space.nodes || item.target !in space.nodes || !admin
    ensures AddReference(space, item, admin) ==
            (space, if item.source !in space.nodes then BadSourceNodeIdInvalid
                    else if item.target !in space.nodes then BadTargetNodeIdInvalid
                    else BadUserAccessDenied)
  {
  }

  // ----- Deleting -----

  lemma HoldsIsMember(refs: seq<Reference>, refType: NodeId, target: NodeId, isForward: bool)
    ensures Holds(refs, refType, target, isForward) <==>
              exists r :: r in refs && r.refType == refType && r.target == target && r.isForward == isForward
  {
    if r :| r in refs && r.refType == refType && r.target == target && r.isForward == isForward {
      var i :| 0 <= i < |refs| && refs[i] == r;
      assert Same(refs[i], refType, target);
    }
  }

  lemma DeleteUniqueHolds(refs: seq<Reference>, refType: NodeId, target: NodeId, isForward: bool)
    requires Unique(refs)
    ensures var (after, status) := DeleteUnique(refs, refType, target, isForward);
            && (status == Good <==> Holds(refs, refType, target, isForward))
            && status in {Good, BadNotFound} && (status != Good ==> after == refs)
            && forall t, g, f :: Holds(after, t, g, f) <==>
                 Holds(refs, t, g, f) && !(t == refType && g == target && f == isForward)
  {
    var (after, status) := DeleteUnique(refs, refType, target, isForward);
    DeleteUniqueKeeps(refs, refType, target, isForward);
    DeleteUniqueStatus(refs, refType, target, isForward);
    HoldsIsMember(refs, refType, target, isForward);
    hide DeleteUnique;
    forall t, g, f
      ensures Holds(after, t, g, f) <==> Holds(refs, t, g, f) && !(t == refType && g == target && f == isForward)
    {
      HoldsIsMember(after, t, g, f);
      HoldsIsMember(refs, t, g, f);
    }
  }

  lemma {:induction false} DeleteUniqueStatus(refs: seq<Reference>, refType: NodeId, target: NodeId, isForward: bool)
    ensures var (after, status) := DeleteUnique(refs, refType, target, isForward);
            status in {Good, BadNotFound} && (status != Good ==> after == refs)
  {
    if refs != [] {
      DeleteUniqueStatus(refs[1..], refType, target, isForward);
      assert refs == [refs[0]] + refs[1..];
    }
  }

  lemma DeleteOneEdges(space: Space, e: Edge)
    requires Consistent(space) && e.source in space.nodes
    ensures var (after, status) := DeleteOne(space, e.source, e.refType, e.target, e.isForward);
            && (status == if HasEdge(space, e) then Good else BadNotFound)
            && (status != Good ==> after == space)
            && Consistent(after) && after.nodes.Keys == space.nodes.Keys && after.counters == space.counters
            && forall g :: HasEdge(after, g) <==> HasEdge(space, g) && g != e
  {
    var refs := space.nodes[e.source].references;
    DeleteUniqueHolds(refs, e.refType, e.target, e.isForward);
    DeleteOneKeeps(space, e.source, e.refType, e.target, e.isForward);
    hide DeleteUnique, Holds, Consistent;
    var (after, status) := DeleteOne(space, e.source, e.refType, e.target, e.isForward);
    assert space.nodes[e.source := space.nodes[e.source].(references := refs)] == space.nodes;
    forall g
      ensures HasEdge(after, g) <==> HasEdge(space, g) && g != e
    {
      if g.source == e.source {
        assert after.nodes[g.source].references == DeleteUnique(refs, e.refType, e.target, e.isForward).0;
      }
    }
  }

  /**
   A deletion takes away the edge that was asked for and, if bidirectional, the opposite one at the target; no
   other edge goes and none comes. It is Good exactly when the edge that was asked for was there.
   */
  lemma DeleteReferenceEdges(space: Space, item: ReferenceItem, bidirectional: bool)
    requires Consistent(space) && item.source in space.nodes && item.target in space.nodes
             && item.refType in space.nodes
    ensures var (after, status) := DeleteReference(space, item, bidirectional, true);
            var asked := Edge(item.source, item.refType, item.target, item.isForward);
            var back := Edge(item.target, item.refType, item.source, !item.isForward);
            && (status == if HasEdge(space, asked) then Good else BadNotFound)
            && after.nodes.Keys == space.nodes.Keys && after.counters == space.counters
            && forall e :: HasEdge(after, e) <==> HasEdge(space, e) && e != asked && !(bidirectional && e == back)
  {
    hide DeleteOne, HasEdge, Consistent;
    var asked := Edge(item.source, item.refType, item.target, item.isForward);
    var back := Edge(item.target, item.refType, item.source, !item.isForward);
    var space1 := space;
    if bidirectional {
      DeleteOneEdges(space, back);
      space1 := DeleteOne(space, item.target, item.refType, item.source, !item.isForward).0;
    }
    DeleteOneEdges(space1, asked);
  }

  lemma RefusedDeletion(space: Space, item: ReferenceItem, bidirectional: bool, admin: bool)
    requires !(item.source in space.nodes && item.target in space.nodes && item.refType in space.nodes && admin)
    ensures DeleteReference(space, item, bidirectional, admin) ==
            (space, if item.source !in space.nodes then BadSourceNodeIdInvalid
                    else if item.target !in space.nodes then BadTargetNodeIdInvalid
                    else if item.refType !in space.nodes then BadReferenceTypeIdInvalid
                    else BadUserAccessDenied)
  {
  }

  // ----- Adding a node -----

  /** A refused node changes no node; the reason is the first of these that applies. */
  lemma NodeOutcome(space: Space, item: NodeItem, admin: bool, frames: nat)
    ensures var (after, status, id) := AddNodeWithin(space, item, admin, frames);
            var generates := item.requested.identifier.IsNull();
            && (status != Good ==> after.nodes == space.nodes && id == None)
            && (status == Good ==>
                  && id.Some? && id.value !in space.nodes
                  && after.nodes.Keys == space.nodes.Keys + {id.value})
            && (!generates ==>
                  && (status == Good ==> id == Some(item.requested))
                  && after.counters == space.counters)
            && (generates && status == Good ==>
                  var ns := item.requested.namespaceIndex;
                  && id == Some(NodeId(ns, Numeric(FreeNumber(space.nodes, ns, Counter(space, ns)))))
                  && after.counters == space.counters[ns := FreeNumber(space.nodes, ns, Counter(space, ns))])
            && status == (
                 if generates && FreeNumber(space.nodes, item.requested.namespaceIndex,
                                            Counter(space, item.requested.namespaceIndex)) >
                                 Counter(space, item.requested.namespaceIndex) + frames then Raised
                 else if !generates && item.requested in space.nodes then BadNodeIdExists
                 else if !item.parent.IsNull() && item.parent !in space.nodes then BadParentNodeIdInvalid
                 else if !admin then BadUserAccessDenied
                 else Good)
  {
    hide FreeNumber, Generate;
    GenerateExactly(space, item.requested.namespaceIndex, frames);
    var (space1, id) := ChooseId(space, item.requested);
    if id !in space1.nodes && (item.parent.IsNull() || item.parent in space1.nodes) {
      LinkNodeKeys(space1, id, item);
    }
    hide LinkNode;
  }

  lemma LinkNodeKeys(space: Space, id: NodeId, item: NodeItem)
    requires id !in space.nodes && (item.parent.IsNull() || item.parent in space.nodes)
    ensures LinkNode(space, id, item).nodes.Keys == space.nodes.Keys + {id}
    ensures LinkNode(space, id, item).counters == space.counters
  {
    hide AddUnique;
  }

  function ParentReference(space: Space, item: NodeItem): seq<Reference>
    requires item.parent.IsNull() || item.parent in space.nodes
  {
    if item.parent.IsNull() then []
    else [Reference(item.refType, item.parent, false, space.nodes[item.parent].nodeClass)]
  }

  /**
   The type link goes in under the class DataType, unless the type is missing or is the parent by the same
   reference.
   */
  function TypeReference(space: Space, id: NodeId, item: NodeItem): seq<Reference> {
    var t := item.typeDefinition;
    if t == NodeId(0, Numeric(0)) || (t !in space.nodes && t != id)
       || (!item.parent.IsNull() && item.parent == t && item.refType == NodeId(0, Numeric(40))) then []
    else [Reference(NodeId(0, Numeric(40)), t, true, 64)]
  }

  /**
   The new node lists its parent with the parent's class, then its type; the parent lists the new node last,
   with the new node's class; every other list is as it was.
   */
  lemma LinkNodeReferences(space: Space, id: NodeId, item: NodeItem)
    requires Consistent(space) && id !in space.nodes && (item.parent.IsNull() || item.parent in space.nodes)
    ensures var after := LinkNode(space, id, item);
            && after.nodes.Keys == space.nodes.Keys + {id} && after.counters == space.counters
            && after.nodes[id] == Node(item.nodeClass, ParentReference(space, item) + TypeReference(space, id, item))
            && (!item.parent.IsNull() ==>
                  after.nodes[item.parent] ==
                  Node(space.nodes[item.parent].nodeClass,
                       space.nodes[item.parent].references + [Reference(item.refType, id, true, item.nodeClass)]))
            && forall n | n in space.nodes && n != item.parent :: after.nodes[n] == space.nodes[n]
  {
    LinkNodeKeys(space, id, item);
    var space1 := space.(nodes := space.nodes[id := Node(item.nodeClass, [])]);
    var space2 := space1;
    hide AddReference;
    if !item.parent.IsNull() {
      assert forall r | r in space.nodes[item.parent].references :: r.target in space.nodes;
      var first := ReferenceItem(item.parent, item.refType, id, true, item.nodeClass);
      AddedReference(space1, first);
      var fromParent := AddReference(space1, first, true).0;
      var second := ReferenceItem(id, item.refType, item.parent, false, space.nodes[item.parent].nodeClass);
      AddedReference(fromParent, second);
      space2 := AddReference(fromParent, second, true).0;
    }
    assert space2.nodes[id].references == ParentReference(space, item);
    if item.typeDefinition != NULL_ID {
      var third := ReferenceItem(id, HAS_TYPE_DEFINITION, item.typeDefinition, true, DATA_TYPE_CLASS);
      if item.typeDefinition in space1.nodes {
        AddedReference(space2, third);
      } else {
        RefusedReference(space2, third, true);
      }
    }
  }
}
