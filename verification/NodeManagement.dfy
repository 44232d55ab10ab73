/** The objects whose steps AddressSpace describes, and the loader that postpones references. */
module NodeManagement {
  import opened Wrappers
  import opened NodeIds
  import opened AddressSpace

  class NodeManagementService {
    var nodes: map<NodeId, Node>
    var counters: map<nat, nat>

    function Model(): Space
      reads this
    {
      Space(nodes, counters)
    }

    constructor ()
      ensures Model() == EMPTY_SPACE
    {
      nodes, counters := map[], map[0 := 20000, 1 := 2000];
    }

    /** It calls itself until the number it has just counted is free; None where the interpreter stops it. */
    method GenerateNodeid(ns: nat, frames: nat) returns (id: Option<NodeId>)
      modifies this`counters
      ensures (Model(), id) == Generate(old(Model()), ns, frames)
      decreases frames
    {
      if frames == 0 {
        return None;
      }
      if ns in counters {
        counters := counters[ns := counters[ns] + 1];
      } else {
        counters := counters[ns := 1];
      }
      id := Some(NodeId(ns, Numeric(counters[ns])));
      if id.value in nodes {
        id := GenerateNodeid(ns, frames - 1);
      }
    }

    method AddUniqueReference(source: NodeId, r: Reference) returns (status: Status)
      requires source in nodes
      modifies this`nodes
      ensures var (refs, s) := AddUnique(old(nodes)[source].references, r);
              status == s && Model() == UpdateReferences(old(Model()), source, refs)
    {
      var refs := nodes[source].references;
      assert nodes == nodes[source := nodes[source].(references := refs)];
      for i := 0 to |refs|
        invariant nodes == old(nodes)
        invariant forall j | 0 <= j < i :: !Same(refs[j], r.refType, r.target)
      {
        if Same(refs[i], r.refType, r.target) {
          FindIs(refs, r.refType, r.target, i);
          return if refs[i].isForward != r.isForward then BadReferenceNotAllowed else Good;
        }
      }
      assert Find(refs, r.refType, r.target).None?;
      nodes := nodes[source := nodes[source].(references := refs + [r])];
      status := Good;
    }

    method AddReferenceItem(item: ReferenceItem, admin: bool) returns (status: Status)
      modifies this`nodes
      ensures (Model(), status) == AddReference(old(Model()), item, admin)
    {
      if item.source !in nodes {
        return BadSourceNodeIdInvalid;
      }
      if item.target !in nodes {
        return BadTargetNodeIdInvalid;
      }
      if !admin {
        return BadUserAccessDenied;
      }
      status := AddUniqueReference(item.source, Reference(item.refType, item.target, item.isForward, item.targetClass));
    }

    method AddNodeItem(item: NodeItem, admin: bool, frames: nat) returns (status: Status, added: Option<NodeId>)
      modifies this
      ensures (Model(), status, added) == AddNodeWithin(old(Model()), item, admin, frames)
    {
      var id := item.requested;
      GenerateExactly(Model(), item.requested.namespaceIndex, frames);
      if item.requested.identifier.IsNull() {
        var generated := GenerateNodeid(item.requested.namespaceIndex, frames);
        if generated.None? {
          return Raised, None;
        }
        id := generated.value;
      }
      if id in nodes {
        return BadNodeIdExists, None;
      }
      if !item.parent.IsNull() && item.parent !in nodes {
        return BadParentNodeIdInvalid, None;
      }
      if !admin {
        return BadUserAccessDenied, None;
      }
      nodes := nodes[id := Node(item.nodeClass, [])];
      if !item.parent.IsNull() {
        var _ := AddReferenceItem(ReferenceItem(item.parent, item.refType, id, true, item.nodeClass), true);
        var _ := AddReferenceItem(ReferenceItem(id, item.refType, item.parent, false, nodes[item.parent].nodeClass),
                                  true);
      }
      if item.typeDefinition != NULL_ID {
        var _ := AddReferenceItem(ReferenceItem(id, HAS_TYPE_DEFINITION, item.typeDefinition, true, DATA_TYPE_CLASS),
                                  true);
      }
      return Good, Some(id);
    }

    method DeleteUniqueReference(source: NodeId, refType: NodeId, target: NodeId, isForward: bool)
        returns (status: Status)
      requires source in nodes
      modifies this`nodes
      ensures (Model(), status) == DeleteOne(old(Model()), source, refType, target, isForward)
    {
      var refs := nodes[source].references;
      assert nodes == nodes[source := nodes[source].(references := refs)];
      for i := 0 to |refs|
        invariant nodes == old(nodes)
        invariant forall j | 0 <= j < i :: !(Same(refs[j], refType, target) && refs[j].isForward == isForward)
      {
        if Same(refs[i], refType, target) && refs[i].isForward == isForward {
          DeleteUniqueIs(refs, refType, target, isForward, i);
          nodes := nodes[source := nodes[source].(references := refs[..i] + refs[i + 1..])];
          return Good;
        }
      }
      DeleteUniqueIs(refs, refType, target, isForward, |refs|);
      status := BadNotFound;
    }

    method DeleteReferenceItem(item: ReferenceItem, bidirectional: bool, admin: bool) returns (status: Status)
      modifies this`nodes
      ensures (Model(), status) == DeleteReference(old(Model()), item, bidirectional, admin)
    {
      if item.source !in nodes {
        return BadSourceNodeIdInvalid;
      }
      if item.target !in nodes {
        return BadTargetNodeIdInvalid;
      }
      if item.refType !in nodes {
        return BadReferenceTypeIdInvalid;
      }
      if !admin {
        return BadUserAccessDenied;
      }
      if bidirectional {
        var _ := DeleteUniqueReference(item.target, item.refType, item.source, !item.isForward);
      }
      status := DeleteUniqueReference(item.source, item.refType, item.target, item.isForward);
    }
  }

  lemma {:induction false} FindIs(refs: seq<Reference>, refType: NodeId, target: NodeId, i: nat)
    requires i < |refs| && Same(refs[i], refType, target)
    requires forall j | 0 <= j < i :: !Same(refs[j], refType, target)
    ensures Find(refs, refType, target) == Some(i)
  {
    if i > 0 {
      FindIs(refs[1..], refType, target, i - 1);
    }
  }

  lemma {:induction false} DeleteUniqueIs(refs: seq<Reference>, refType: NodeId, target: NodeId, isForward: bool,
                                          i: nat)
    requires i <= |refs|
    requires forall j | 0 <= j < i :: !(Same(refs[j], refType, target) && refs[j].isForward == isForward)
    requires i < |refs| ==> Same(refs[i], refType, target) && refs[i].isForward == isForward
    ensures var (after, status) := DeleteUnique(refs, refType, target, isForward);
            if i < |refs| then after == refs[..i] + refs[i + 1..] && status == Good
            else after == refs && status == BadNotFound
  {
    if i > 0 {
      DeleteUniqueIs(refs[1..], refType, target, isForward, i - 1);
      if i < |refs| {
        assert [refs[0]] + (refs[1..][..i - 1] + refs[1..][i..]) == refs[..i] + refs[i + 1..];
      }
    }
  }

  /** try_add_references: the references that were not added, in order. */
  function AttemptAll(space: Space, refs: seq<ReferenceItem>): (Space, seq<ReferenceItem>)
    decreases |refs|
  {
    if refs == [] then (space, [])
    else
      var (next, status) := AddReference(space, refs[0], true);
      var (last, failed) := AttemptAll(next, refs[1..]);
      (last, (if status == Good then [] else [refs[0]]) + failed)
  }

  lemma AttemptOne(space: Space, r: ReferenceItem)
    ensures var (next, status) := AddReference(space, r, true);
            AttemptAll(space, [r]) == (next, if status == Good then [] else [r])
  {
    var (next, status) := AddReference(space, r, true);
    assert [r][1..] == [] && AttemptAll(next, []) == (next, []);
    var own := if status == Good then [] else [r];
    assert own + [] == own;
  }

  class PostponeReferences {
    const server: NodeManagementService
    var postponed: seq<ReferenceItem>

    constructor (server: NodeManagementService)
      ensures this.server == server && postponed == []
    {
      this.server, postponed := server, [];
    }

    method TryAddReferences(refs: seq<ReferenceItem>) returns (failed: seq<ReferenceItem>)
      modifies server
      ensures (server.Model(), failed) == AttemptAll(old(server.Model()), refs)
    {
      failed := [];
      var rest := refs;
      assert [] + AttemptAll(server.Model(), refs).1 == AttemptAll(server.Model(), refs).1;
      while rest != []
        invariant var (last, others) := AttemptAll(server.Model(), rest);
                  AttemptAll(old(server.Model()), refs) == (last, failed + others)
      {
        ghost var others := AttemptAll(AddReference(server.Model(), rest[0], true).0, rest[1..]).1;
        var status := server.AddReferenceItem(rest[0], true);
        assert failed + ([rest[0]] + others) == failed + [rest[0]] + others
               && failed + ([] + others) == failed + others;
        if status != Good {
          failed := failed + [rest[0]];
        }
        rest := rest[1..];
      }
      assert failed + [] == failed;
    }

    method AddReferences(refs: seq<ReferenceItem>)
      modifies this, server
      ensures var (space, failed) := AttemptAll(old(server.Model()), refs);
              server.Model() == space && postponed == old(postponed) + failed
    {
      var failed := TryAddReferences(refs);
      postponed := postponed + failed;
    }

    /** Leaving the block: what remains must be empty, which the loader asserts. */
    method Exit() returns (remaining: seq<ReferenceItem>)
      modifies this, server
      ensures (server.Model(), remaining) == AttemptAll(old(server.Model()), old(postponed))
    {
      remaining := TryAddReferences(postponed);
    }
  }
}
