/** The node graph of the address space: adding nodes and references, and generating ids. */
module AddressSpace {
  import opened Wrappers
  import opened NodeIds

  /** What a node's reference list holds; the names copied for display are not modelled. */
  datatype Reference = Reference(refType: NodeId, target: NodeId, isForward: bool, nodeClass: nat)

  datatype Node = Node(nodeClass: nat, references: seq<Reference>)

  datatype Space = Space(nodes: map<NodeId, Node>, counters: map<nat, nat>)

  datatype Status =
    | Good
    | BadNodeIdExists
    | BadParentNodeIdInvalid
    | BadUserAccessDenied
    | BadSourceNodeIdInvalid
    | BadTargetNodeIdInvalid
    | BadReferenceTypeIdInvalid
    | BadReferenceNotAllowed
    | BadNotFound
    | Raised   // RecursionError, from the generation of an id

  const NULL_ID: NodeId := NodeId(0, Numeric(0))
  const HAS_TYPE_DEFINITION: NodeId := NodeId(0, Numeric(40))
  const DATA_TYPE_CLASS: nat := 64

  datatype ReferenceItem = ReferenceItem(source: NodeId, refType: NodeId, target: NodeId, isForward: bool,
                                         targetClass: nat)

  datatype NodeItem = NodeItem(requested: NodeId, parent: NodeId, refType: NodeId, nodeClass: nat,
                               typeDefinition: NodeId)

  // ----- Reference lists -----

  predicate Same(r: Reference, refType: NodeId, target: NodeId) {
    r.refType == refType && r.target == target
  }

  /** The first reference with this type and target. */
  function Find(refs: seq<Reference>, refType: NodeId, target: NodeId): (i: Option<nat>)
    ensures i.Some? ==> i.value < |refs| && Same(refs[i.value], refType, target)
    ensures i.None? ==> forall r | r in refs :: !Same(r, refType, target)
  {
    if refs == [] then None
    else if Same(refs[0], refType, target) then Some(0)
    else
      var i := Find(refs[1..], refType, target);
      if i.None? then None else Some(i.value + 1)
  }

  function AddUnique(refs: seq<Reference>, r: Reference): (seq<Reference>, Status) {
    var i := Find(refs, r.refType, r.target);
    if i.None? then (refs + [r], Good)
    else if refs[i.value].isForward != r.isForward then (refs, BadReferenceNotAllowed)
    else (refs, Good)
  }

  /** The first reference with this type, target and direction goes. */
  function DeleteUnique(refs: seq<Reference>, refType: NodeId, target: NodeId, isForward: bool)
    : (seq<Reference>, Status) {
    if refs == [] then (refs, BadNotFound)
    else if Same(refs[0], refType, target) && refs[0].isForward == isForward then (refs[1..], Good)
    else
      var (rest, status) := DeleteUnique(refs[1..], refType, target, isForward);
      ([refs[0]] + rest, status)
  }

  // ----- Operations -----

  function UpdateReferences(space: Space, n: NodeId, refs: seq<Reference>): Space
    requires n in space.nodes
  {
    space.(nodes := space.nodes[n := space.nodes[n].(references := refs)])
  }

  function AddReference(space: Space, item: ReferenceItem, admin: bool): (Space, Status) {
    if item.source !in space.nodes then (space, BadSourceNodeIdInvalid)
    else if item.target !in space.nodes then (space, BadTargetNodeIdInvalid)
    else if !admin then (space, BadUserAccessDenied)
    else
      var (refs, status) := AddUnique(space.nodes[item.source].references,
                                      Reference(item.refType, item.target, item.isForward, item.targetClass));
      (UpdateReferences(space, item.source, refs), status)
  }

  function DeleteOne(space: Space, source: NodeId, refType: NodeId, target: NodeId, isForward: bool): (Space, Status)
    requires source in space.nodes
  {
    var (refs, status) := DeleteUnique(space.nodes[source].references, refType, target, isForward);
    (UpdateReferences(space, source, refs), status)
  }

  function DeleteReference(space: Space, item: ReferenceItem, bidirectional: bool, admin: bool): (Space, Status) {
    if item.source !in space.nodes then (space, BadSourceNodeIdInvalid)
    else if item.target !in space.nodes then (space, BadTargetNodeIdInvalid)
    else if item.refType !in space.nodes then (space, BadReferenceTypeIdInvalid)
    else if !admin then (space, BadUserAccessDenied)
    else
      var space1 := if bidirectional then DeleteOne(space, item.target, item.refType, item.source, !item.isForward).0
                    else space;
      DeleteOne(space1, item.source, item.refType, item.target, item.isForward)
  }

  /** Ids of one namespace above a number that are taken: as many tries as a search can still fail. */
  function TakenAbove(nodes: map<NodeId, Node>, ns: nat, c: nat): set<NodeId> {
    set n | n in nodes && n.namespaceIndex == ns && n.identifier.Numeric? && n.identifier.n > c
  }

  /** The first free number above c. */
  function FreeNumber(nodes: map<NodeId, Node>, ns: nat, c: nat): (n: nat)
    ensures n > c && NodeId(ns, Numeric(n)) !in nodes
    decreases |TakenAbove(nodes, ns, c)|
  {
    var id := NodeId(ns, Numeric(c + 1));
    if id !in nodes then c + 1
    else
      assert TakenAbove(nodes, ns, c + 1) == TakenAbove(nodes, ns, c) - {id} && id in TakenAbove(nodes, ns, c);
      FreeNumber(nodes, ns, c + 1)
  }

  function Counter(space: Space, ns: nat): nat {
    if ns in space.counters then space.counters[ns] else 0
  }

  function GenerateId(space: Space, ns: nat): (Space, NodeId) {
    var n := FreeNumber(space.nodes, ns, Counter(space, ns));
    (space.(counters := space.counters[ns := n]), NodeId(ns, Numeric(n)))
  }

  /** The id a new node gets: the requested one, or a generated one. */
  function ChooseId(space: Space, requested: NodeId): (Space, NodeId) {
    if requested.identifier.IsNull() then GenerateId(space, requested.namespaceIndex) else (space, requested)
  }

  /** The node enters the space without references; then the links with its parent and its type. */
  function LinkNode(space: Space, id: NodeId, item: NodeItem): Space
    requires id !in space.nodes && (item.parent.IsNull() || item.parent in space.nodes)
  {
    var space1 := space.(nodes := space.nodes[id := Node(item.nodeClass, [])]);
    var space2 :=
      if item.parent.IsNull() then space1
      else
        var fromParent := AddReference(space1, ReferenceItem(item.parent, item.refType, id, true, item.nodeClass),
                                       true).0;
        AddReference(fromParent,
                     ReferenceItem(id, item.refType, item.parent, false, space.nodes[item.parent].nodeClass), true).0;
    if item.typeDefinition == NULL_ID then space2
    else AddReference(space2, ReferenceItem(id, HAS_TYPE_DEFINITION, item.typeDefinition, true, DATA_TYPE_CLASS),
                      true).0
  }

  function AddNode(space: Space, item: NodeItem, admin: bool): (Space, Status, Option<NodeId>) {
    var (space1, id) := ChooseId(space, item.requested);
    if id in space1.nodes then (space1, BadNodeIdExists, None)
    else if !item.parent.IsNull() && item.parent !in space1.nodes then (space1, BadParentNodeIdInvalid, None)
    else if !admin then (space1, BadUserAccessDenied, None)
    else (LinkNode(space1, id, item), Good, Some(id))
  }

  /** generate_nodeid with this many nested calls left: it calls itself for every number that is taken. */
  function Generate(space: Space, ns: nat, frames: nat): (Space, Option<NodeId>)
    decreases frames
  {
    if frames == 0 then (space, None)
    else
      var n := Counter(space, ns) + 1;
      var next := space.(counters := space.counters[ns := n]);
      if NodeId(ns, Numeric(n)) in space.nodes then Generate(next, ns, frames - 1)
      else (next, Some(NodeId(ns, Numeric(n))))
  }

  /** Adding a node where the interpreter's limit may stop the generation of its id. */
  function AddNodeWithin(space: Space, item: NodeItem, admin: bool, frames: nat): (Space, Status, Option<NodeId>) {
    var generated := Generate(space, item.requested.namespaceIndex, frames);
    if item.requested.identifier.IsNull() && generated.1.None? then (generated.0, Raised, None)
    else AddNode(space, item, admin)
  }

  /**
   Generation succeeds exactly when a number is free within so many steps above the counter, and then
   gives the first free one. Otherwise it raises with the counter moved by all the steps.
   */
  lemma {:induction false} GenerateExactly(space: Space, ns: nat, frames: nat)
    ensures var c := Counter(space, ns);
            var (after, id) := Generate(space, ns, frames);
            && (id.Some? <==> FreeNumber(space.nodes, ns, c) <= c + frames)
            && (id.Some? ==> GenerateId(space, ns) == (after, id.value))
            && (id.None? ==> after.nodes == space.nodes && Counter(after, ns) == c + frames
                             && forall other | other != ns :: Counter(after, other) == Counter(space, other))
    decreases frames
  {
    if frames > 0 {
      var n := Counter(space, ns) + 1;
      var next := space.(counters := space.counters[ns := n]);
      if NodeId(ns, Numeric(n)) in space.nodes {
        GenerateExactly(next, ns, frames - 1);
        var f := FreeNumber(space.nodes, ns, n);
        assert next.counters[ns := f] == space.counters[ns := f];
      }
    }
  }

  /** A thousand ids taken in a row are more than a thousand frames can pass: generation raises. */
  lemma ManyTakenIdsRaise(ns: nat)
    ensures exists space: Space :: Consistent(space) && Generate(space, ns, 1000).1 == None
  {
    var nodes := map n | 1 <= n <= 1000 :: NodeId(ns, Numeric(n)) := Node(1, []);
    var space := Space(nodes, map[]);
    assert Consistent(space);
    GenerateExactly(space, ns, 1000);
    var free := FreeNumber(nodes, ns, 0);
    assert free <= 1000 ==> NodeId(ns, Numeric(free)) in nodes;
  }

  // ----- Invariant: one reference per type and target, and every target exists -----

  predicate Unique(refs: seq<Reference>) {
    forall i, j | 0 <= i < j < |refs| :: !Same(refs[i], refs[j].refType, refs[j].target)
  }

  predicate Consistent(space: Space) {
    forall n | n in space.nodes ::
      Unique(space.nodes[n].references) && forall r | r in space.nodes[n].references :: r.target in space.nodes
  }

  lemma {:induction false} DeleteUniqueKeeps(refs: seq<Reference>, refType: NodeId, target: NodeId, isForward: bool)
    requires Unique(refs)
    ensures var (after, status) := DeleteUnique(refs, refType, target, isForward);
            && Unique(after)
            && (status == Good <==> exists r :: r in refs && Same(r, refType, target) && r.isForward == isForward)
            && forall r :: r in after <==> r in refs && !(Same(r, refType, target) && r.isForward == isForward)
  {
    if refs != [] {
      assert refs == [refs[0]] + refs[1..];
      var (rest, status) := DeleteUnique(refs[1..], refType, target, isForward);
      assert Unique(refs[1..]);
      DeleteUniqueKeeps(refs[1..], refType, target, isForward);
      forall r | r in refs[1..]
        ensures !Same(refs[0], r.refType, r.target)
      {
        var j :| 0 <= j < |refs[1..]| && refs[1..][j] == r;
        assert refs[j + 1] == r;
      }
      assert forall i | 0 <= i < |rest| :: rest[i] in rest;
    }
  }

  lemma AddReferenceKeeps(space: Space, item: ReferenceItem, admin: bool)
    requires Consistent(space)
    ensures Consistent(AddReference(space, item, admin).0)
    ensures AddReference(space, item, admin).0.nodes.Keys == space.nodes.Keys
    ensures AddReference(space, item, admin).0.counters == space.counters
  {
    if item.source in space.nodes && item.target in space.nodes && admin {
      var r := Reference(item.refType, item.target, item.isForward, item.targetClass);
      var refs := space.nodes[item.source].references;
      AddUniqueKeeps(refs, r);
      hide AddUnique, Unique;
      var after := AddUnique(refs, r).0;
      assert forall q | q in after :: q.target in space.nodes;
    }
  }

  lemma AddUniqueKeeps(refs: seq<Reference>, r: Reference)
    requires Unique(refs)
    ensures Unique(AddUnique(refs, r).0)
    ensures forall q | q in AddUnique(refs, r).0 :: q in refs || q == r
  {
  }

  lemma DeleteReferenceKeeps(space: Space, item: ReferenceItem, bidirectional: bool, admin: bool)
    requires Consistent(space)
    ensures Consistent(DeleteReference(space, item, bidirectional, admin).0)
  {
    if item.source in space.nodes && item.target in space.nodes {
      DeleteOneKeeps(space, item.target, item.refType, item.source, !item.isForward);
      var space1 := if bidirectional then DeleteOne(space, item.target, item.refType, item.source, !item.isForward).0
                    else space;
      DeleteOneKeeps(space1, item.source, item.refType, item.target, item.isForward);
    }
  }

  lemma DeleteOneKeeps(space: Space, source: NodeId, refType: NodeId, target: NodeId, isForward: bool)
    requires Consistent(space) && source in space.nodes
    ensures var (after, _) := DeleteOne(space, source, refType, target, isForward);
            Consistent(after) && after.nodes.Keys == space.nodes.Keys
  {
    DeleteUniqueKeeps(space.nodes[source].references, refType, target, isForward);
  }

  lemma LinkNodeKeeps(space: Space, id: NodeId, item: NodeItem)
    requires Consistent(space) && id !in space.nodes && (item.parent.IsNull() || item.parent in space.nodes)
    ensures Consistent(LinkNode(space, id, item))
    ensures LinkNode(space, id, item).nodes.Keys == space.nodes.Keys + {id}
    ensures LinkNode(space, id, item).counters == space.counters
  {
    var space1 := space.(nodes := space.nodes[id := Node(item.nodeClass, [])]);
    assert Consistent(space1);
    hide Consistent, AddReference;
    var first := ReferenceItem(item.parent, item.refType, id, true, item.nodeClass);
    AddReferenceKeeps(space1, first, true);
    if !item.parent.IsNull() {
      var fromParent := AddReference(space1, first, true).0;
      var second := ReferenceItem(id, item.refType, item.parent, false, space.nodes[item.parent].nodeClass);
      AddReferenceKeeps(fromParent, second, true);
      AddReferenceKeeps(AddReference(fromParent, second, true).0,
                        ReferenceItem(id, HAS_TYPE_DEFINITION, item.typeDefinition, true, DATA_TYPE_CLASS), true);
    } else {
      AddReferenceKeeps(space1, ReferenceItem(id, HAS_TYPE_DEFINITION, item.typeDefinition, true, DATA_TYPE_CLASS),
                        true);
    }
  }

  lemma AddNodeKeeps(space: Space, item: NodeItem, admin: bool)
    requires Consistent(space)
    ensures Consistent(AddNode(space, item, admin).0)
  {
    var (space1, id) := ChooseId(space, item.requested);
    if AddNode(space, item, admin).1 == Good {
      LinkNodeKeeps(space1, id, item);
    }
  }

  lemma AddNodeWithinKeeps(space: Space, item: NodeItem, admin: bool, frames: nat)
    requires Consistent(space)
    ensures Consistent(AddNodeWithin(space, item, admin, frames).0)
  {
    AddNodeKeeps(space, item, admin);
    GenerateExactly(space, item.requested.namespaceIndex, frames);
    hide AddNode, Generate, GenerateId;
  }

  // ----- What is in the graph -----

  datatype Edge = Edge(source: NodeId, refType: NodeId, target: NodeId, isForward: bool)

  predicate Holds(refs: seq<Reference>, refType: NodeId, target: NodeId, isForward: bool) {
    exists i | 0 <= i < |refs| :: Same(refs[i], refType, target) && refs[i].isForward == isForward
  }

  predicate HasEdge(space: Space, e: Edge) {
    e.source in space.nodes && Holds(space.nodes[e.source].references, e.refType, e.target, e.isForward)
  }

  function EdgeOf(item: ReferenceItem): Edge {
    Edge(item.source, item.refType, item.target, item.isForward)
  }

  function Opposite(e: Edge): Edge {
    e.(isForward := !e.isForward)
  }

  lemma AddUniqueHolds(refs: seq<Reference>, r: Reference)
    requires Unique(refs)
    ensures var (after, status) := AddUnique(refs, r);
            && (status == Good <==> !Holds(refs, r.refType, r.target, !r.isForward))
            && forall t, g, f :: Holds(after, t, g, f) <==>
                 Holds(refs, t, g, f) || (status == Good && t == r.refType && g == r.target && f == r.isForward)
  {
    var (after, status) := AddUnique(refs, r);
    var i := Find(refs, r.refType, r.target);
    if i.None? {
      assert after[|refs|] == r;
      forall t, g, f
        ensures Holds(after, t, g, f) <==> Holds(refs, t, g, f) || (t == r.refType && g == r.target && f == r.isForward)
      {
        if Holds(refs, t, g, f) {
          var k :| 0 <= k < |refs| && Same(refs[k], t, g) && refs[k].isForward == f;
          assert after[k] == refs[k];
        }
      }
    } else {
      assert refs[i.value].isForward == r.isForward ==> Holds(refs, r.refType, r.target, r.isForward);
      assert forall k | 0 <= k < |refs| && Same(refs[k], r.refType, r.target) :: k == i.value;
    }
  }

  /** A reference is refused exactly when its opposite is there; otherwise exactly its edge is there afterwards. */
  lemma AddReferenceEdges(space: Space, item: ReferenceItem)
    requires Consistent(space) && item.source in space.nodes && item.target in space.nodes
    ensures var (after, status) := AddReference(space, item, true);
            && status in {Good, BadReferenceNotAllowed}
            && (status == Good <==> !HasEdge(space, Opposite(EdgeOf(item))))
            && forall e :: HasEdge(after, e) <==> HasEdge(space, e) || (status == Good && e == EdgeOf(item))
  {
    var r := Reference(item.refType, item.target, item.isForward, item.targetClass);
    var refs := space.nodes[item.source].references;
    AddUniqueHolds(refs, r);
    hide AddUnique, Holds, Unique;
    var (after, status) := AddReference(space, item, true);
    forall e
      ensures HasEdge(after, e) <==> HasEdge(space, e) || (status == Good && e == EdgeOf(item))
    {
      if e.source == item.source {
        assert after.nodes[e.source].references == AddUnique(refs, r).0;
      }
    }
  }

  lemma TargetsExist(space: Space, e: Edge)
    requires Consistent(space) && HasEdge(space, e)
    ensures e.target in space.nodes
  {
  }

  predicate IsParentLink(e: Edge, id: NodeId, item: NodeItem) {
    !item.parent.IsNull()
      && (e == Edge(item.parent, item.refType, id, true) || e == Edge(id, item.refType, item.parent, false))
  }

  predicate IsTypeLink(space: Space, e: Edge, id: NodeId, item: NodeItem) {
    && item.typeDefinition != NULL_ID && e == Edge(id, HAS_TYPE_DEFINITION, item.typeDefinition, true)
    && (item.typeDefinition in space.nodes || item.typeDefinition == id)
    && !IsParentLink(Opposite(e), id, item)
  }

  /**
   A node that is added gets both halves of its parent link, and its type link unless the type is
   missing or the same pair is already the parent link the other way; nothing else changes.
   */
  lemma LinkNodeEdges(space: Space, id: NodeId, item: NodeItem)
    requires Consistent(space) && id !in space.nodes && (item.parent.IsNull() || item.parent in space.nodes)
    ensures forall e :: HasEdge(LinkNode(space, id, item), e) <==>
              HasEdge(space, e) || IsParentLink(e, id, item) || IsTypeLink(space, e, id, item)
  {
    var space1 := space.(nodes := space.nodes[id := Node(item.nodeClass, [])]);
    assert Consistent(space1);
    assert forall e :: HasEdge(space1, e) <==> HasEdge(space, e);
    forall e | HasEdge(space, e)
      ensures e.source != id && e.target != id
    {
      TargetsExist(space, e);
    }
    hide Consistent, HasEdge;
    var space2 := space1;
    if !item.parent.IsNull() {
      var first := ReferenceItem(item.parent, item.refType, id, true, item.nodeClass);
      AddReferenceKeeps(space1, first, true);
      AddReferenceEdges(space1, first);
      var fromParent := AddReference(space1, first, true).0;
      var second := ReferenceItem(id, item.refType, item.parent, false, space.nodes[item.parent].nodeClass);
      AddReferenceKeeps(fromParent, second, true);
      AddReferenceEdges(fromParent, second);
      space2 := AddReference(fromParent, second, true).0;
    }
    if item.typeDefinition != NULL_ID {
      var third := ReferenceItem(id, HAS_TYPE_DEFINITION, item.typeDefinition, true, DATA_TYPE_CLASS);
      if item.typeDefinition in space1.nodes {
        AddReferenceEdges(space2, third);
      }
    }
  }

  /** Adding under a parent succeeds with both halves of the link in place. */
  lemma AddedUnderParent(space: Space, item: NodeItem)
    requires Consistent(space) && AddNode(space, item, true).1 == Good && !item.parent.IsNull()
    ensures var (after, _, id) := AddNode(space, item, true);
            && id.Some? && id.value !in space.nodes
            && HasEdge(after, Edge(item.parent, item.refType, id.value, true))
            && HasEdge(after, Edge(id.value, item.refType, item.parent, false))
  {
    var (space1, id) := ChooseId(space, item.requested);
    LinkNodeEdges(space1, id, item);
  }

  // ----- Runs -----

  datatype Request =
    | Add(item: NodeItem, admin: bool, frames: nat)
    | AddRef(reference: ReferenceItem, admin: bool)
    | DeleteRef(reference: ReferenceItem, bidirectional: bool, admin: bool)

  function Step(space: Space, r: Request): Space {
    match r
    case Add(item, admin, frames) => AddNodeWithin(space, item, admin, frames).0
    case AddRef(reference, admin) => AddReference(space, reference, admin).0
    case DeleteRef(reference, bidirectional, admin) => DeleteReference(space, reference, bidirectional, admin).0
  }

  function Run(space: Space, requests: seq<Request>): Space
    decreases |requests|
  {
    if requests == [] then space else Run(Step(space, requests[0]), requests[1..])
  }

  const EMPTY_SPACE: Space := Space(map[], map[0 := 20000, 1 := 2000])

  lemma StepKeeps(space: Space, r: Request)
    requires Consistent(space)
    ensures Consistent(Step(space, r))
  {
    hide Consistent;
    match r
    case Add(item, admin, frames) => AddNodeWithinKeeps(space, item, admin, frames);
    case AddRef(reference, admin) => AddReferenceKeeps(space, reference, admin);
    case DeleteRef(reference, bidirectional, admin) => DeleteReferenceKeeps(space, reference, bidirectional, admin);
  }

  /** On every run, no node holds two references with one type and target, and every target exists. */
  lemma {:induction false} RunKeeps(space: Space, requests: seq<Request>)
    requires Consistent(space)
    ensures Consistent(Run(space, requests))
    decreases |requests|
  {
    hide Consistent, Step;
    if requests != [] {
      StepKeeps(space, requests[0]);
      RunKeeps(Step(space, requests[0]), requests[1..]);
    }
  }

  lemma CountersNeverFall(space: Space, r: Request, ns: nat)
    ensures Counter(Step(space, r), ns) >= Counter(space, ns)
  {
    match r
    case Add(item, admin, frames) =>
      GenerateExactly(space, item.requested.namespaceIndex, frames);
      var (space1, id) := ChooseId(space, item.requested);
      assert Counter(space1, ns) >= Counter(space, ns);
      if AddNode(space, item, admin).1 == Good {
        hide ChooseId, AddReference;
        LinkNodeCounters(space1, id, item);
      }
    case _ => hide AddNode;
  }

  lemma LinkNodeCounters(space: Space, id: NodeId, item: NodeItem)
    requires id !in space.nodes && (item.parent.IsNull() || item.parent in space.nodes)
    ensures LinkNode(space, id, item).counters == space.counters
  {
  }

  lemma {:induction false} CountersOnRuns(space: Space, requests: seq<Request>, ns: nat)
    ensures Counter(Run(space, requests), ns) >= Counter(space, ns)
    decreases |requests|
  {
    hide Counter, Step;
    if requests != [] {
      CountersNeverFall(space, requests[0], ns);
      CountersOnRuns(Step(space, requests[0]), requests[1..], ns);
    }
  }

  /**
   A generated id is free, it is the smallest free one above the counter, and it is larger than
   every id generated before it in its namespace, whatever happened in between.
   */
  lemma GeneratedIdsIncrease(space: Space, requests: seq<Request>, ns: nat, frames: nat, more: nat)
    requires Generate(space, ns, frames).1.Some?
    requires Generate(Run(Generate(space, ns, frames).0, requests), ns, more).1.Some?
    ensures var (space1, first) := Generate(space, ns, frames);
            var second := Generate(Run(space1, requests), ns, more).1;
            var (a, b) := (first.value, second.value);
            && a !in space.nodes && b !in Run(space1, requests).nodes
            && a.namespaceIndex == b.namespaceIndex == ns
            && a.identifier.Numeric? && b.identifier.Numeric?
            && Counter(space, ns) < a.identifier.n < b.identifier.n
            && forall k | Counter(space, ns) < k < a.identifier.n :: NodeId(ns, Numeric(k)) in space.nodes
  {
    hide Run, Generate;
    GenerateExactly(space, ns, frames);
    var space1 := Generate(space, ns, frames).0;
    GenerateExactly(Run(space1, requests), ns, more);
    CountersOnRuns(space1, requests, ns);
    NothingFreeBefore(space.nodes, ns, Counter(space, ns));
  }

  lemma {:induction false} NothingFreeBefore(nodes: map<NodeId, Node>, ns: nat, c: nat)
    ensures forall k | c < k < FreeNumber(nodes, ns, c) :: NodeId(ns, Numeric(k)) in nodes
    decreases |TakenAbove(nodes, ns, c)|
  {
    var id := NodeId(ns, Numeric(c + 1));
    if id in nodes {
      assert TakenAbove(nodes, ns, c + 1) == TakenAbove(nodes, ns, c) - {id} && id in TakenAbove(nodes, ns, c);
      NothingFreeBefore(nodes, ns, c + 1);
    }
  }
}
