/** Loading a node set with postponed references gives one graph, whatever order the requests come in. */
module Loading {
  import opened NodeIds
  import opened AddressSpace
  import opened NodeManagement

  datatype LoadStep = LoadNode(item: NodeItem) | LoadReference(reference: ReferenceItem)

  datatype Loader = Loader(space: Space, postponed: seq<ReferenceItem>)

  function Apply(l: Loader, step: LoadStep): Loader {
    match step
    case LoadNode(item) => l.(space := AddNode(l.space, item, true).0)
    case LoadReference(r) =>
      var (space, failed) := AttemptAll(l.space, [r]);
      Loader(space, l.postponed + failed)
  }

  /** The loader after the first k requests. */
  function LoadTo(space: Space, script: seq<LoadStep>, k: nat): Loader
    requires k <= |script|
  {
    if k == 0 then Loader(space, []) else Apply(LoadTo(space, script, k - 1), script[k - 1])
  }

  /** The space after the block is left, and the references that could not be added even then. */
  function Load(space: Space, script: seq<LoadStep>): (Space, seq<ReferenceItem>) {
    var l := LoadTo(space, script, |script|);
    AttemptAll(l.space, l.postponed)
  }

  function StepsOf(refs: seq<ReferenceItem>): seq<LoadStep> {
    if refs == [] then [] else [LoadReference(refs[0])] + StepsOf(refs[1..])
  }

  // The reference itself if it is not added now.
  function Left(space: Space, r: ReferenceItem): seq<ReferenceItem> {
    if AddReference(space, r, true).1 == Good then [] else [r]
  }

  lemma ApplyReference(l: Loader, r: ReferenceItem)
    ensures Apply(l, LoadReference(r)) == Loader(AddReference(l.space, r, true).0, l.postponed + Left(l.space, r))
  {
    AttemptOne(l.space, r);
  }

  lemma AttemptCons(space: Space, refs: seq<ReferenceItem>)
    requires refs != []
    ensures var next := AddReference(space, refs[0], true).0;
            AttemptAll(space, refs) ==
              (AttemptAll(next, refs[1..]).0, Left(space, refs[0]) + AttemptAll(next, refs[1..]).1)
  {
  }

  /** A call with several references is the same as one call for each. */
  lemma {:induction false} CallIsSteps(l: Loader, refs: seq<ReferenceItem>)
    ensures var (space, failed) := AttemptAll(l.space, refs);
            ApplyAll(l, StepsOf(refs)) == Loader(space, l.postponed + failed)
    decreases |refs|
  {
    hide AddReference, AttemptAll, Apply, Left;
    if refs == [] {
      NothingToAttempt(l.space);
      assert l.postponed + [] == l.postponed;
    } else {
      var next := Apply(l, LoadReference(refs[0]));
      ApplyReference(l, refs[0]);
      AttemptCons(l.space, refs);
      CallIsSteps(next, refs[1..]);
      assert StepsOf(refs)[1..] == StepsOf(refs[1..]);
      AppendTwice(l.postponed, Left(l.space, refs[0]), AttemptAll(next.space, refs[1..]).1);
    }
  }

  lemma NothingToAttempt(space: Space)
    ensures AttemptAll(space, []) == (space, [])
  {
  }

  lemma AppendTwice<T>(a: seq<T>, b: seq<T>, c: seq<T>)
    ensures a + b + c == a + (b + c)
  {
  }

  function ApplyAll(l: Loader, script: seq<LoadStep>): Loader
    decreases |script|
  {
    if script == [] then l else ApplyAll(Apply(l, script[0]), script[1..])
  }

  // ----- What a script asks for -----

  predicate Adds(script: seq<LoadStep>, i: int, n: NodeId) {
    0 <= i < |script| && script[i].LoadNode? && script[i].item.requested == n
  }

  /** In the space from the start, or added by one of the first k requests. */
  predicate Loaded(space: Space, script: seq<LoadStep>, k: int, n: NodeId) {
    n in space.nodes || exists i | 0 <= i < k && i < |script| :: Adds(script, i, n)
  }

  predicate AsksFor(step: LoadStep, e: Edge) {
    match step
    case LoadNode(item) => IsParentLink(e, item.requested, item)
    case LoadReference(r) => EdgeOf(r) == e
  }

  predicate Wanted(script: seq<LoadStep>, e: Edge) {
    exists i | 0 <= i < |script| :: AsksFor(script[i], e)
  }

  predicate Expected(space: Space, script: seq<LoadStep>, e: Edge) {
    HasEdge(space, e) || Wanted(script, e)
  }

  function TypeLink(item: NodeItem): Edge {
    Edge(item.requested, HAS_TYPE_DEFINITION, item.typeDefinition, true)
  }

  /** Nodes have distinct new ids and come after their parents. */
  ghost predicate ParentsFirst(space: Space, script: seq<LoadStep>) {
    forall i | 0 <= i < |script| && script[i].LoadNode? ::
      var item := script[i].item;
      && !item.requested.identifier.IsNull() && item.requested !in space.nodes
      && (forall j :: Adds(script, j, item.requested) ==> j == i)
      && (item.parent.IsNull() || Loaded(space, script, i, item.parent))
  }

  /** Every endpoint is loaded at some point, and every type link is also asked for as a reference. */
  ghost predicate Closed(space: Space, script: seq<LoadStep>) {
    && (forall i | 0 <= i < |script| && script[i].LoadReference? ::
          Loaded(space, script, |script|, script[i].reference.source)
            && Loaded(space, script, |script|, script[i].reference.target))
    && (forall i | 0 <= i < |script| && script[i].LoadNode? && script[i].item.typeDefinition != NULL_ID ::
          Wanted(script, TypeLink(script[i].item)))
  }

  ghost predicate NoConflict(space: Space, script: seq<LoadStep>) {
    forall e | Expected(space, script, e) :: !Expected(space, script, Opposite(e))
  }

  ghost predicate WellFormed(space: Space, script: seq<LoadStep>) {
    Consistent(space) && ParentsFirst(space, script) && Closed(space, script) && NoConflict(space, script)
  }

  // ----- The invariant of a load -----

  ghost predicate Progress(space: Space, script: seq<LoadStep>, k: nat, l: Loader)
    requires k <= |script|
  {
    && Consistent(l.space)
    && (forall n :: n in l.space.nodes <==> Loaded(space, script, k, n))
    && (forall e | HasEdge(l.space, e) :: Expected(space, script, e))
    && (forall e | HasEdge(space, e) :: HasEdge(l.space, e))
    && (forall i, e | 0 <= i < k && AsksFor(script[i], e) ::
          HasEdge(l.space, e) || (script[i].LoadReference? && script[i].reference in l.postponed))
    && (forall r | r in l.postponed :: LoadReference(r) in script)
  }

  lemma {:induction false} LoadProgress(space: Space, script: seq<LoadStep>, k: nat)
    requires WellFormed(space, script) && k <= |script|
    ensures Progress(space, script, k, LoadTo(space, script, k))
  {
    hide Progress, WellFormed, Apply;
    if k == 0 {
      LoadStart(space, script);
    } else {
      LoadProgress(space, script, k - 1);
      var before := LoadTo(space, script, k - 1);
      assert LoadTo(space, script, k) == Apply(before, script[k - 1]);
      hide LoadTo;
      if script[k - 1].LoadNode? {
        NodeProgress(space, script, k, before);
      } else {
        ReferenceProgress(space, script, k, before);
      }
    }
  }

  lemma LoadStart(space: Space, script: seq<LoadStep>)
    requires WellFormed(space, script)
    ensures Progress(space, script, 0, LoadTo(space, script, 0))
  {
    hide Progress;
    StartProgress(space, script);
  }

  lemma StartProgress(space: Space, script: seq<LoadStep>)
    requires Consistent(space)
    ensures Progress(space, script, 0, Loader(space, []))
  {
    hide HasEdge, Consistent;
    assert forall n :: n in space.nodes <==> Loaded(space, script, 0, n);
  }

  lemma LoadedStep(space: Space, script: seq<LoadStep>, k: nat, n: NodeId)
    requires 0 < k <= |script|
    ensures Loaded(space, script, k, n) <==> Loaded(space, script, k - 1, n) || Adds(script, k - 1, n)
  {
  }

  lemma NodeProgress(space: Space, script: seq<LoadStep>, k: nat, before: Loader)
    requires WellFormed(space, script) && 0 < k <= |script| && script[k - 1].LoadNode?
    requires Progress(space, script, k - 1, before)
    ensures Progress(space, script, k, Apply(before, script[k - 1]))
  {
    var item := script[k - 1].item;
    var id := item.requested;
    assert Adds(script, k - 1, id);
    assert id !in before.space.nodes;
    assert item.parent.IsNull() || item.parent in before.space.nodes;
    var after := Apply(before, script[k - 1]);
    assert after.space == LinkNode(before.space, id, item);
    LinkNodeKeeps(before.space, id, item);
    LinkNodeEdges(before.space, id, item);
    hide LinkNode, AddNode, Apply, NoConflict, ParentsFirst;
    AddedNode(space, script, k, before, after, item);
  }

  lemma AddedNode(space: Space, script: seq<LoadStep>, k: nat, before: Loader, after: Loader, item: NodeItem)
    requires Closed(space, script) && 0 < k <= |script| && script[k - 1] == LoadNode(item)
             && Progress(space, script, k - 1, before)
    requires Consistent(after.space) && after.space.nodes.Keys == before.space.nodes.Keys + {item.requested}
    requires after.postponed == before.postponed
    requires forall e :: HasEdge(after.space, e) <==>
               HasEdge(before.space, e) || IsParentLink(e, item.requested, item)
                 || IsTypeLink(before.space, e, item.requested, item)
    ensures Progress(space, script, k, after)
  {
    hide HasEdge, Consistent;
    forall n
      ensures n in after.space.nodes <==> Loaded(space, script, k, n)
    {
      LoadedStep(space, script, k, n);
    }
    forall e | HasEdge(after.space, e)
      ensures Expected(space, script, e)
    {
      if IsParentLink(e, item.requested, item) {
        assert AsksFor(script[k - 1], e);
      } else if !HasEdge(before.space, e) {
        assert e == TypeLink(item);
      }
    }
  }

  lemma ReferenceProgress(space: Space, script: seq<LoadStep>, k: nat, before: Loader)
    requires WellFormed(space, script) && 0 < k <= |script| && script[k - 1].LoadReference?
    requires Progress(space, script, k - 1, before)
    ensures Progress(space, script, k, Apply(before, script[k - 1]))
  {
    var r := script[k - 1].reference;
    var after := Apply(before, script[k - 1]);
    var (next, status) := AddReference(before.space, r, true);
    AttemptOne(before.space, r);
    assert after == Loader(next, before.postponed + if status == Good then [] else [r]);
    AddReferenceKeeps(before.space, r, true);
    if r.source in before.space.nodes && r.target in before.space.nodes {
      AddReferenceEdges(before.space, r);
    } else {
      assert next == before.space && status != Good;
    }
    hide AddReference, AttemptAll, Apply, WellFormed;
    TriedReference(space, script, k, before, after, r, status);
  }

  lemma TriedReference(space: Space, script: seq<LoadStep>, k: nat, before: Loader, after: Loader, r: ReferenceItem,
                       status: Status)
    requires 0 < k <= |script| && script[k - 1] == LoadReference(r) && Progress(space, script, k - 1, before)
    requires Consistent(after.space) && after.space.nodes.Keys == before.space.nodes.Keys
    requires after.postponed == before.postponed + if status == Good then [] else [r]
    requires forall e :: HasEdge(after.space, e) <==> HasEdge(before.space, e) || (status == Good && e == EdgeOf(r))
    ensures Progress(space, script, k, after)
  {
    hide HasEdge, Consistent;
    assert AsksFor(script[k - 1], EdgeOf(r));
    forall n
      ensures n in after.space.nodes <==> Loaded(space, script, k, n)
    {
      LoadedStep(space, script, k, n);
    }
  }

  /** With every endpoint there and no conflict, every postponed reference is added. */
  lemma {:induction false} RetrySucceeds(space: Space, script: seq<LoadStep>, now: Space, refs: seq<ReferenceItem>)
    requires WellFormed(space, script) && Consistent(now)
    requires forall n | Loaded(space, script, |script|, n) :: n in now.nodes
    requires forall e | HasEdge(now, e) :: Expected(space, script, e)
    requires forall r | r in refs :: LoadReference(r) in script
    ensures var (after, remaining) := AttemptAll(now, refs);
            && remaining == []
            && after.nodes.Keys == now.nodes.Keys
            && forall e :: HasEdge(after, e) <==> HasEdge(now, e) || exists r | r in refs :: EdgeOf(r) == e
    decreases |refs|
  {
    if refs == [] {
      NothingToAttempt(now);
    } else {
      var r := refs[0];
      assert r in refs;
      ReferenceAccepted(space, script, now, r);
      AttemptCons(now, refs);
      hide AddReference, HasEdge, Consistent, WellFormed, Expected, AttemptAll, Loaded;
      assert refs == [r] + refs[1..];
      var next := AddReference(now, r, true).0;
      assert forall q | q in refs[1..] :: q in refs;
      RetrySucceeds(space, script, next, refs[1..]);
      OneMoreEdge(now, next, AttemptAll(now, refs).0, r, refs[1..]);
    }
  }

  lemma OneMoreEdge(now: Space, next: Space, after: Space, r: ReferenceItem, refs: seq<ReferenceItem>)
    requires forall e :: HasEdge(next, e) <==> HasEdge(now, e) || e == EdgeOf(r)
    requires forall e :: HasEdge(after, e) <==> HasEdge(next, e) || exists q | q in refs :: EdgeOf(q) == e
    ensures forall e :: HasEdge(after, e) <==> HasEdge(now, e) || exists q | q in [r] + refs :: EdgeOf(q) == e
  {
    hide HasEdge;
    forall e
      ensures HasEdge(after, e) <==> HasEdge(now, e) || exists q | q in [r] + refs :: EdgeOf(q) == e
    {
      if e == EdgeOf(r) {
        assert r in [r] + refs;
      }
      if q :| q in [r] + refs && EdgeOf(q) == e {
        assert q == r || q in refs;
      }
    }
  }

  lemma ReferenceAccepted(space: Space, script: seq<LoadStep>, now: Space, r: ReferenceItem)
    requires WellFormed(space, script) && Consistent(now)
    requires forall n | Loaded(space, script, |script|, n) :: n in now.nodes
    requires forall e | HasEdge(now, e) :: Expected(space, script, e)
    requires LoadReference(r) in script
    ensures var (next, status) := AddReference(now, r, true);
            && status == Good && Left(now, r) == [] && Consistent(next) && next.nodes.Keys == now.nodes.Keys
            && (forall e :: HasEdge(next, e) <==> HasEdge(now, e) || e == EdgeOf(r))
            && Expected(space, script, EdgeOf(r))
  {
    var i :| 0 <= i < |script| && script[i] == LoadReference(r);
    assert AsksFor(script[i], EdgeOf(r));
    AddReferenceKeeps(now, r, true);
    AddReferenceEdges(now, r);
    hide AddReference, HasEdge, Consistent;
  }

  /** Nothing remains, and the graph holds exactly what was there and what was asked for. */
  lemma LoadGivesExpected(space: Space, script: seq<LoadStep>)
    requires WellFormed(space, script)
    ensures var (after, remaining) := Load(space, script);
            && remaining == []
            && (forall n :: n in after.nodes <==> Loaded(space, script, |script|, n))
            && forall e :: HasEdge(after, e) <==> Expected(space, script, e)
  {
    var l := LoadTo(space, script, |script|);
    LoadProgress(space, script, |script|);
    RetrySucceeds(space, script, l.space, l.postponed);
    var (after, _) := Load(space, script);
    hide HasEdge, Consistent, LoadTo, WellFormed;
    forall e
      ensures HasEdge(after, e) <==> Expected(space, script, e)
    {
      if Wanted(script, e) {
        var i :| 0 <= i < |script| && AsksFor(script[i], e);
      }
      if r :| r in l.postponed && EdgeOf(r) == e {
        var i :| 0 <= i < |script| && script[i] == LoadReference(r);
        assert AsksFor(script[i], e);
      }
    }
  }

  /** Two orders of the same requests load the same nodes and the same references. */
  lemma OrderDoesNotMatter(space: Space, script: seq<LoadStep>, other: seq<LoadStep>)
    requires WellFormed(space, script) && WellFormed(space, other) && multiset(script) == multiset(other)
    ensures var (a, remainingA) := Load(space, script);
            var (b, remainingB) := Load(space, other);
            && remainingA == [] && remainingB == []
            && a.nodes.Keys == b.nodes.Keys
            && forall e :: HasEdge(a, e) <==> HasEdge(b, e)
  {
    LoadGivesExpected(space, script);
    LoadGivesExpected(space, other);
    var (a, _) := Load(space, script);
    var (b, _) := Load(space, other);
    hide Load, HasEdge, WellFormed;
    forall s
      ensures s in script <==> s in other
    {
      assert s in script <==> s in multiset(script);
      assert s in other <==> s in multiset(other);
    }
    SameSteps(space, script, other);
    SameSteps(space, other, script);
    assert forall n :: n in a.nodes <==> n in b.nodes;
  }

  lemma SameSteps(space: Space, script: seq<LoadStep>, other: seq<LoadStep>)
    requires forall s | s in script :: s in other
    ensures forall e | Wanted(script, e) :: Wanted(other, e)
    ensures forall n | Loaded(space, script, |script|, n) :: Loaded(space, other, |other|, n)
  {
    forall e | Wanted(script, e)
      ensures Wanted(other, e)
    {
      var i :| 0 <= i < |script| && AsksFor(script[i], e);
      assert script[i] in other;
    }
    forall n | Loaded(space, script, |script|, n)
      ensures Loaded(space, other, |other|, n)
    {
      if n !in space.nodes {
        var i :| 0 <= i < |script| && Adds(script, i, n);
        assert script[i] in other;
        var j :| 0 <= j < |other| && other[j] == script[i];
        assert Adds(other, j, n);
      }
    }
  }
}
