/** Browsing a node: which of its references are returned, and the types below a reference type. */
module Browse {
  import opened Wrappers
  import opened Arithmetic
  import opened NodeIds
  import opened AddressSpace

  datatype Direction = Forward | Inverse | Both

  datatype Description = Description(
    node: NodeId, direction: Direction, refType: NodeId, includeSubtypes: bool, classMask: nat)

  datatype BrowseResult = References(references: seq<Reference>) | BadNodeIdInvalid

  const HAS_SUBTYPE: Identifier := Numeric(45)

  // ----- The types below a type -----

  predicate IsSubtypeRef(r: Reference) {
    r.refType.identifier == HAS_SUBTYPE && r.isForward
  }

  /** The recursive collection, in at most `frames` nested calls; None where the interpreter's limit stops it. */
  function GetSubRef(space: Space, n: NodeId, frames: nat): Option<seq<NodeId>>
    decreases frames, 0
  {
    if frames == 0 then None
    else if n !in space.nodes then Some([])
    else Collect(space, space.nodes[n].references, frames - 1)
  }

  function Collect(space: Space, refs: seq<Reference>, frames: nat): Option<seq<NodeId>>
    decreases frames, |refs| + 1
  {
    if refs == [] then Some([])
    else
      var rest := Collect(space, refs[1..], frames);
      if !IsSubtypeRef(refs[0]) then rest
      else
        var below := GetSubRef(space, refs[0].target, frames);
        if below.None? || rest.None? then None else Some([refs[0].target] + below.value + rest.value)
  }

  // ----- Independent description: paths of forward HasSubtype references -----

  predicate SubtypeStep(space: Space, a: NodeId, b: NodeId) {
    a in space.nodes && exists r :: r in space.nodes[a].references && r.target == b
                                    && r.refType.identifier == Numeric(45) && r.isForward
  }

  predicate Path(space: Space, p: seq<NodeId>, a: NodeId, b: NodeId) {
    |p| >= 1 && p[0] == a && p[|p| - 1] == b && forall i | 0 <= i < |p| - 1 :: SubtypeStep(space, p[i], p[i + 1])
  }

  /** One or more steps. */
  ghost predicate Below(space: Space, a: NodeId, b: NodeId) {
    exists p :: |p| >= 2 && Path(space, p, a, b)
  }

  ghost predicate CycleFrom(space: Space, a: NodeId) {
    exists c :: (c == a || Below(space, a, c)) && Below(space, c, c)
  }

  lemma PathTail(space: Space, p: seq<NodeId>, a: NodeId, b: NodeId)
    requires Path(space, p, a, b) && |p| >= 2
    ensures SubtypeStep(space, a, p[1]) && Path(space, p[1..], p[1], b)
  {
    assert SubtypeStep(space, p[0], p[0 + 1]);
    forall i | 0 <= i < |p[1..]| - 1
      ensures SubtypeStep(space, p[1..][i], p[1..][i + 1])
    {
      assert SubtypeStep(space, p[i + 1], p[i + 1 + 1]);
    }
  }

  lemma JoinPaths(space: Space, p: seq<NodeId>, q: seq<NodeId>, a: NodeId, b: NodeId, c: NodeId)
    requires Path(space, p, a, b) && Path(space, q, b, c)
    ensures Path(space, p + q[1..], a, c)
  {
    var j := p + q[1..];
    forall i | 0 <= i < |j| - 1
      ensures SubtypeStep(space, j[i], j[i + 1])
    {
      if i >= |p| - 1 {
        assert j[i] == q[i - (|p| - 1)] && j[i + 1] == q[i - (|p| - 1) + 1];
      }
    }
  }

  lemma PathSlice(space: Space, p: seq<NodeId>, a: NodeId, b: NodeId, i: nat, j: nat)
    requires Path(space, p, a, b) && i < j < |p|
    ensures Path(space, p[i..j + 1], p[i], p[j])
  {
    var s := p[i..j + 1];
    forall k | 0 <= k < |s| - 1
      ensures SubtypeStep(space, s[k], s[k + 1])
    {
      assert SubtypeStep(space, p[i + k], p[i + k + 1]);
    }
  }

  /** What is collected are the first targets and what lies below them. */
  lemma {:induction false} CollectGives(space: Space, refs: seq<Reference>, frames: nat)
    ensures Collect(space, refs, frames).Some? <==>
              forall r :: r in refs && IsSubtypeRef(r) ==> GetSubRef(space, r.target, frames).Some?
    ensures Collect(space, refs, frames).Some? ==>
              forall t :: t in Collect(space, refs, frames).value <==>
                exists r :: r in refs && IsSubtypeRef(r) &&
                            (r.target == t || t in GetSubRef(space, r.target, frames).value)
    decreases |refs|
  {
    hide GetSubRef, IsSubtypeRef;
    if refs != [] {
      CollectGives(space, refs[1..], frames);
      assert refs == [refs[0]] + refs[1..];
    }
  }

  /** Every path from the start fits in the frames, and leads to a collected type. */
  lemma {:induction false} PathsAreCollected(space: Space, n: NodeId, frames: nat, p: seq<NodeId>, t: NodeId)
    requires GetSubRef(space, n, frames).Some? && Path(space, p, n, t)
    ensures |p| <= frames && (|p| >= 2 ==> t in GetSubRef(space, n, frames).value)
    decreases frames
  {
    hide Collect;
    if |p| >= 2 {
      PathTail(space, p, n, t);
      CollectGives(space, space.nodes[n].references, frames - 1);
      PathsAreCollected(space, p[1], frames - 1, p[1..], t);
    }
  }

  lemma {:induction false} CollectedIsBelow(space: Space, n: NodeId, frames: nat, t: NodeId)
    requires GetSubRef(space, n, frames).Some? && t in GetSubRef(space, n, frames).value
    ensures Below(space, n, t)
    decreases frames
  {
    hide Collect;
    CollectGives(space, space.nodes[n].references, frames - 1);
    var r :| r in space.nodes[n].references && IsSubtypeRef(r) &&
             (r.target == t || t in GetSubRef(space, r.target, frames - 1).value);
    assert SubtypeStep(space, n, r.target);
    if r.target == t {
      assert Path(space, [n, t], n, t);
    } else {
      CollectedIsBelow(space, r.target, frames - 1, t);
      var q :| |q| >= 2 && Path(space, q, r.target, t);
      assert Path(space, [n, r.target], n, r.target);
      JoinPaths(space, [n, r.target], q, n, r.target, t);
    }
  }

  /** When every path fits, the collection ends. */
  lemma {:induction false} EndsWhenPathsFit(space: Space, n: NodeId, frames: nat)
    requires forall p, t :: Path(space, p, n, t) ==> |p| <= frames
    ensures GetSubRef(space, n, frames).Some?
    decreases frames
  {
    hide Collect;
    assert Path(space, [n], n, n);
    if n in space.nodes {
      forall r | r in space.nodes[n].references && IsSubtypeRef(r)
        ensures GetSubRef(space, r.target, frames - 1).Some?
      {
        assert SubtypeStep(space, n, r.target);
        assert Path(space, [n, r.target], n, r.target);
        forall p, t | Path(space, p, r.target, t)
          ensures |p| <= frames - 1
        {
          JoinPaths(space, [n, r.target], p, n, r.target, t);
        }
        EndsWhenPathsFit(space, r.target, frames - 1);
      }
      CollectGives(space, space.nodes[n].references, frames - 1);
    }
  }

  lemma {:induction false} RepeatOrShort(p: seq<NodeId>, keys: set<NodeId>)
    requires forall i | 0 <= i < |p| :: p[i] in keys
    ensures |p| <= |keys| || exists i, j :: 0 <= i < j < |p| && p[i] == p[j]
    decreases |p|
  {
    if p != [] {
      var last := p[|p| - 1];
      if forall i | 0 <= i < |p| - 1 :: p[i] != last {
        RepeatOrShort(p[..|p| - 1], keys - {last});
      }
    }
  }

  /** Without a cycle a path repeats no node, so it has at most one node that is not in the space. */
  lemma AcyclicPathsAreShort(space: Space, n: NodeId, p: seq<NodeId>, t: NodeId)
    requires !CycleFrom(space, n) && Path(space, p, n, t)
    ensures |p| <= |space.nodes| + 1
  {
    var most := p[..|p| - 1];
    forall i | 0 <= i < |most|
      ensures most[i] in space.nodes.Keys
    {
      assert SubtypeStep(space, p[i], p[i + 1]);
    }
    RepeatOrShort(most, space.nodes.Keys);
    if i, j :| 0 <= i < j < |most| && most[i] == most[j] {
      PathSlice(space, p, n, t, i, j);
      if i > 0 {
        PathSlice(space, p, n, t, 0, i);
      }
      assert Below(space, p[i], p[i]);
    }
  }

  lemma {:induction false} CyclesMakeLongPaths(space: Space, c: NodeId, q: seq<NodeId>, k: nat)
    requires |q| >= 2 && Path(space, q, c, c)
    ensures exists p :: |p| > k && Path(space, p, c, c)
  {
    if k > 0 {
      CyclesMakeLongPaths(space, c, q, k - 1);
      var p :| |p| > k - 1 && Path(space, p, c, c);
      JoinPaths(space, p, q, c, c, c);
    } else {
      assert Path(space, [c], c, c);
    }
  }

  lemma CyclesNeverEnd(space: Space, n: NodeId, frames: nat)
    requires CycleFrom(space, n)
    ensures GetSubRef(space, n, frames).None?
  {
    var c :| (c == n || Below(space, n, c)) && Below(space, c, c);
    var q :| |q| >= 2 && Path(space, q, c, c);
    CyclesMakeLongPaths(space, c, q, frames);
    var long :| |long| > frames && Path(space, long, c, c);
    var whole := long;
    if c != n {
      var head :| |head| >= 2 && Path(space, head, n, c);
      JoinPaths(space, head, long, n, c, c);
      whole := head + long[1..];
    }
    if GetSubRef(space, n, frames).Some? {
      PathsAreCollected(space, n, frames, whole, c);
    }
  }

  /**
   The collection ends exactly when no HasSubtype cycle can be reached from the type, and then a few
   more frames than the space has nodes are enough.
   */
  lemma CollectionEnds(space: Space, n: NodeId)
    ensures (exists frames: nat :: GetSubRef(space, n, frames).Some?) <==> !CycleFrom(space, n)
    ensures !CycleFrom(space, n) ==> GetSubRef(space, n, |space.nodes| + 1).Some?
  {
    hide GetSubRef;
    if CycleFrom(space, n) {
      forall frames: nat
        ensures GetSubRef(space, n, frames).None?
      {
        CyclesNeverEnd(space, n, frames);
      }
    } else {
      forall p, t | Path(space, p, n, t)
        ensures |p| <= |space.nodes| + 1
      {
        AcyclicPathsAreShort(space, n, p, t);
      }
      EndsWhenPathsFit(space, n, |space.nodes| + 1);
    }
  }

  /** What is collected is exactly what lies one or more steps below. */
  lemma CollectionIsClosure(space: Space, n: NodeId, frames: nat, t: NodeId)
    requires GetSubRef(space, n, frames).Some?
    ensures t in GetSubRef(space, n, frames).value <==> Below(space, n, t)
  {
    hide GetSubRef;
    if t in GetSubRef(space, n, frames).value {
      CollectedIsBelow(space, n, frames, t);
    }
    if Below(space, n, t) {
      var p :| |p| >= 2 && Path(space, p, n, t);
      PathsAreCollected(space, n, frames, p, t);
    }
  }

  // ----- Which references are suitable -----

  predicate SuitableDirection(direction: Direction, isForward: bool) {
    || direction == Both
    || (direction == Forward && isForward)
    || (direction == Inverse && !isForward)
  }

  function RemoveFirst(ids: seq<NodeId>, id: NodeId): seq<NodeId>
    requires id in ids
  {
    if ids[0] == id then ids[1..] else [ids[0]] + RemoveFirst(ids[1..], id)
  }

  function SuitableRefType(space: Space, wanted: NodeId, t: NodeId, subtypes: bool, frames: nat): Option<bool> {
    if wanted == NULL_ID then Some(true)
    else if !subtypes && t.identifier == HAS_SUBTYPE then Some(false)
    else if wanted.identifier == t.identifier then Some(true)
    else
      var found := GetSubRef(space, wanted, frames);
      if found.None? then None
      else
        var plain := NodeId(0, HAS_SUBTYPE);
        var okTypes := if !subtypes && plain in found.value then RemoveFirst(found.value, plain) else found.value;
        Some(t in okTypes)
  }

  /** The bits of two masks meet. */
  predicate SharesBit(a: nat, b: nat) {
    a > 0 && b > 0 && ((a % 2 == 1 && b % 2 == 1) || SharesBit(a / 2, b / 2))
  }

  function SuitableRef(space: Space, d: Description, r: Reference, frames: nat): Option<bool> {
    if !SuitableDirection(d.direction, r.isForward) then Some(false)
    else
      var byType := SuitableRefType(space, d.refType, r.refType, d.includeSubtypes, frames);
      if byType.None? then None
      else Some(byType.value && (d.classMask == 0 || SharesBit(d.classMask, r.nodeClass)))
  }

  /** The loop over a node's references; None where the interpreter's limit stops it. */
  function Select(space: Space, d: Description, refs: seq<Reference>, frames: nat): Option<seq<Reference>> {
    if refs == [] then Some([])
    else
      var before := Select(space, d, refs[..|refs| - 1], frames);
      if before.None? then None
      else
        var last := refs[|refs| - 1];
        var suitable := SuitableRef(space, d, last, frames);
        if suitable.None? then None else Some(if suitable.value then before.value + [last] else before.value)
  }

  method BrowseNode(space: Space, d: Description, frames: nat) returns (result: Option<BrowseResult>)
    ensures d.node !in space.nodes ==> result == Some(BadNodeIdInvalid)
    ensures d.node in space.nodes ==>
              var selected := Select(space, d, space.nodes[d.node].references, frames);
              result == if selected.None? then None else Some(References(selected.value))
  {
    if d.node !in space.nodes {
      return Some(BadNodeIdInvalid);
    }
    var refs := space.nodes[d.node].references;
    var references: seq<Reference> := [];
    for i := 0 to |refs|
      invariant Select(space, d, refs[..i], frames) == Some(references)
    {
      var suitable := SuitableRef(space, d, refs[i], frames);
      assert refs[..i + 1][..i] == refs[..i];
      if suitable.None? {
        SelectStops(space, d, refs, i + 1, frames);
        return None;
      }
      if suitable.value {
        references := references + [refs[i]];
      }
    }
    assert refs[..|refs|] == refs;
    return Some(References(references));
  }

  lemma {:induction false} SelectStops(space: Space, d: Description, refs: seq<Reference>, i: nat, frames: nat)
    requires i <= |refs| && Select(space, d, refs[..i], frames).None?
    ensures Select(space, d, refs, frames).None?
    decreases |refs|
  {
    if i < |refs| {
      assert refs[..|refs| - 1][..i] == refs[..i];
      SelectStops(space, d, refs[..|refs| - 1], i, frames);
    } else {
      assert refs[..i] == refs;
    }
  }

  // ----- What is returned -----

  ghost predicate TypeMatches(space: Space, wanted: NodeId, t: NodeId, subtypes: bool) {
    || wanted == NULL_ID
    || ((subtypes || t.identifier != HAS_SUBTYPE) && (wanted.identifier == t.identifier || Below(space, wanted, t)))
  }

  ghost predicate Matches(space: Space, d: Description, r: Reference) {
    && (d.direction == Both || r.isForward == (d.direction == Forward))
    && TypeMatches(space, d.refType, r.refType, d.includeSubtypes)
    && (d.classMask == 0 || SharesBit(d.classMask, r.nodeClass))
  }

  ghost function Matching(space: Space, d: Description, refs: seq<Reference>): seq<Reference> {
    if refs == [] then []
    else
      var last := refs[|refs| - 1];
      Matching(space, d, refs[..|refs| - 1]) + (if Matches(space, d, last) then [last] else [])
  }

  lemma {:induction false} RemoveFirstKeepsOthers(ids: seq<NodeId>, id: NodeId, t: NodeId)
    requires id in ids && t != id
    ensures t in RemoveFirst(ids, id) <==> t in ids
  {
    if ids[0] != id {
      RemoveFirstKeepsOthers(ids[1..], id, t);
    }
  }

  /** The type test decides the declarative meaning whenever it ends. */
  lemma TypeTestDecides(space: Space, wanted: NodeId, t: NodeId, subtypes: bool, frames: nat)
    requires SuitableRefType(space, wanted, t, subtypes, frames).Some?
    ensures SuitableRefType(space, wanted, t, subtypes, frames).value <==> TypeMatches(space, wanted, t, subtypes)
  {
    hide GetSubRef, Below;
    var found := GetSubRef(space, wanted, frames);
    var plain := NodeId(0, HAS_SUBTYPE);
    if found.Some? {
      CollectionIsClosure(space, wanted, frames, t);
      if plain in found.value && t != plain {
        RemoveFirstKeepsOthers(found.value, plain, t);
      }
    }
  }

  /** A browse that ends returns exactly the matching references, in stored order. */
  lemma {:induction false} SelectIsMatching(space: Space, d: Description, refs: seq<Reference>, frames: nat)
    requires Select(space, d, refs, frames).Some?
    ensures Select(space, d, refs, frames).value == Matching(space, d, refs)
    decreases |refs|
  {
    hide SuitableRefType, TypeMatches, SharesBit;
    if refs != [] {
      var last := refs[|refs| - 1];
      SelectIsMatching(space, d, refs[..|refs| - 1], frames);
      if SuitableDirection(d.direction, last.isForward) {
        TypeTestDecides(space, d.refType, last.refType, d.includeSubtypes, frames);
      }
    }
  }

  /** Whether the search below the wanted type is started for this reference. */
  predicate NeedsSearch(d: Description, r: Reference) {
    && SuitableDirection(d.direction, r.isForward)
    && d.refType != NULL_ID
    && (d.includeSubtypes || r.refType.identifier != HAS_SUBTYPE)
    && d.refType.identifier != r.refType.identifier
  }

  lemma SearchStarts(space: Space, d: Description, r: Reference, frames: nat)
    ensures SuitableRef(space, d, r, frames).None? <==> GetSubRef(space, d.refType, frames).None? && NeedsSearch(d, r)
  {
    hide GetSubRef, SharesBit;
  }

  lemma {:induction false} SelectEnds(space: Space, d: Description, refs: seq<Reference>, frames: nat)
    ensures Select(space, d, refs, frames).None? <==>
              GetSubRef(space, d.refType, frames).None? && exists r :: r in refs && NeedsSearch(d, r)
    decreases |refs|
  {
    hide SuitableRef, GetSubRef, NeedsSearch;
    if refs != [] {
      var last := refs[|refs| - 1];
      SelectEnds(space, d, refs[..|refs| - 1], frames);
      SearchStarts(space, d, last, frames);
      assert refs == refs[..|refs| - 1] + [last];
    }
  }

  /** Some path of HasSubtype references from the node has more nodes than there are frames. */
  ghost predicate LongPath(space: Space, n: NodeId, frames: nat) {
    exists p, t :: Path(space, p, n, t) && |p| > frames
  }

  /** The collection runs out of frames exactly when some path from the type is longer than they are many. */
  lemma CollectionFails(space: Space, n: NodeId, frames: nat)
    ensures GetSubRef(space, n, frames).None? <==> LongPath(space, n, frames)
  {
    hide GetSubRef, Path;
    if LongPath(space, n, frames) {
      var p, t :| Path(space, p, n, t) && |p| > frames;
      if GetSubRef(space, n, frames).Some? {
        PathsAreCollected(space, n, frames, p, t);
      }
    } else {
      EndsWhenPathsFit(space, n, frames);
    }
  }

  /**
   For every number of frames: browsing fails exactly when some path from the wanted type is longer
   than the frames are many and some reference makes it search below that type.
   */
  lemma BrowseFails(space: Space, d: Description, frames: nat)
    requires d.node in space.nodes
    ensures var refs := space.nodes[d.node].references;
            Select(space, d, refs, frames).None? <==>
              LongPath(space, d.refType, frames) && exists r :: r in refs && NeedsSearch(d, r)
  {
    hide LongPath, Select, GetSubRef, NeedsSearch;
    SelectEnds(space, d, space.nodes[d.node].references, frames);
    CollectionFails(space, d.refType, frames);
  }

  /** With a frame more than the space has nodes, or any number above, only a cycle has such a path. */
  lemma BrowseFailsOnCycles(space: Space, d: Description, frames: nat)
    requires d.node in space.nodes
    ensures CycleFrom(space, d.refType) ==> LongPath(space, d.refType, frames)
    ensures frames > |space.nodes| ==>
              var refs := space.nodes[d.node].references;
              Select(space, d, refs, frames).None? <==>
                CycleFrom(space, d.refType) && exists r :: r in refs && NeedsSearch(d, r)
  {
    hide CycleFrom, Select, GetSubRef, NeedsSearch, Path;
    BrowseFails(space, d, frames);
    CollectionFails(space, d.refType, frames);
    if CycleFrom(space, d.refType) {
      CyclesNeverEnd(space, d.refType, frames);
    } else if LongPath(space, d.refType, frames) {
      var p, t :| Path(space, p, d.refType, t) && |p| > frames;
      AcyclicPathsAreShort(space, d.refType, p, t);
    }
  }

  /**
   Without IncludeSubtypes the specification admits the wanted type alone. The code's answer differs
   exactly on a type strictly below the wanted one, unless it is HasSubtype, and on HasSubtype itself
   when that was asked for.
   */
  lemma WithoutSubtypes(space: Space, wanted: NodeId, t: NodeId, frames: nat)
    requires wanted != NULL_ID && SuitableRefType(space, wanted, t, false, frames).Some?
    ensures var suitable := SuitableRefType(space, wanted, t, false, frames).value;
            suitable == (wanted.identifier == t.identifier) <==>
              !(t.identifier == HAS_SUBTYPE && wanted.identifier == HAS_SUBTYPE) &&
              !(t.identifier != HAS_SUBTYPE && wanted.identifier != t.identifier && Below(space, wanted, t))
  {
    TypeTestDecides(space, wanted, t, false, frames);
  }

  /** A type below the wanted one is returned although subtypes were not asked for. */
  lemma SubtypesAdmittedAnyway()
    ensures exists space: Space, d: Description :: Consistent(space) && d.node in space.nodes && !d.includeSubtypes &&
              exists r :: r in space.nodes[d.node].references && Matches(space, d, r) &&
                          r.refType.identifier != d.refType.identifier
  {
    var (top, sub) := (NodeId(0, Numeric(33)), NodeId(0, Numeric(35)));
    var down := Reference(NodeId(0, HAS_SUBTYPE), sub, true, 32);
    var r := Reference(sub, sub, true, 1);
    var space := Space(map[top := Node(32, [down, r]), sub := Node(32, [])], map[]);
    var d := Description(top, Both, top, false, 0);
    assert space.nodes[top].references[0] == down;
    assert SubtypeStep(space, top, sub);
    assert Path(space, [top, sub], top, sub);
    assert space.nodes[top].references[1] == r && Matches(space, d, r);
  }

  /** A type that is its own subtype: no number of frames is enough to browse for it. */
  lemma SelfSubtypeExhausts(frames: nat)
    ensures exists space: Space, d: Description :: Consistent(space) && d.node in space.nodes &&
              Select(space, d, space.nodes[d.node].references, frames).None?
  {
    var id := NodeId(0, Numeric(33));
    var loop := Reference(NodeId(0, HAS_SUBTYPE), id, true, 32);
    var space := Space(map[id := Node(32, [loop])], map[]);
    var d := Description(id, Both, id, true, 0);
    var refs := space.nodes[id].references;
    assert refs == [loop] && refs[0] == loop && loop in refs;
    assert SubtypeStep(space, id, id);
    assert Path(space, [id, id], id, id);
    assert Below(space, id, id);
    CyclesNeverEnd(space, id, frames);
    assert NeedsSearch(d, loop);
    SelectEnds(space, d, refs, frames);
  }

  function Pow2(k: nat): (p: nat)
    ensures p > 0
  {
    if k == 0 then 1 else 2 * Pow2(k - 1)
  }

  /** A node class is one bit: the mask admits it exactly when that bit is set. */
  lemma {:induction false} MaskTestsOneBit(mask: nat, k: nat)
    ensures SharesBit(mask, Pow2(k)) <==> mask / Pow2(k) % 2 == 1
    decreases k
  {
    if k > 0 {
      MaskTestsOneBit(mask / 2, k - 1);
      HalveTwice(mask, Pow2(k - 1));
    }
  }

  lemma HalveTwice(m: nat, p: nat)
    requires p > 0
    ensures m / 2 / p == m / (2 * p)
  {
    var (q, r) := (m / 2 / p, m / 2 % p);
    assert m == 2 * (p * q + r) + m % 2;
    assert m == q * (2 * p) + (2 * r + m % 2) && 2 * r + m % 2 < 2 * p;
    DivisionIsUnique(m, 2 * p, q, 2 * r + m % 2);
  }
}
