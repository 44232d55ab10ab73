/** Importing nodes from XML: sorting them so that parents come first, and adding them in that order. */
module XmlOrder {
  import opened Wrappers
  import opened NodeIds
  import opened Namespaces

  datatype RefData = RefData(isForward: bool, refType: NodeId, target: NodeId)

  /** One parsed node; `element` tells apart objects with the same contents. */
  datatype NodeData = NodeData(
    element: nat, nodeId: NodeId, parent: Option<NodeId>, parentLink: Option<NodeId>,
    typeDefinition: Option<NodeId>, nodeClass: nat, refs: seq<RefData>)

  predicate HasId(nodes: seq<NodeData>, id: NodeId) {
    exists m :: m in nodes && m.nodeId == id
  }

  /** The node is in a namespace of the file, and so is its parent in the file. */
  predicate Waits(nd: NodeData, file: seq<NodeData>, namespaces: set<nat>) {
    nd.nodeId.namespaceIndex in namespaces && nd.parent.Some? && HasId(file, nd.parent.value)
  }

  predicate Ready(nd: NodeData, file: seq<NodeData>, namespaces: set<nat>, placed: seq<NodeData>) {
    !Waits(nd, file, namespaces) || HasId(placed, nd.parent.value)
  }

  /** The nodes already placed, in order, and those still to be placed. */
  datatype State = State(placed: seq<NodeData>, todo: seq<NodeData>)

  /** One round over the nodes that are left. */
  function Pass(s: State, file: seq<NodeData>, namespaces: set<nat>): State
    decreases |s.todo|
  {
    if s.todo == [] then s
    else
      var before := Pass(State(s.placed, s.todo[..|s.todo| - 1]), file, namespaces);
      var last := s.todo[|s.todo| - 1];
      if Ready(last, file, namespaces, before.placed) then State(before.placed + [last], before.todo)
      else State(before.placed, before.todo + [last])
  }

  function After(file: seq<NodeData>, namespaces: set<nat>, passes: nat): State {
    if passes == 0 then State([], file) else Pass(After(file, namespaces, passes - 1), file, namespaces)
  }

  /** The while loop is left after some number of rounds. */
  ghost predicate Ends(file: seq<NodeData>, namespaces: set<nat>) {
    exists k: nat :: After(file, namespaces, k).todo == []
  }

  /** The sorted list; as many rounds as there are nodes are enough for every file whose sorting ends. */
  function Sorted(file: seq<NodeData>, namespaces: set<nat>): seq<NodeData> {
    After(file, namespaces, |file|).placed
  }

  // ----- The method -----

  function Without(s: seq<NodeData>, gone: seq<NodeData>): seq<NodeData>
    decreases |s|
  {
    if s == [] then []
    else
      var last := s[|s| - 1];
      Without(s[..|s| - 1], gone) + (if last in gone then [] else [last])
  }

  function IndexIn(s: seq<NodeData>, nd: NodeData): (i: nat)
    requires nd in s
    ensures i < |s| && s[i] == nd && nd !in s[..i]
  {
    if s[0] == nd then 0
    else
      var i := IndexIn(s[1..], nd);
      assert s[..i + 1] == [s[0]] + s[1..][..i];
      i + 1
  }

  method SortNodesByParentId(file: seq<NodeData>, namespaces: set<nat>) returns (sorted: seq<NodeData>)
    requires NoRepeats(file)
    requires Ends(file, namespaces)
    ensures sorted == Sorted(file, namespaces)
  {
    hide Pass, Ready, Without, IndexIn, Ends, NoRepeats;
    var todo := file;
    sorted := [];
    ghost var passes: nat := 0;
    while |todo| > 0
      invariant After(file, namespaces, passes) == State(sorted, todo)
      invariant NoRepeats(todo)
      decreases |todo|
    {
      ghost var s := State(sorted, todo);
      ghost var left: seq<NodeData> := [];
      var popNodes: seq<NodeData> := [];
      NothingYet(s, file, namespaces);
      for i := 0 to |todo|
        invariant Pass(State(s.placed, todo[..i]), file, namespaces) == State(sorted, left)
        invariant left == Without(todo[..i], popNodes)
        invariant forall nd | nd in popNodes :: nd in todo[..i]
        invariant NoRepeats(popNodes)
      {
        var nd := todo[i];
        OneMore(s.placed, todo, i, file, namespaces, popNodes);
        if Ready(nd, file, namespaces, sorted) {
          sorted := sorted + [nd];
          popNodes := popNodes + [nd];
        } else {
          left := left + [nd];
        }
      }
      assert todo[..|todo|] == todo;
      WithoutNone(todo);
      assert popNodes[..0] == [];
      for j := 0 to |popNodes|
        invariant todo == Without(s.todo, popNodes[..j])
      {
        PopNext(s.todo, popNodes, j);
        var k := IndexIn(todo, popNodes[j]);
        todo := RemoveAt(todo, k);
      }
      assert popNodes[..|popNodes|] == popNodes;
      RoundsProgress(file, namespaces, passes);
      WithoutKeepsDistinct(s.todo, popNodes);
      passes := passes + 1;
    }
    SettledStays(file, namespaces, passes);
  }

  lemma NothingYet(s: State, file: seq<NodeData>, namespaces: set<nat>)
    ensures Pass(State(s.placed, s.todo[..0]), file, namespaces) == State(s.placed, [])
    ensures Without(s.todo[..0], []) == [] && NoRepeats<NodeData>([])
  {
  }

  lemma OneMore(placed: seq<NodeData>, todo: seq<NodeData>, i: nat, file: seq<NodeData>, namespaces: set<nat>,
                gone: seq<NodeData>)
    requires i < |todo| && NoRepeats(todo) && NoRepeats(gone) && forall nd | nd in gone :: nd in todo[..i]
    ensures var r := Pass(State(placed, todo[..i]), file, namespaces);
            Pass(State(placed, todo[..i + 1]), file, namespaces) ==
            if Ready(todo[i], file, namespaces, r.placed) then State(r.placed + [todo[i]], r.todo)
            else State(r.placed, r.todo + [todo[i]])
    ensures Without(todo[..i + 1], gone) == Without(todo[..i], gone) + [todo[i]]
    ensures Without(todo[..i + 1], gone + [todo[i]]) == Without(todo[..i], gone)
    ensures NoRepeats(gone + [todo[i]])
    ensures forall nd | nd in gone + [todo[i]] :: nd in todo[..i + 1]
  {
    hide Ready;
    var (front, nd) := (todo[..i], todo[i]);
    assert todo[..i + 1] == front + [nd];
    assert (front + [nd])[..i] == front;
    assert nd !in front;
    WithoutOthers(front, gone, [nd]);
    assert Without(front, gone) + [] == Without(front, gone);
  }

  lemma {:induction false} WithoutNone(s: seq<NodeData>)
    ensures Without(s, []) == s
    decreases |s|
  {
    if s != [] {
      WithoutNone(s[..|s| - 1]);
    }
  }

  lemma PopNext(s: seq<NodeData>, gone: seq<NodeData>, j: nat)
    requires j < |gone| && NoRepeats(s) && NoRepeats(gone) && forall nd | nd in gone :: nd in s
    ensures var now := Without(s, gone[..j]);
            gone[j] in now && RemoveAt(now, IndexIn(now, gone[j])) == Without(s, gone[..j + 1])
  {
    assert gone[..j + 1] == gone[..j] + [gone[j]];
    PopIsWithout(s, gone[..j], gone[j]);
  }

  lemma {:induction false} WithoutOthers(s: seq<NodeData>, gone: seq<NodeData>, more: seq<NodeData>)
    requires forall nd | nd in more :: nd !in s
    ensures Without(s, gone + more) == Without(s, gone)
    decreases |s|
  {
    if s != [] {
      var last := s[|s| - 1];
      assert last in s;
      WithoutOthers(s[..|s| - 1], gone, more);
    }
  }

  lemma {:induction false} WithoutMembers(s: seq<NodeData>, gone: seq<NodeData>)
    ensures forall nd :: nd in Without(s, gone) <==> nd in s && nd !in gone
    decreases |s|
  {
    if s != [] {
      WithoutMembers(s[..|s| - 1], gone);
      assert s == s[..|s| - 1] + [s[|s| - 1]];
    }
  }

  lemma {:induction false} WithoutKeepsDistinct(s: seq<NodeData>, gone: seq<NodeData>)
    requires NoRepeats(s)
    ensures NoRepeats(Without(s, gone))
    decreases |s|
  {
    if s != [] {
      var (front, last) := (s[..|s| - 1], s[|s| - 1]);
      WithoutKeepsDistinct(front, gone);
      WithoutMembers(front, gone);
      assert last !in front;
      assert forall k | 0 <= k < |Without(front, gone)| :: Without(front, gone)[k] in Without(front, gone);
    }
  }

  function RemoveAt(s: seq<NodeData>, k: nat): seq<NodeData>
    requires k < |s|
  {
    s[..k] + s[k + 1..]
  }

  lemma {:induction false} IndexUnique(s: seq<NodeData>, nd: NodeData, j: nat)
    requires j < |s| && s[j] == nd && nd !in s[..j]
    ensures IndexIn(s, nd) == j
    decreases j
  {
    if j > 0 {
      assert s[..j][0] == s[0];
      assert s[..j][1..] == s[1..][..j - 1];
      IndexUnique(s[1..], nd, j - 1);
    }
  }

  lemma IndexInFront(front: seq<NodeData>, last: NodeData, nd: NodeData)
    requires nd in front + [last]
    ensures nd in front ==> IndexIn(front + [last], nd) == IndexIn(front, nd)
    ensures nd !in front ==> IndexIn(front + [last], nd) == |front|
  {
    var whole := front + [last];
    var j := if nd in front then IndexIn(front, nd) else |front|;
    assert whole[..j] == front[..j];
    IndexUnique(whole, nd, j);
  }

  /** Taking a node out at its index leaves the list without it. */
  lemma {:induction false} PopIsWithout(s: seq<NodeData>, gone: seq<NodeData>, nd: NodeData)
    requires NoRepeats(s) && nd in s && nd !in gone
    ensures nd in Without(s, gone)
    ensures RemoveAt(Without(s, gone), IndexIn(Without(s, gone), nd)) == Without(s, gone + [nd])
    decreases |s|
  {
    hide IndexIn;
    WithoutMembers(s, gone);
    var (front, last) := (s[..|s| - 1], s[|s| - 1]);
    assert s == front + [last];
    assert last !in front;
    assert NoRepeats(front);
    hide NoRepeats;
    WithoutMembers(front, gone);
    var kept := Without(front, gone);
    if nd == last {
      WithoutOthers(front, gone, [nd]);
      IndexInFront(kept, last, nd);
      assert RemoveAt(kept + [last], |kept|) == kept;
    } else {
      PopIsWithout(front, gone, nd);
      var shorter := Without(front, gone + [nd]);
      if last in gone {
        assert kept + [] == kept && shorter + [] == shorter;
        assert Without(s, gone) == kept;
        assert Without(s, gone + [nd]) == shorter;
      } else {
        IndexInFront(kept, last, nd);
        RemoveAtFront(kept, last, IndexIn(kept, nd));
        assert Without(s, gone) == kept + [last];
        assert Without(s, gone + [nd]) == shorter + [last];
      }
    }
  }

  lemma RemoveAtFront(front: seq<NodeData>, last: NodeData, k: nat)
    requires k < |front|
    ensures RemoveAt(front + [last], k) == RemoveAt(front, k) + [last]
  {
  }

  // ----- What a round does -----

  predicate InOrder(placed: seq<NodeData>, file: seq<NodeData>, namespaces: set<nat>) {
    forall i | 0 <= i < |placed| :: Ready(placed[i], file, namespaces, placed[..i])
  }

  lemma ReadyStays(nd: NodeData, file: seq<NodeData>, namespaces: set<nat>, placed: seq<NodeData>,
                   longer: seq<NodeData>)
    requires Ready(nd, file, namespaces, placed) && placed <= longer
    ensures Ready(nd, file, namespaces, longer)
  {
  }

  lemma PlaceOne(placed: seq<NodeData>, nd: NodeData, file: seq<NodeData>, namespaces: set<nat>)
    requires InOrder(placed, file, namespaces) && Ready(nd, file, namespaces, placed)
    ensures InOrder(placed + [nd], file, namespaces)
  {
    var r := placed + [nd];
    forall i | 0 <= i < |r|
      ensures Ready(r[i], file, namespaces, r[..i])
    {
      assert r[..i] == placed[..i];
    }
  }

  lemma {:induction false} PassExtends(s: State, file: seq<NodeData>, namespaces: set<nat>)
    ensures s.placed <= Pass(s, file, namespaces).placed
    decreases |s.todo|
  {
    hide Ready;
    if s.todo != [] {
      PassExtends(State(s.placed, s.todo[..|s.todo| - 1]), file, namespaces);
    }
  }

  lemma PutLast(p: seq<NodeData>, t: seq<NodeData>, a: seq<NodeData>, f: seq<NodeData>, last: NodeData)
    requires multiset(p) + multiset(t) == multiset(a) + multiset(f)
    ensures multiset(p + [last]) + multiset(t) == multiset(a) + multiset(f + [last])
    ensures multiset(p) + multiset(t + [last]) == multiset(a) + multiset(f + [last])
  {
    var one := multiset{last};
    var (mp, mt, ma, mf) := (multiset(p), multiset(t), multiset(a), multiset(f));
    assert multiset(p + [last]) == mp + one && multiset(t + [last]) == mt + one && multiset(f + [last]) == mf + one;
    assert (mp + one) + mt == (mp + mt) + one && mp + (mt + one) == (mp + mt) + one
           && ma + (mf + one) == (ma + mf) + one;
  }

  lemma {:induction false} PassPermutes(s: State, file: seq<NodeData>, namespaces: set<nat>)
    ensures var r := Pass(s, file, namespaces);
            multiset(r.placed) + multiset(r.todo) == multiset(s.placed) + multiset(s.todo)
    decreases |s.todo|
  {
    hide Ready;
    if s.todo != [] {
      var (front, last) := (s.todo[..|s.todo| - 1], s.todo[|s.todo| - 1]);
      var before := Pass(State(s.placed, front), file, namespaces);
      PassPermutes(State(s.placed, front), file, namespaces);
      assert s.todo == front + [last];
      PutLast(before.placed, before.todo, s.placed, front, last);
    }
  }

  lemma {:induction false} PassLeaves(s: State, file: seq<NodeData>, namespaces: set<nat>)
    ensures forall nd | nd in Pass(s, file, namespaces).todo :: nd in s.todo && !Ready(nd, file, namespaces, s.placed)
    decreases |s.todo|
  {
    hide Ready;
    if s.todo != [] {
      var (front, last) := (s.todo[..|s.todo| - 1], s.todo[|s.todo| - 1]);
      var before := Pass(State(s.placed, front), file, namespaces);
      PassLeaves(State(s.placed, front), file, namespaces);
      assert s.todo == front + [last];
      if Ready(last, file, namespaces, s.placed) {
        PassExtends(State(s.placed, front), file, namespaces);
        ReadyStays(last, file, namespaces, s.placed, before.placed);
      }
    }
  }

  lemma {:induction false} PassKeepsOrder(s: State, file: seq<NodeData>, namespaces: set<nat>)
    requires InOrder(s.placed, file, namespaces)
    ensures InOrder(Pass(s, file, namespaces).placed, file, namespaces)
    decreases |s.todo|
  {
    hide Ready, InOrder;
    if s.todo != [] {
      var (front, last) := (s.todo[..|s.todo| - 1], s.todo[|s.todo| - 1]);
      var before := Pass(State(s.placed, front), file, namespaces);
      PassKeepsOrder(State(s.placed, front), file, namespaces);
      if Ready(last, file, namespaces, before.placed) {
        PlaceOne(before.placed, last, file, namespaces);
      }
    }
  }

  lemma {:induction false} RoundsKeep(file: seq<NodeData>, namespaces: set<nat>, k: nat)
    ensures var r := After(file, namespaces, k);
            && multiset(r.placed) + multiset(r.todo) == multiset(file)
            && InOrder(r.placed, file, namespaces)
  {
    if k > 0 {
      hide Pass, Ready, InOrder;
      RoundsKeep(file, namespaces, k - 1);
      PassPermutes(After(file, namespaces, k - 1), file, namespaces);
      PassKeepsOrder(After(file, namespaces, k - 1), file, namespaces);
    } else {
      assert After(file, namespaces, 0) == State([], file);
    }
  }

  /** Every node of the file is placed or left, and no other. */
  lemma RoundsShare(file: seq<NodeData>, namespaces: set<nat>, k: nat, nd: NodeData)
    ensures var r := After(file, namespaces, k);
            nd in file <==> nd in r.placed || nd in r.todo
  {
    RoundsKeep(file, namespaces, k);
    hide After, InOrder;
    var r := After(file, namespaces, k);
    assert nd in multiset(file) <==> nd in multiset(r.placed) + multiset(r.todo);
  }

  // ----- When the sorting ends -----

  lemma {:induction false} NothingReady(s: State, file: seq<NodeData>, namespaces: set<nat>)
    requires forall nd | nd in s.todo :: !Ready(nd, file, namespaces, s.placed)
    ensures Pass(s, file, namespaces) == s
    decreases |s.todo|
  {
    if s.todo != [] {
      var (front, last) := (s.todo[..|s.todo| - 1], s.todo[|s.todo| - 1]);
      assert s.todo == front + [last];
      NothingReady(State(s.placed, front), file, namespaces);
    }
  }

  lemma Cancel(a: seq<NodeData>, x: seq<NodeData>, r: seq<NodeData>, t: seq<NodeData>)
    requires multiset(a + x) + multiset(r) == multiset(a) + multiset(t)
    ensures multiset(x) + multiset(r) == multiset(t)
  {
    var (ma, mx, mr, mt) := (multiset(a), multiset(x), multiset(r), multiset(t));
    assert multiset(a + x) == ma + mx;
    assert (ma + mx) + mr == ma + (mx + mr);
    assert ma + (mx + mr) - ma == mx + mr;
    assert ma + mt - ma == mt;
  }

  lemma SomethingReady(s: State, file: seq<NodeData>, namespaces: set<nat>, nd: NodeData)
    requires nd in s.todo && Ready(nd, file, namespaces, s.placed)
    ensures |Pass(s, file, namespaces).todo| < |s.todo|
  {
    PassExtends(s, file, namespaces);
    PassPermutes(s, file, namespaces);
    PassLeaves(s, file, namespaces);
    hide Pass, Ready;
    var r := Pass(s, file, namespaces);
    var x := r.placed[|s.placed|..];
    assert r.placed == s.placed + x;
    Cancel(s.placed, x, r.todo, s.todo);
    assert nd in multiset(s.todo) && nd !in multiset(r.todo);
    assert nd in multiset(x);
    assert |multiset(x)| + |multiset(r.todo)| == |multiset(s.todo)|;
  }

  lemma {:induction false} StuckForever(file: seq<NodeData>, namespaces: set<nat>, k: nat, m: nat)
    requires Pass(After(file, namespaces, k), file, namespaces) == After(file, namespaces, k)
    ensures After(file, namespaces, k + m) == After(file, namespaces, k)
  {
    hide Pass;
    if m > 0 {
      StuckForever(file, namespaces, k, m - 1);
    }
  }

  lemma SettledSame(file: seq<NodeData>, namespaces: set<nat>, j: nat, k: nat)
    requires After(file, namespaces, j).todo == [] && After(file, namespaces, k).todo == []
    ensures After(file, namespaces, j) == After(file, namespaces, k)
  {
    NothingReady(After(file, namespaces, j), file, namespaces);
    NothingReady(After(file, namespaces, k), file, namespaces);
    hide After;
    if j <= k {
      StuckForever(file, namespaces, j, k - j);
    } else {
      StuckForever(file, namespaces, k, j - k);
    }
  }

  ghost predicate Moves(file: seq<NodeData>, namespaces: set<nat>, k: nat) {
    After(file, namespaces, k).todo != [] ==> |After(file, namespaces, k + 1).todo| < |After(file, namespaces, k).todo|
  }

  /** A sorting that ends never makes an empty round. */
  lemma RoundsProgress(file: seq<NodeData>, namespaces: set<nat>, k: nat)
    requires Ends(file, namespaces)
    ensures Moves(file, namespaces, k)
  {
    hide Ready, Pass;
    var s := After(file, namespaces, k);
    assert After(file, namespaces, k + 1) == Pass(s, file, namespaces);
    if nd :| nd in s.todo && Ready(nd, file, namespaces, s.placed) {
      SomethingReady(s, file, namespaces, nd);
    } else {
      NothingReady(s, file, namespaces);
      var end: nat :| After(file, namespaces, end).todo == [];
      NothingReady(After(file, namespaces, end), file, namespaces);
      hide Pass, After;
      if k <= end {
        StuckForever(file, namespaces, k, end - k);
      } else {
        StuckForever(file, namespaces, end, k - end);
      }
    }
  }

  lemma {:induction false} MovingEnds(file: seq<NodeData>, namespaces: set<nat>, k: nat)
    requires forall j: nat :: Moves(file, namespaces, j)
    ensures k + |After(file, namespaces, k).todo| <= |file| || After(file, namespaces, k).todo == []
  {
    if k > 0 {
      MovingEnds(file, namespaces, k - 1);
      assert Moves(file, namespaces, k - 1);
      if After(file, namespaces, k - 1).todo == [] {
        NothingReady(After(file, namespaces, k - 1), file, namespaces);
      }
    }
  }

  lemma EndsInTime(file: seq<NodeData>, namespaces: set<nat>)
    requires Ends(file, namespaces)
    ensures After(file, namespaces, |file|).todo == []
  {
    forall j: nat
      ensures Moves(file, namespaces, j)
    {
      RoundsProgress(file, namespaces, j);
    }
    MovingEnds(file, namespaces, |file|);
  }

  lemma SettledStays(file: seq<NodeData>, namespaces: set<nat>, k: nat)
    requires After(file, namespaces, k).todo == []
    ensures After(file, namespaces, |file|) == After(file, namespaces, k)
  {
    hide After;
    EndsInTime(file, namespaces);
    SettledSame(file, namespaces, k, |file|);
  }

  /** A set of nodes that all wait for parents found only among themselves. */
  ghost predicate Knot(file: seq<NodeData>, namespaces: set<nat>, knot: set<NodeData>) {
    && knot != {}
    && forall nd | nd in knot ::
         nd in file && Waits(nd, file, namespaces) && forall m | m in file && m.nodeId == nd.parent.value :: m in knot
  }

  lemma KnotHasParents(file: seq<NodeData>, namespaces: set<nat>, knot: set<NodeData>, placed: seq<NodeData>,
                       nd: NodeData)
    requires Knot(file, namespaces, knot) && nd in knot
    requires Ready(nd, file, namespaces, placed) && forall m | m in placed :: m in file
    ensures exists m :: m in placed && m in knot
  {
    var m :| m in placed && m.nodeId == nd.parent.value;
    assert m in knot;
  }

  /** A list in order would have a first node of the knot. */
  lemma {:induction false} KnotIsNeverInOrder(file: seq<NodeData>, namespaces: set<nat>, knot: set<NodeData>,
                                              placed: seq<NodeData>, k: nat)
    requires Knot(file, namespaces, knot) && InOrder(placed, file, namespaces)
    requires forall m | m in placed :: m in file
    requires k <= |placed|
    ensures forall i | 0 <= i < k :: placed[i] !in knot
    decreases k
  {
    hide Knot, Ready;
    if k > 0 {
      KnotIsNeverInOrder(file, namespaces, knot, placed, k - 1);
      if placed[k - 1] in knot {
        assert forall m | m in placed[..k - 1] :: m in placed;
        KnotHasParents(file, namespaces, knot, placed[..k - 1], placed[k - 1]);
      }
    }
  }

  lemma KnotStays(file: seq<NodeData>, namespaces: set<nat>, knot: set<NodeData>, k: nat)
    requires Knot(file, namespaces, knot)
    ensures After(file, namespaces, k).todo != []
  {
    var nd :| nd in knot;
    assert nd in file;
    RoundsKeep(file, namespaces, k);
    var r := After(file, namespaces, k);
    hide After, Knot, InOrder;
    forall m | m in r.placed
      ensures m in file
    {
      RoundsShare(file, namespaces, k, m);
    }
    KnotIsNeverInOrder(file, namespaces, knot, r.placed, |r.placed|);
    RoundsShare(file, namespaces, k, nd);
  }

  /** The sorting ends exactly when the file has no knot, and then in at most one round for each node. */
  lemma EndsExactly(file: seq<NodeData>, namespaces: set<nat>)
    ensures Ends(file, namespaces) <==> !exists knot :: Knot(file, namespaces, knot)
    ensures Ends(file, namespaces) ==> After(file, namespaces, |file|).todo == []
  {
    if Ends(file, namespaces) {
      EndsInTime(file, namespaces);
      if knot :| Knot(file, namespaces, knot) {
        KnotStays(file, namespaces, knot, |file|);
      }
    } else if !exists knot :: Knot(file, namespaces, knot) {
      forall k: nat
        ensures Moves(file, namespaces, k)
      {
        UnknottedMoves(file, namespaces, k);
      }
      MovingEnds(file, namespaces, |file|);
    }
  }

  lemma UnknottedMoves(file: seq<NodeData>, namespaces: set<nat>, k: nat)
    requires !exists knot :: Knot(file, namespaces, knot)
    ensures Moves(file, namespaces, k)
  {
    var s := After(file, namespaces, k);
    if nd :| nd in s.todo && Ready(nd, file, namespaces, s.placed) {
      SomethingReady(s, file, namespaces, nd);
    } else if s.todo != [] {
      var knot := set nd | nd in s.todo;
      assert s.todo[0] in knot;
      forall nd | nd in s.todo
        ensures nd in file
      {
        RoundsShare(file, namespaces, k, nd);
      }
      forall nd, m | nd in knot && m in file && m.nodeId == nd.parent.value
        ensures m in knot
      {
        RoundsShare(file, namespaces, k, m);
        assert !Ready(nd, file, namespaces, s.placed);
      }
      hide After;
      var _ := Knot(file, namespaces, knot);
    }
  }

  /** Two nodes that name each other as parents are sorted for ever. */
  lemma CircularParentsNeverEnd()
    ensures exists file: seq<NodeData>, namespaces: set<nat> ::
            |file| == 2 && NoRepeats(file) && !Ends(file, namespaces)
  {
    var (a, b) := (NodeId(1, Numeric(1)), NodeId(1, Numeric(2)));
    var first := NodeData(0, a, Some(b), None, None, 1, []);
    var second := NodeData(1, b, Some(a), None, None, 1, []);
    var file := [first, second];
    assert file[0] == first && file[1] == second;
    assert HasId(file, a) && HasId(file, b);
    assert Knot(file, {1}, {first, second});
    EndsExactly(file, {1});
  }

  /** Parents that rank below their children are enough. */
  lemma RankedEnds(file: seq<NodeData>, namespaces: set<nat>, rank: map<NodeId, nat>)
    requires forall nd | nd in file && Waits(nd, file, namespaces) ::
               nd.nodeId in rank && nd.parent.value in rank && rank[nd.parent.value] < rank[nd.nodeId]
    ensures Ends(file, namespaces)
  {
    if knot :| Knot(file, namespaces, knot) {
      var nd :| nd in knot;
      RankDescends(file, namespaces, rank, knot, nd);
    }
    EndsExactly(file, namespaces);
  }

  lemma {:induction false} RankDescends(file: seq<NodeData>, namespaces: set<nat>, rank: map<NodeId, nat>,
                                        knot: set<NodeData>, nd: NodeData)
    requires forall n | n in file && Waits(n, file, namespaces) ::
               n.nodeId in rank && n.parent.value in rank && rank[n.parent.value] < rank[n.nodeId]
    requires Knot(file, namespaces, knot) && nd in knot
    ensures false
    decreases rank[nd.nodeId]
  {
    var m :| m in file && m.nodeId == nd.parent.value;
    RankDescends(file, namespaces, rank, knot, m);
  }

  // ----- What the sorted list is -----

  /** Every node that waits comes after a node with its parent's id. */
  predicate ParentFirst(nodes: seq<NodeData>, namespaces: set<nat>) {
    InOrder(nodes, nodes, namespaces)
  }

  lemma SameIdsSameOrder(nodes: seq<NodeData>, file: seq<NodeData>, other: seq<NodeData>, namespaces: set<nat>)
    requires forall nd :: nd in file <==> nd in other
    ensures InOrder(nodes, file, namespaces) == InOrder(nodes, other, namespaces)
  {
    assert forall id :: HasId(file, id) == HasId(other, id);
    hide HasId;
    assert forall nd :: Waits(nd, file, namespaces) == Waits(nd, other, namespaces);
  }

  /** The result has the nodes of the file, each as often as there, with parents first. */
  lemma SortedIsOrdered(file: seq<NodeData>, namespaces: set<nat>)
    requires Ends(file, namespaces)
    ensures var sorted := Sorted(file, namespaces);
            multiset(sorted) == multiset(file) && ParentFirst(sorted, namespaces)
  {
    EndsInTime(file, namespaces);
    RoundsKeep(file, namespaces, |file|);
    var sorted := Sorted(file, namespaces);
    hide After, InOrder;
    assert multiset(sorted) == multiset(file);
    forall nd
      ensures nd in file <==> nd in sorted
    {
      assert nd in multiset(file) <==> nd in multiset(sorted);
    }
    SameIdsSameOrder(sorted, file, sorted, namespaces);
  }

  /** So a node in a namespace of the file comes after its parent, if the file has that. */
  lemma ParentComesFirst(file: seq<NodeData>, namespaces: set<nat>, i: nat, m: NodeData)
    requires Ends(file, namespaces) && i < |Sorted(file, namespaces)|
    requires var nd := Sorted(file, namespaces)[i];
             nd.nodeId.namespaceIndex in namespaces && nd.parent == Some(m.nodeId) && m in file
    ensures var sorted := Sorted(file, namespaces);
            exists j :: 0 <= j < i && sorted[j].nodeId == m.nodeId
  {
    SortedIsOrdered(file, namespaces);
    var sorted := Sorted(file, namespaces);
    hide Sorted, Ends;
    assert m in sorted by { assert m in multiset(sorted); }
    assert Ready(sorted[i], sorted, namespaces, sorted[..i]);
    assert Waits(sorted[i], sorted, namespaces);
    var p :| p in sorted[..i] && p.nodeId == m.nodeId;
    var j :| 0 <= j < i && sorted[..i][j] == p;
    assert sorted[j].nodeId == m.nodeId;
  }

  lemma {:induction false} OrderedPass(file: seq<NodeData>, namespaces: set<nat>, todo: seq<NodeData>)
    requires InOrder(todo, file, namespaces)
    ensures Pass(State([], todo), file, namespaces) == State(todo, [])
    decreases |todo|
  {
    if todo != [] {
      var (front, last) := (todo[..|todo| - 1], todo[|todo| - 1]);
      assert todo == front + [last];
      forall i | 0 <= i < |front|
        ensures Ready(front[i], file, namespaces, front[..i])
      {
        assert front[..i] == todo[..i] && front[i] == todo[i];
      }
      OrderedPass(file, namespaces, front);
      assert todo[..|todo| - 1] == front;
      assert Ready(todo[|todo| - 1], file, namespaces, todo[..|todo| - 1]);
    }
  }

  /** A list is left as it is exactly when its parents already come first; so sorting again changes nothing. */
  lemma SortedIsFixed(file: seq<NodeData>, namespaces: set<nat>)
    ensures Ends(file, namespaces) && Sorted(file, namespaces) == file <==> ParentFirst(file, namespaces)
  {
    if ParentFirst(file, namespaces) {
      OrderedPass(file, namespaces, file);
      assert After(file, namespaces, 0) == State([], file);
      assert After(file, namespaces, 1) == State(file, []);
      SettledStays(file, namespaces, 1);
    }
    if Ends(file, namespaces) {
      SortedIsOrdered(file, namespaces);
    }
  }

  // ----- Nodes that wait for nothing -----

  /** The nodes of a list that wait for no parent in the file. */
  function Free(nodes: seq<NodeData>, file: seq<NodeData>, namespaces: set<nat>): seq<NodeData> {
    if nodes == [] then []
    else
      var last := nodes[|nodes| - 1];
      Free(nodes[..|nodes| - 1], file, namespaces)
      + if last.nodeId.namespaceIndex in namespaces && last.parent.Some? && HasId(file, last.parent.value) then []
        else [last]
  }

  lemma FreeAppend(nodes: seq<NodeData>, nd: NodeData, file: seq<NodeData>, namespaces: set<nat>)
    ensures Free(nodes + [nd], file, namespaces) ==
            Free(nodes, file, namespaces) + if Waits(nd, file, namespaces) then [] else [nd]
  {
    assert (nodes + [nd])[..|nodes|] == nodes;
  }

  lemma PassStep(s: State, file: seq<NodeData>, namespaces: set<nat>)
    requires s.todo != []
    ensures var last := s.todo[|s.todo| - 1];
            var before := Pass(State(s.placed, s.todo[..|s.todo| - 1]), file, namespaces);
            if Ready(last, file, namespaces, before.placed)
            then Pass(s, file, namespaces) == State(before.placed + [last], before.todo)
            else Pass(s, file, namespaces) == State(before.placed, before.todo + [last])
  {
    hide Ready;
  }

  lemma FreeIsReady(nd: NodeData, file: seq<NodeData>, namespaces: set<nat>, placed: seq<NodeData>)
    requires !Waits(nd, file, namespaces)
    ensures Ready(nd, file, namespaces, placed)
  {
  }

  lemma {:induction false} PassFree(s: State, file: seq<NodeData>, namespaces: set<nat>)
    ensures var after := Pass(s, file, namespaces);
            && Free(after.placed, file, namespaces) == Free(s.placed, file, namespaces) + Free(s.todo, file, namespaces)
            && Free(after.todo, file, namespaces) == []
    decreases |s.todo|
  {
    if s.todo == [] {
      assert Free(s.placed, file, namespaces) + [] == Free(s.placed, file, namespaces);
    } else {
      hide Free, Waits, Pass, Ready;
      var n := |s.todo| - 1;
      PassFree(State(s.placed, s.todo[..n]), file, namespaces);
      PassStep(s, file, namespaces);
      assert s.todo[..n] + [s.todo[n]] == s.todo;
      FreeStep(Pass(State(s.placed, s.todo[..n]), file, namespaces), s.placed, s.todo[..n], s.todo[n], file,
               namespaces);
    }
  }

  lemma FreeStep(before: State, placed: seq<NodeData>, todo: seq<NodeData>, last: NodeData,
                 file: seq<NodeData>, namespaces: set<nat>)
    requires Free(before.placed, file, namespaces) == Free(placed, file, namespaces) + Free(todo, file, namespaces)
    requires Free(before.todo, file, namespaces) == []
    ensures var all := Free(placed, file, namespaces) + Free(todo + [last], file, namespaces);
            if Ready(last, file, namespaces, before.placed)
            then Free(before.placed + [last], file, namespaces) == all
            else Free(before.placed, file, namespaces) == all && Free(before.todo + [last], file, namespaces) == []
  {
    hide Free, Waits, Ready;
    FreeAppend(before.placed, last, file, namespaces);
    FreeAppend(before.todo, last, file, namespaces);
    FreeAppend(todo, last, file, namespaces);
    if Waits(last, file, namespaces) {
      assert Free(todo, file, namespaces) + [] == Free(todo, file, namespaces);
      assert Free(before.placed, file, namespaces) + [] == Free(before.placed, file, namespaces);
    } else {
      FreeIsReady(last, file, namespaces, before.placed);
      Regrouped(Free(placed, file, namespaces), Free(todo, file, namespaces), last);
    }
  }

  lemma Regrouped(a: seq<NodeData>, b: seq<NodeData>, nd: NodeData)
    ensures (a + b) + [nd] == a + (b + [nd])
  {
  }

  lemma {:induction false} RoundsFree(file: seq<NodeData>, namespaces: set<nat>, passes: nat)
    requires passes > 0
    ensures var s := After(file, namespaces, passes);
            Free(s.placed, file, namespaces) == Free(file, file, namespaces) && Free(s.todo, file, namespaces) == []
  {
    hide Pass;
    PassFree(After(file, namespaces, passes - 1), file, namespaces);
    if passes > 1 {
      RoundsFree(file, namespaces, passes - 1);
      assert Free(file, file, namespaces) + [] == Free(file, file, namespaces);
    } else {
      assert After(file, namespaces, 0) == State([], file);
      assert Free([], file, namespaces) + Free(file, file, namespaces) == Free(file, file, namespaces);
    }
  }

  /** The nodes that wait for nothing keep the order of the file among themselves. */
  lemma FreeNodesKeepOrder(file: seq<NodeData>, namespaces: set<nat>)
    ensures Free(Sorted(file, namespaces), file, namespaces) == Free(file, file, namespaces)
  {
    if file != [] {
      RoundsFree(file, namespaces, |file|);
    } else {
      assert Sorted(file, namespaces) == [];
    }
  }
}
