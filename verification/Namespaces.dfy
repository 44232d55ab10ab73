/** Namespace indices across servers: the exporter's re-indexing and the importer's way back. */
module Namespaces {

  // ----- The server's namespace array -----

  function IndexOf(uris: seq<string>, uri: string): (i: nat)
    requires uri in uris
    ensures i < |uris| && uris[i] == uri && forall k | 0 <= k < i :: uris[k] != uri
  {
    if uris[0] == uri then 0 else IndexOf(uris[1..], uri) + 1
  }

  function Register(uris: seq<string>, uri: string): (seq<string>, nat) {
    if uri in uris then (uris, IndexOf(uris, uri)) else (uris + [uri], |uris|)
  }

  class Server {
    var namespaceArray: seq<string>

    constructor (uris: seq<string>)
      ensures namespaceArray == uris
    {
      namespaceArray := uris;
    }

    method RegisterNamespace(uri: string) returns (index: nat)
      modifies this
      ensures (namespaceArray, index) == Register(old(namespaceArray), uri)
    {
      var uris := namespaceArray;
      if uri in uris {
        return IndexOf(uris, uri);
      }
      uris := uris + [uri];
      namespaceArray := uris;
      return |uris| - 1;
    }
  }

  // ----- Import: from the file's indices to the server's -----

  /** The server's array and the map after the URIs of a file have been registered in turn. */
  function MapNamespaces(server: seq<string>, file: seq<string>): (seq<string>, map<nat, nat>)
    decreases |file|
  {
    if file == [] then (server, map[])
    else
      var (before, namespaces) := MapNamespaces(server, file[..|file| - 1]);
      var (after, index) := Register(before, file[|file| - 1]);
      (after, namespaces[|file| := index])
  }

  function Reindex(indices: map<nat, nat>, index: nat): nat {
    if index in indices then indices[index] else index
  }

  class XmlImporter {
    const server: Server
    var namespaces: map<nat, nat>

    constructor (server: Server)
      ensures this.server == server && namespaces == map[]
    {
      this.server := server;
      namespaces := map[];
    }

    method MapFileNamespaces(uris: seq<string>)
      modifies this, server
      ensures (server.namespaceArray, namespaces) == MapNamespaces(old(server.namespaceArray), uris)
    {
      var found: map<nat, nat> := map[];
      for i := 0 to |uris|
        modifies server
        invariant (server.namespaceArray, found) == MapNamespaces(old(server.namespaceArray), uris[..i])
      {
        var index := server.RegisterNamespace(uris[i]);
        found := found[i + 1 := index];
        assert uris[..i + 1][..i] == uris[..i];
      }
      assert uris[..|uris|] == uris;
      namespaces := found;
    }
  }

  // ----- Export: from the server's indices to the file's -----

  /** The namespace indices that one exported node brings along. */
  datatype Used = Used(nodeId: nat, browseName: nat, references: seq<nat>) {
    function All(): set<nat> {
      {nodeId, browseName} + set r | r in references
    }
  }

  function AllUsed(nodes: seq<Used>): set<nat> {
    set n, i | n in nodes && i in n.All() :: i
  }

  function UriIndices(uris: seq<string>, nsArray: seq<string>): set<nat> {
    set u | u in uris && u in nsArray :: IndexOf(nsArray, u)
  }

  predicate NoRepeats<T(==)>(s: seq<T>) {
    forall i, j | 0 <= i < j < |s| :: s[i] != s[j]
  }

  function Insert(x: nat, s: seq<nat>): seq<nat> {
    if s == [] || x <= s[0] then [x] + s else [s[0]] + Insert(x, s[1..])
  }

  /** list.sort */
  function Sort(s: seq<nat>): seq<nat> {
    if s == [] then [] else Insert(s[0], Sort(s[1..]))
  }

  /** The sorted indices before the first one outside the array. */
  function Kept(sorted: seq<nat>, size: nat): seq<nat> {
    if sorted == [] || sorted[0] >= size then [] else [sorted[0]] + Kept(sorted[1..], size)
  }

  /** From server index to file index: a position in the list, counted from 1. */
  function Positions(kept: seq<nat>): map<nat, nat>
    decreases |kept|
  {
    if kept == [] then map[0 := 0]
    else Positions(kept[..|kept| - 1])[kept[|kept| - 1] := |kept|]
  }

  predicate InArray(indices: seq<nat>, nsArray: seq<string>) {
    forall k | 0 <= k < |indices| :: indices[k] == 0 || indices[k] < |nsArray|
  }

  /** The URIs of these indices, index 0 left out. */
  function UrisOf(indices: seq<nat>, nsArray: seq<string>): seq<string>
    requires InArray(indices, nsArray)
    decreases |indices|
  {
    if indices == [] then []
    else
      var last := indices[|indices| - 1];
      UrisOf(indices[..|indices| - 1], nsArray) + (if last != 0 then [nsArray[last]] else [])
  }

  /** The members of a set below a bound, in order. */
  function Ascending(s: set<nat>, bound: nat): (r: seq<nat>)
    ensures Increasing(r) && (forall i :: i in r <==> i in s && i < bound)
    ensures forall k | 0 <= k < |r| :: r[k] < bound
  {
    if bound == 0 then [] else Ascending(s, bound - 1) + (if bound - 1 in s then [bound - 1] else [])
  }

  /** What the exporter's file lists: the used indices other than 0, and the indices of the given URIs. */
  function Listed(nodes: seq<Used>, uris: seq<string>, nsArray: seq<string>): seq<nat> {
    Ascending(AllUsed(nodes) - {0} + UriIndices(uris, nsArray), |nsArray|)
  }

  predicate Increasing(s: seq<nat>) {
    forall i, j | 0 <= i < j < |s| :: s[i] < s[j]
  }

  lemma ConsIncreasing(x: nat, rest: seq<nat>)
    requires Increasing(rest) && forall i | i in rest :: x < i
    ensures Increasing([x] + rest) && forall i :: i in [x] + rest <==> i in rest || i == x
  {
    assert forall k | 0 <= k < |rest| :: rest[k] in rest;
  }

  lemma TailIncreasing(s: seq<nat>)
    requires Increasing(s) && s != []
    ensures Increasing(s[1..]) && (forall i | i in s[1..] :: s[0] < i) && forall i :: i in s <==>
            i in s[1..] || i == s[0]
  {
    assert s == [s[0]] + s[1..];
  }

  lemma {:induction false} InsertSorted(x: nat, s: seq<nat>)
    requires Increasing(s) && x !in s
    ensures Increasing(Insert(x, s)) && forall i :: i in Insert(x, s) <==> i in s || i == x
  {
    hide Increasing;
    if s == [] {
      ConsIncreasing(x, s);
    } else {
      TailIncreasing(s);
      if x <= s[0] {
        ConsIncreasing(x, s);
      } else {
        InsertSorted(x, s[1..]);
        ConsIncreasing(s[0], Insert(x, s[1..]));
      }
    }
  }

  lemma {:induction false} SortSorts(s: seq<nat>)
    requires NoRepeats(s)
    ensures Increasing(Sort(s)) && forall i :: i in Sort(s) <==> i in s
  {
    if s != [] {
      SortSorts(s[1..]);
      assert s == [s[0]] + s[1..];
      assert s[0] !in s[1..];
      InsertSorted(s[0], Sort(s[1..]));
    }
  }

  lemma {:induction false} SameIncreasing(s: seq<nat>, t: seq<nat>)
    requires Increasing(s) && Increasing(t) && forall i :: i in s <==> i in t
    ensures s == t
    decreases |s|
  {
    assert (s != [] ==> s[0] in t) && (t != [] ==> t[0] in s);
    if s != [] {
      TailIncreasing(s);
      TailIncreasing(t);
      hide Increasing;
      assert s[0] == t[0];
      SameIncreasing(s[1..], t[1..]) by {
        forall i: nat
          ensures i in s[1..] <==> i in t[1..]
        {
          assert i in s <==> i in t;
        }
      }
      assert s == [s[0]] + s[1..] && t == [t[0]] + t[1..];
    }
  }

  lemma LastIsNew(s: seq<nat>, last: nat)
    requires Increasing(s) && s != [] && last == s[|s| - 1]
    ensures Increasing(s[..|s| - 1]) && forall i :: i in s[..|s| - 1] <==> i in s && i != last
  {
    assert s == s[..|s| - 1] + [last];
  }

  lemma {:induction false} KeptIsBelow(s: seq<nat>, size: nat)
    requires Increasing(s)
    ensures Increasing(Kept(s, size)) && forall i :: i in Kept(s, size) <==> i in s && i < size
  {
    var nothing: seq<nat> := [];
    assert Increasing(nothing);
    hide Increasing;
    if s != [] {
      TailIncreasing(s);
      if s[0] < size {
        KeptIsBelow(s[1..], size);
        ConsIncreasing(s[0], Kept(s[1..], size));
      }
    }
  }

  lemma Regroup(sorted: seq<nat>, k: nat, rest: seq<nat>)
    requires k < |sorted|
    ensures sorted[..k] + ([sorted[k]] + rest) == sorted[..k + 1] + rest
  {
  }

  lemma KeptIsListed(idxs: seq<nat>, nodes: seq<Used>, uris: seq<string>, nsArray: seq<string>)
    requires NoRepeats(idxs) && forall i :: i in idxs <==>
             (i in AllUsed(nodes) && i != 0) || i in UriIndices(uris, nsArray)
    ensures Kept(Sort(idxs), |nsArray|) == Listed(nodes, uris, nsArray)
  {
    hide Sort, Kept, Ascending, NoRepeats, Increasing, AllUsed, UriIndices;
    SortSorts(idxs);
    KeptIsBelow(Sort(idxs), |nsArray|);
    SameIncreasing(Kept(Sort(idxs), |nsArray|), Listed(nodes, uris, nsArray));
  }

  lemma {:induction false} PositionsAt(kept: seq<nat>)
    requires Increasing(kept)
    ensures forall i :: i in Positions(kept) <==> i in kept || i == 0
    ensures forall k | 0 <= k < |kept| :: Positions(kept)[kept[k]] == k + 1
    ensures 0 !in kept ==> Positions(kept)[0] == 0
    decreases |kept|
  {
    if kept != [] {
      var (shorter, last) := (kept[..|kept| - 1], kept[|kept| - 1]);
      LastIsNew(kept, last);
      PositionsAt(shorter);
      var before := Positions(shorter);
      assert Positions(kept) == before[last := |kept|];
      hide Positions, Increasing;
      forall k | 0 <= k < |kept|
        ensures Positions(kept)[kept[k]] == k + 1
      {
        if k < |shorter| {
          assert shorter[k] == kept[k] && shorter[k] in shorter;
        }
      }
    }
  }

  lemma JoinInArray(a: seq<nat>, b: seq<nat>, nsArray: seq<string>)
    requires InArray(a, nsArray) && InArray(b, nsArray)
    ensures InArray(a + b, nsArray)
  {
  }

  lemma {:induction false} UrisOfSplit(a: seq<nat>, b: seq<nat>, nsArray: seq<string>)
    requires InArray(a, nsArray) && InArray(b, nsArray)
    ensures InArray(a + b, nsArray)
    ensures UrisOf(a + b, nsArray) == UrisOf(a, nsArray) + UrisOf(b, nsArray)
    decreases |b|
  {
    JoinInArray(a, b, nsArray);
    if b == [] {
      assert a + b == a;
    } else {
      var (shorter, last) := (b[..|b| - 1], b[|b| - 1]);
      assert b == shorter + [last];
      assert InArray(shorter, nsArray);
      UrisOfSplit(a, shorter, nsArray);
      assert (a + b)[..|a + b| - 1] == a + shorter && (a + b)[|a + b| - 1] == last;
      hide InArray;
    }
  }

  /** The keys of the map are the listed indices and 0, which is not exported either way. */
  lemma KeysOfPositions(keys: seq<nat>, listed: seq<nat>, nsArray: seq<string>)
    requires Increasing(keys) && Increasing(listed) && forall i :: i in keys <==> i in Positions(listed)
    requires InArray(listed, nsArray)
    ensures InArray(keys, nsArray) && UrisOf(keys, nsArray) == UrisOf(listed, nsArray)
  {
    PositionsAt(listed);
    hide Positions;
    if 0 in listed {
      SameIncreasing(keys, listed);
    } else {
      assert Increasing([0] + listed);
      SameIncreasing(keys, [0] + listed);
      UrisOfSplit([0], listed, nsArray);
    }
  }

  class XmlExporter {
    var addrIdxToXmlIdx: map<nat, nat>

    constructor ()
      ensures addrIdxToXmlIdx == map[]
    {
      addrIdxToXmlIdx := map[];
    }

    /** Every index other than 0 used by the nodes, once; a set is listed in no particular order. */
    method NsIdxsOfNodes(nodes: seq<Used>) returns (idxs: seq<nat>)
      ensures NoRepeats(idxs) && forall i :: i in idxs <==> i in AllUsed(nodes) && i != 0
    {
      idxs := [];
      for k := 0 to |nodes|
        invariant NoRepeats(idxs) && forall i :: i in idxs <==> i in AllUsed(nodes[..k]) && i != 0
      {
        var todo := nodes[k].All();
        assert nodes[..k + 1] == nodes[..k] + [nodes[k]];
        assert AllUsed(nodes[..k + 1]) == AllUsed(nodes[..k]) + todo;
        while todo != {}
          invariant NoRepeats(idxs)
          invariant forall i :: i in idxs || (i in todo && i != 0) <==> i in AllUsed(nodes[..k + 1]) && i != 0
          decreases todo
        {
          var i :| i in todo;
          todo := todo - {i};
          if i != 0 && i !in idxs {
            idxs := idxs + [i];
          }
        }
      }
      assert nodes[..|nodes|] == nodes;
    }

    method AddIdxsFromUris(idxs: seq<nat>, uris: seq<string>, nsArray: seq<string>) returns (all: seq<nat>)
      requires NoRepeats(idxs)
      ensures NoRepeats(all) && forall i :: i in all <==> i in idxs || i in UriIndices(uris, nsArray)
    {
      all := idxs;
      for k := 0 to |uris|
        invariant NoRepeats(all) && forall i :: i in all <==> i in idxs || i in UriIndices(uris[..k], nsArray)
      {
        assert uris[..k + 1] == uris[..k] + [uris[k]];
        if uris[k] in nsArray {
          var i := IndexOf(nsArray, uris[k]);
          assert UriIndices(uris[..k + 1], nsArray) == UriIndices(uris[..k], nsArray) + {i};
          if i !in all {
            all := all + [i];
          }
        } else {
          assert UriIndices(uris[..k + 1], nsArray) == UriIndices(uris[..k], nsArray);
        }
      }
      assert uris[..|uris|] == uris;
    }

    method MakeIdxDict(idxs: seq<nat>, nsArray: seq<string>) returns (dict: map<nat, nat>)
      ensures dict == Positions(Kept(Sort(idxs), |nsArray|))
    {
      var sorted := Sort(idxs);
      dict := map[0 := 0];
      for xmlIdx := 0 to |sorted|
        invariant dict == Positions(sorted[..xmlIdx])
        invariant Kept(sorted, |nsArray|) == sorted[..xmlIdx] + Kept(sorted[xmlIdx..], |nsArray|)
      {
        var addrIdx := sorted[xmlIdx];
        if addrIdx >= |nsArray| {
          assert sorted[..xmlIdx] + [] == sorted[..xmlIdx];
          return;
        }
        dict := dict[addrIdx := xmlIdx + 1];
        assert sorted[..xmlIdx + 1][..xmlIdx] == sorted[..xmlIdx];
        assert sorted[xmlIdx..][1..] == sorted[xmlIdx + 1..];
        Regroup(sorted, xmlIdx, Kept(sorted[xmlIdx + 1..], |nsArray|));
      }
      assert sorted[..|sorted|] + [] == sorted[..|sorted|];
    }

    /** The map from server to file indices, and the URIs to write. */
    method AddNamespaces(nodes: seq<Used>, uris: seq<string>, nsArray: seq<string>) returns (toExport: seq<string>)
      modifies this
      ensures addrIdxToXmlIdx == Positions(Listed(nodes, uris, nsArray))
      ensures toExport == UrisOf(Listed(nodes, uris, nsArray), nsArray)
    {
      hide Sort, Kept, AllUsed, UriIndices, NoRepeats, Positions, Increasing;
      var idxs := NsIdxsOfNodes(nodes);
      idxs := AddIdxsFromUris(idxs, uris, nsArray);
      addrIdxToXmlIdx := MakeIdxDict(idxs, nsArray);
      ghost var listed := Listed(nodes, uris, nsArray);
      KeptIsListed(idxs, nodes, uris, nsArray);
      var keys := SortedKeys(addrIdxToXmlIdx);
      KeysOfPositions(keys, listed, nsArray);
      assert InArray(keys, nsArray);
      toExport := [];
      for k := 0 to |keys|
        modifies {}
        invariant toExport == UrisOf(keys[..k], nsArray)
      {
        assert keys[..k + 1][..k] == keys[..k];
        if keys[k] != 0 {
          toExport := toExport + [nsArray[keys[k]]];
        }
      }
      assert keys[..|keys|] == keys;
    }

    method SortedKeys(dict: map<nat, nat>) returns (keys: seq<nat>)
      ensures Increasing(keys) && forall i :: i in keys <==> i in dict
    {
      var todo := dict.Keys;
      var listed: seq<nat> := [];
      while todo != {}
        invariant NoRepeats(listed)
        invariant forall i :: i in dict <==> i in todo || i in listed
        invariant forall i :: i in listed ==> i !in todo
        decreases todo
      {
        var i :| i in todo;
        todo := todo - {i};
        listed := listed + [i];
      }
      SortSorts(listed);
      keys := Sort(listed);
    }
  }

  // ----- Out and in again -----

  lemma {:induction false} UrisOfAll(kept: seq<nat>, nsArray: seq<string>)
    requires InArray(kept, nsArray) && 0 !in kept
    ensures |UrisOf(kept, nsArray)| == |kept|
    ensures forall k | 0 <= k < |kept| :: kept[k] < |nsArray| && UrisOf(kept, nsArray)[k] == nsArray[kept[k]]
    decreases |kept|
  {
    if kept != [] {
      var (shorter, last) := (kept[..|kept| - 1], kept[|kept| - 1]);
      UrisOfAll(shorter, nsArray);
      assert kept == shorter + [last];
      assert UrisOf(kept, nsArray) == UrisOf(shorter, nsArray) + [nsArray[last]];
    }
  }

  /** Registering a file's URIs only appends, and maps every file index to its own URI. */
  lemma {:induction false} MapNamespacesGives(server: seq<string>, file: seq<string>)
    ensures var (after, m) := MapNamespaces(server, file);
            && server <= after
            && (NoRepeats(server) ==> NoRepeats(after))
            && (forall k :: k in m <==> 1 <= k <= |file|)
            && (forall k | 1 <= k <= |file| :: m[k] < |after| && after[m[k]] == file[k - 1])
            && ((forall u | u in file :: u in server) ==> after == server)
    decreases |file|
  {
    if file != [] {
      var shorter := file[..|file| - 1];
      MapNamespacesGives(server, shorter);
      assert forall k | 0 <= k < |shorter| :: shorter[k] == file[k];
      assert forall u :: u in shorter ==> u in file;
      assert file[|file| - 1] in file;
    }
  }

  /** A namespace index of a node's id, of its browse name, or of the target of one of its references. */
  predicate IsUsed(nodes: seq<Used>, index: nat) {
    exists n :: n in nodes && (n.nodeId == index || n.browseName == index || index in n.references)
  }

  lemma AllUsedIs(nodes: seq<Used>, index: nat)
    ensures index in AllUsed(nodes) <==> IsUsed(nodes, index)
  {
    if n :| n in nodes && (n.nodeId == index || n.browseName == index || index in n.references) {
      assert index in n.All();
    }
  }

  /** Where an index ends up in the target's array, through the file of this export. */
  function Carried(nodes: seq<Used>, uris: seq<string>, source: seq<string>, target: seq<string>, index: nat)
    : (seq<string>, nat) {
    var listed := Listed(nodes, uris, source);
    var (after, namespaces) := MapNamespaces(target, UrisOf(listed, source));
    (after, Reindex(namespaces, Reindex(Positions(listed), index)))
  }

  predicate SameUri(source: seq<string>, index: nat, after: seq<string>, carried: nat) {
    index < |source| && carried < |after| && after[carried] == source[index]
  }

  /**
   An index used by a node, or 0, names the same URI after export and import, whatever the target
   knew before; nothing that the target knew moves.
   */
  lemma CarriesUri(nodes: seq<Used>, uris: seq<string>, source: seq<string>, target: seq<string>, index: nat)
    requires source != [] && target != [] && source[0] == target[0]
    requires source[0] !in uris
    requires index < |source| && (index == 0 || IsUsed(nodes, index))
    ensures var (after, carried) := Carried(nodes, uris, source, target, index);
            SameUri(source, index, after, carried) && target <= after
  {
    var listed := Listed(nodes, uris, source);
    AllUsedIs(nodes, index);
    hide Listed, Positions, UrisOf, MapNamespaces, NoRepeats, AllUsed, IsUsed;
    ListedFacts(nodes, uris, source);
    var file := UrisOf(listed, source);
    PositionsAt(listed);
    UrisOfAll(listed, source);
    MapNamespacesGives(target, file);
    if index != 0 {
      var k :| 0 <= k < |listed| && listed[k] == index;
      assert file[k] == source[index];
    }
  }

  lemma ListedFacts(nodes: seq<Used>, uris: seq<string>, source: seq<string>)
    requires source != []
    ensures var listed := Listed(nodes, uris, source);
            && Increasing(listed) && InArray(listed, source)
            && (0 in listed <==> source[0] in uris)
            && (forall i | i in AllUsed(nodes) && i != 0 && i < |source| :: i in listed)
            && forall i | i in listed :: i < |source|
  {
    assert IndexOf(source, source[0]) == 0;
  }

  lemma ZeroFirst(listed: seq<nat>, source: seq<string>)
    requires Increasing(listed) && InArray(listed, source) && 0 in listed
    ensures listed[0] == 0 && 0 !in listed[1..] && InArray(listed[1..], source)
    ensures UrisOf(listed, source) == UrisOf(listed[1..], source)
  {
    var rest := listed[1..];
    assert listed == [0] + rest;
    UrisOfSplit([0], rest, source);
    assert [] + UrisOf(rest, source) == UrisOf(rest, source);
  }

  /** If a given URI names index 0, every file index is one too high, and 0 itself is lost. */
  lemma IndexZeroShifts(nodes: seq<Used>, uris: seq<string>, source: seq<string>, target: seq<string>)
    requires source != [] && target != [] && source[0] == target[0]
    requires NoRepeats(source) && NoRepeats(target)
    requires source[0] in uris
    ensures var (after, carried) := Carried(nodes, uris, source, target, 0);
            !SameUri(source, 0, after, carried)
  {
    var listed := Listed(nodes, uris, source);
    hide Listed, Positions, MapNamespaces;
    ListedFacts(nodes, uris, source);
    PositionsAt(listed);
    var rest := listed[1..];
    ZeroFirst(listed, source);
    UrisOfAll(rest, source);
    var file := UrisOf(rest, source);
    hide UrisOf;
    MapNamespacesGives(target, file);
    var after := MapNamespaces(target, file).0;
    if rest != [] {
      assert file[0] == source[rest[0]];
      assert rest[0] == listed[1];
      assert file[0] != source[0];
    } else {
      assert after == target;
    }
  }

  /**
   Every index used by the nodes, and 0, keeps its URI through export and import if and only if none
   of the URIs given to the exporter is the one at index 0.
   */
  lemma NamespaceRoundTrip(nodes: seq<Used>, uris: seq<string>, source: seq<string>, target: seq<string>)
    requires source != [] && target != [] && source[0] == target[0]
    requires NoRepeats(source) && NoRepeats(target)
    ensures source[0] !in uris <==>
              forall i: nat | i < |source| && (i == 0 || IsUsed(nodes, i)) ::
                SameUri(source, i, Carried(nodes, uris, source, target, i).0, Carried(nodes, uris, source, target, i).1)
  {
    if source[0] !in uris {
      forall i: nat | i < |source| && (i == 0 || IsUsed(nodes, i))
        ensures SameUri(source, i, Carried(nodes, uris, source, target, i).0, Carried(nodes, uris, source, target, i).1)
      {
        CarriesUri(nodes, uris, source, target, i);
      }
    } else {
      IndexZeroShifts(nodes, uris, source, target);
    }
  }

  lemma SamePlace(uris: seq<string>, i: nat, j: nat)
    requires NoRepeats(uris) && i < |uris| && j < |uris| && uris[i] == uris[j]
    ensures i == j
  {
  }

  /** Back on the same server an index is itself again, and the array is as it was. */
  lemma SameServerIdentity(nodes: seq<Used>, uris: seq<string>, source: seq<string>, index: nat)
    requires source != [] && NoRepeats(source) && source[0] !in uris
    requires index < |source| && (index == 0 || IsUsed(nodes, index))
    ensures Carried(nodes, uris, source, source, index) == (source, index)
  {
    CarriesUri(nodes, uris, source, source, index);
    var listed := Listed(nodes, uris, source);
    hide Listed, Positions, UrisOf, MapNamespaces, AllUsed, NoRepeats, Increasing;
    ListedFacts(nodes, uris, source);
    UrisOfAll(listed, source);
    var file := UrisOf(listed, source);
    MapNamespacesGives(source, file);
    forall u | u in file
      ensures u in source
    {
      var k :| 0 <= k < |file| && file[k] == u;
      assert u == source[listed[k]];
    }
    SamePlace(source, index, Carried(nodes, uris, source, source, index).1);
  }

  /** An index outside the array, which names no URI, keeps its number. */
  lemma OutsideIsKept(nodes: seq<Used>, uris: seq<string>, source: seq<string>, target: seq<string>, index: nat)
    requires source != [] && source[0] !in uris && index >= |source|
    ensures Carried(nodes, uris, source, target, index).1 == index
  {
    var listed := Listed(nodes, uris, source);
    hide Listed, Positions, UrisOf, MapNamespaces, AllUsed;
    ListedFacts(nodes, uris, source);
    PositionsAt(listed);
    UrisOfAll(listed, source);
    IncreasingIsShort([0] + listed, |source|);
    MapNamespacesGives(target, UrisOf(listed, source));
  }

  lemma {:induction false} IncreasingIsShort(s: seq<nat>, bound: nat)
    requires Increasing(s) && forall k | 0 <= k < |s| :: s[k] < bound
    ensures |s| <= bound
    decreases |s|
  {
    if s != [] {
      IncreasingIsShort(s[..|s| - 1], s[|s| - 1]);
    }
  }
}
