/** Several historized nodes: the stores agree as long as no two nodes share a table. */
module HistoryNodes {
  import opened NodeIds
  import opened History

  // ----- The name of a node's table -----

  function Decimal(n: nat): string {
    if n < 10 then [DIGITS[n]] else Decimal(n / 10) + [DIGITS[n % 10]]
  }

  const DIGITS: string := "0123456789"

  /** The text of an identifier; that of a byte string is Python's repr, given as a function. */
  function Str(id: Identifier, repr: seq<nat> -> string): string {
    match id
    case Numeric(n) => Decimal(n)
    case Text(s) => s
    case ByteString(b) => repr(b)
  }

  function TableName(node: NodeId, repr: seq<nat> -> string): string {
    Decimal(node.namespaceIndex) + "_" + Str(node.identifier, repr)
  }

  lemma {:induction false} DecimalHasDigits(n: nat)
    ensures Decimal(n) != "" && forall i | 0 <= i < |Decimal(n)| :: '0' <= Decimal(n)[i] <= '9'
  {
    if n >= 10 {
      DecimalHasDigits(n / 10);
    }
  }

  lemma {:induction false} DecimalIsInjective(a: nat, b: nat)
    requires Decimal(a) == Decimal(b)
    ensures a == b
    decreases a
  {
    var (x, y) := (Decimal(a), Decimal(b));
    assert x[|x| - 1] == DIGITS[a % 10] && y[|y| - 1] == DIGITS[b % 10];
    if a >= 10 {
      DecimalHasDigits(a / 10);
      assert x[..|x| - 1] == Decimal(a / 10);
      assert b >= 10 && y[..|y| - 1] == Decimal(b / 10);
      DecimalIsInjective(a / 10, b / 10);
    }
  }

  /** Only the first underscore ends the namespace index. */
  lemma SameBefore(a: string, b: string, s: string, t: string)
    requires '_' !in a && '_' !in b && a + "_" + s == b + "_" + t
    ensures a == b && s == t
  {
    FirstUnderscore(a, s);
    FirstUnderscore(b, t);
    var x := a + "_" + s;
    assert |a| == |b|;
    assert a == x[..|a|] && b == x[..|b|] && s == x[|a| + 1..] && t == x[|b| + 1..];
  }

  lemma FirstUnderscore(a: string, s: string)
    requires '_' !in a
    ensures var x := a + "_" + s;
            x[|a|] == '_' && forall i | 0 <= i < |a| :: x[i] != '_'
  {
    assert forall i | 0 <= i < |a| :: (a + "_" + s)[i] == a[i];
  }

  /** Nodes with numbers for identifiers have tables of their own. */
  lemma NumbersOwnTables(a: NodeId, b: NodeId, repr: seq<nat> -> string)
    requires a.identifier.Numeric? && b.identifier.Numeric? && TableName(a, repr) == TableName(b, repr)
    ensures a == b
  {
    DecimalHasDigits(a.namespaceIndex);
    DecimalHasDigits(b.namespaceIndex);
    SameBefore(Decimal(a.namespaceIndex), Decimal(b.namespaceIndex), Str(a.identifier, repr), Str(b.identifier, repr));
    DecimalIsInjective(a.namespaceIndex, b.namespaceIndex);
    DecimalIsInjective(a.identifier.n, b.identifier.n);
  }

  lemma TableNameExample(repr: seq<nat> -> string)
    ensures TableName(NodeId(2, Numeric(2045)), repr) == "2_2045"
  {
    assert Decimal(2045) == "2045" by {
      assert Decimal(2) == "2" && Decimal(20) == "20" && Decimal(204) == "204";
    }
    assert Decimal(2) == "2";
  }

  // ----- Saves of several nodes -----

  datatype NodeSaving<+V> = NodeSaving(node: NodeId, saving: Saving<V>)

  function DictAll<V>(limits: map<NodeId, Limits>, saves: seq<NodeSaving<V>>): (r: map<NodeId, seq<DataValue<V>>>)
    requires forall s | s in saves :: s.node in limits
    ensures r.Keys == limits.Keys
  {
    if saves == [] then map n | n in limits :: []
    else
      var (front, last) := (saves[..|saves| - 1], saves[|saves| - 1]);
      assert forall s | s in front :: s in saves;
      assert last in saves;
      var before := DictAll(limits, front);
      before[last.node := DictSave(before[last.node], last.saving.dv, limits[last.node], last.saving.now)]
  }

  function Tables(limits: map<NodeId, Limits>, name: NodeId -> string): set<string> {
    set n | n in limits :: name(n)
  }

  function SqlAll<V>(limits: map<NodeId, Limits>, name: NodeId -> string, saves: seq<NodeSaving<V>>)
    : (r: map<string, seq<DataValue<V>>>)
    requires forall s | s in saves :: s.node in limits
    ensures r.Keys == Tables(limits, name)
  {
    if saves == [] then map t | t in Tables(limits, name) :: []
    else
      var (front, last) := (saves[..|saves| - 1], saves[|saves| - 1]);
      assert forall s | s in front :: s in saves;
      assert last in saves;
      var before := SqlAll(limits, name, front);
      before[name(last.node) := SqlSave(before[name(last.node)], last.saving.dv, limits[last.node], last.saving.now)]
  }

  /** The saves of one node. */
  function Of<V>(saves: seq<NodeSaving<V>>, node: NodeId): seq<Saving<V>> {
    if saves == [] then []
    else
      var last := saves[|saves| - 1];
      Of(saves[..|saves| - 1], node) + (if last.node == node then [last.saving] else [])
  }

  ghost predicate Regular<V>(limits: map<NodeId, Limits>, saves: seq<NodeSaving<V>>) {
    && (forall s | s in saves :: s.node in limits)
    && forall n | n in limits :: Strict(Values(Of(saves, n))) && ClockNeverFalls(Of(saves, n))
  }

  predicate OwnTables(limits: map<NodeId, Limits>, name: NodeId -> string) {
    forall n, m | n in limits && m in limits && name(n) == name(m) :: n == m
  }

  ghost predicate Agree<V>(limits: map<NodeId, Limits>, name: NodeId -> string, saves: seq<NodeSaving<V>>)
    requires forall s | s in saves :: s.node in limits
  {
    forall n | n in limits :: DictAll(limits, saves)[n] == SqlAll(limits, name, saves)[name(n)]
  }

  lemma {:induction false} DictProjects<V>(limits: map<NodeId, Limits>, saves: seq<NodeSaving<V>>, node: NodeId)
    requires (forall s | s in saves :: s.node in limits) && node in limits
    ensures DictAll(limits, saves)[node] == DictRun(Of(saves, node), limits[node])
    decreases |saves|
  {
    hide DictSave;
    if saves != [] {
      var (front, last) := (saves[..|saves| - 1], saves[|saves| - 1]);
      assert forall s | s in front :: s in saves;
      DictProjects(limits, front, node);
      OfStep(saves, node);
      if last.node == node {
        DictRunStep(Of(front, node), last.saving, limits[node]);
      }
    }
  }

  lemma {:induction false} SqlProjects<V>(limits: map<NodeId, Limits>, name: NodeId -> string,
                                          saves: seq<NodeSaving<V>>, node: NodeId)
    requires (forall s | s in saves :: s.node in limits) && node in limits && OwnTables(limits, name)
    ensures SqlAll(limits, name, saves)[name(node)] == SqlRun(Of(saves, node), limits[node])
    decreases |saves|
  {
    hide SqlSave;
    if saves != [] {
      var (front, last) := (saves[..|saves| - 1], saves[|saves| - 1]);
      assert last in saves && forall s | s in front :: s in saves;
      SqlProjects(limits, name, front, node);
      OfStep(saves, node);
      if last.node == node {
        SqlRunStep(Of(front, node), last.saving, limits[node]);
      } else {
        assert name(last.node) != name(node);
      }
    }
  }

  lemma OfStep<V>(saves: seq<NodeSaving<V>>, node: NodeId)
    requires saves != []
    ensures var (front, last) := (Of(saves[..|saves| - 1], node), saves[|saves| - 1]);
            Of(saves, node) == if last.node == node then front + [last.saving] else front
  {
    var front := Of(saves[..|saves| - 1], node);
    assert front + [] == front;
  }

  lemma DictRunStep<V>(front: seq<Saving<V>>, last: Saving<V>, limits: Limits)
    ensures DictRun(front + [last], limits) == DictSave(DictRun(front, limits), last.dv, limits, last.now)
  {
    assert (front + [last])[..|front|] == front;
    hide DictSave;
  }

  lemma SqlRunStep<V>(front: seq<Saving<V>>, last: Saving<V>, limits: Limits)
    ensures SqlRun(front + [last], limits) == SqlSave(SqlRun(front, limits), last.dv, limits, last.now)
  {
    assert (front + [last])[..|front|] == front;
    hide SqlSave;
  }

  /** Where no two nodes share a table, the stores agree on every interleaving. */
  lemma OwnTablesAgree<V>(limits: map<NodeId, Limits>, name: NodeId -> string, saves: seq<NodeSaving<V>>)
    requires OwnTables(limits, name) && Regular(limits, saves)
    ensures Agree(limits, name, saves)
  {
    forall n | n in limits
      ensures DictAll(limits, saves)[n] == SqlAll(limits, name, saves)[name(n)]
    {
      DictProjects(limits, saves, n);
      SqlProjects(limits, name, saves, n);
      StoresAgree(Of(saves, n), limits[n]);
    }
  }

  /** Where two nodes share one, a single save shows in the other's history. */
  lemma SharedTableDisagrees<V>(limits: map<NodeId, Limits>, name: NodeId -> string, n: NodeId, m: NodeId, v: V)
    requires n in limits && m in limits && n != m && name(n) == name(m)
    ensures var saves := [NodeSaving(n, Saving(DataValue(1, v), 1))];
            Regular(limits, saves) && !Agree(limits, name, saves)
  {
    var s := Saving(DataValue(1, v), 1);
    var saves := [NodeSaving(n, s)];
    OnlySave(limits, name, n, s);
    OneSaved(s.dv, limits[n]);
    hide SqlSave, DictSave, SqlAll, DictAll, Regular;
    assert name(m) in Tables(limits, name);
  }

  lemma OnlySave<V>(limits: map<NodeId, Limits>, name: NodeId -> string, n: NodeId, s: Saving<V>)
    requires n in limits
    ensures var saves := [NodeSaving(n, s)];
            && Regular(limits, saves)
            && SqlAll(limits, name, saves)[name(n)] == SqlSave([], s.dv, limits[n], s.now)
            && forall k | k in limits && k != n :: DictAll(limits, saves)[k] == []
  {
    var saves := [NodeSaving(n, s)];
    var none: seq<NodeSaving<V>> := [];
    assert saves[..0] == none;
    hide SqlSave, DictSave;
    assert SqlAll(limits, name, none)[name(n)] == [] by { assert name(n) in Tables(limits, name); }
    forall k
      ensures Strict(Values(Of(saves, k))) && ClockNeverFalls(Of(saves, k))
    {
      OfStep(saves, k);
      assert |Of(saves, k)| <= 1;
    }
  }

  lemma OneSaved<V>(dv: DataValue<V>, limits: Limits)
    requires dv.serverTimestamp == 1
    ensures SqlSave([], dv, limits, 1) == [dv]
  {
    var rows := [] + [dv];
    assert rows == [dv] && rows[..0] == [];
    assert NotBefore(rows, 1 - limits.period) == [dv];
  }

  /** The stores agree on every run if and only if the historized nodes have tables of their own. */
  lemma StoresAgreeExactly<V>(limits: map<NodeId, Limits>, name: NodeId -> string, v: V)
    ensures OwnTables(limits, name) <==>
              forall saves: seq<NodeSaving<V>> | Regular(limits, saves) :: Agree(limits, name, saves)
  {
    if OwnTables(limits, name) {
      forall saves: seq<NodeSaving<V>> | Regular(limits, saves)
        ensures Agree(limits, name, saves)
      {
        OwnTablesAgree(limits, name, saves);
      }
    } else {
      var n, m :| n in limits && m in limits && name(n) == name(m) && n != m;
      SharedTableDisagrees(limits, name, n, m, v);
    }
  }

  /** A number and a text of the same digits are different ids with one table. */
  lemma NumberAndTextShareTable(repr: seq<nat> -> string)
    ensures var (number, text) := (NodeId(2, Numeric(5)), NodeId(2, Text("5")));
            number != text && TableName(number, repr) == TableName(text, repr)
  {
    assert DIGITS[5] == '5' && "5" == ['5'];
  }

  /** Two values at one time, of which one is to be kept: the list keeps the last, the table none. */
  lemma TableLosesBoth()
    ensures var (first, second, one) := (DataValue(7, 0), DataValue(7, 1), Limits(0, 1));
            DictSave([first], second, one, 7) == [second] && SqlSave([first], second, one, 7) == []
  {
    var (first, second) := (DataValue(7, 0), DataValue(7, 1));
    var rows := [first] + [second];
    assert rows == [first, second] && rows[1..] == [second] && rows[..1] == [first];
    assert Earliest(rows[..1]) == 7 && Earliest(rows) == 7;
    assert NotAt(rows[..1], 7) == [];
  }
}
