/** The two history stores for data changes: the one in memory and the one in an SQL table. */
module History {
  import opened Wrappers
  import opened NodeIds

  // Microseconds since the first of January 1601; 0 is the epoch, which stands for a missing time.
  type Time = nat

  const EPOCH: Time := 0
  const DAY: nat := 86400000000

  datatype DataValue<+V> = DataValue(serverTimestamp: Time, value: V)

  /** How long and how many values are kept; 0 is no limit. */
  datatype Limits = Limits(period: nat, count: nat)

  datatype ReadResult<+V> = ReadResult(values: seq<DataValue<V>>, continuation: Option<Time>)

  // ----- Saving in the list -----

  function DropOld<V>(data: seq<DataValue<V>>, now: Time, period: nat): seq<DataValue<V>> {
    if data != [] && now - data[0].serverTimestamp > period then DropOld(data[1..], now, period) else data
  }

  function DictSave<V>(data: seq<DataValue<V>>, dv: DataValue<V>, limits: Limits, now: Time): seq<DataValue<V>> {
    var all := data + [dv];
    var recent := if limits.period > 0 then DropOld(all, now, limits.period) else all;
    if limits.count > 0 && |recent| > limits.count then recent[1..] else recent
  }

  // ----- Saving in the table, whose rows are in the order of their _Id -----

  /** The rows left by DELETE ... WHERE ServerTimestamp < limit. */
  function NotBefore<V>(rows: seq<DataValue<V>>, limit: int): seq<DataValue<V>> {
    if rows == [] then []
    else NotBefore(rows[..|rows| - 1], limit)
         + (if rows[|rows| - 1].serverTimestamp < limit then [] else [rows[|rows| - 1]])
  }

  /** MIN(ServerTimestamp) */
  function Earliest<V>(rows: seq<DataValue<V>>): Time
    requires rows != []
  {
    var last := rows[|rows| - 1].serverTimestamp;
    if |rows| == 1 then last
    else
      var before := Earliest(rows[..|rows| - 1]);
      if before <= last then before else last
  }

  /** The rows left by DELETE ... WHERE ServerTimestamp = t. */
  function NotAt<V>(rows: seq<DataValue<V>>, t: Time): seq<DataValue<V>> {
    if rows == [] then []
    else NotAt(rows[..|rows| - 1], t)
         + (if rows[|rows| - 1].serverTimestamp == t then [] else [rows[|rows| - 1]])
  }

  /** Both deletions after an insertion; the comparison with NULL deletes nothing. */
  function Prune<V>(rows: seq<DataValue<V>>, limits: Limits, now: Time): seq<DataValue<V>> {
    var recent := if limits.period > 0 then NotBefore(rows, now - limits.period) else rows;
    if limits.count > 0 && |recent| > limits.count then NotAt(recent, Earliest(recent)) else recent
  }

  function SqlSave<V>(rows: seq<DataValue<V>>, dv: DataValue<V>, limits: Limits, now: Time): seq<DataValue<V>> {
    Prune(rows + [dv], limits, now)
  }

  // ----- Reading -----

  /** The values with a timestamp between two times, both included. */
  function Between<V>(data: seq<DataValue<V>>, lo: Time, hi: Time): seq<DataValue<V>> {
    if data == [] then []
    else Between(data[..|data| - 1], lo, hi)
         + (if lo <= data[|data| - 1].serverTimestamp <= hi then [data[|data| - 1]] else [])
  }

  function From<V>(data: seq<DataValue<V>>, lo: Time): seq<DataValue<V>> {
    NotBefore(data, lo)
  }

  function Reversed<V>(s: seq<V>): (r: seq<V>)
    ensures |r| == |s|
  {
    seq(|s|, i requires 0 <= i < |s| => s[|s| - 1 - i])
  }

  function Take<V>(s: seq<V>, n: nat): seq<V> {
    if n <= |s| then s[..n] else s
  }

  function OrEpoch(t: Option<Time>): Time {
    if t.None? then EPOCH else t.value
  }

  function DictSelect<V>(data: seq<DataValue<V>>, start: Option<Time>, end: Option<Time>): seq<DataValue<V>> {
    var (s, e) := (OrEpoch(start), OrEpoch(end));
    if s == EPOCH then Reversed(From(data, s))
    else if e == EPOCH then From(data, s)
    else if s > e then Reversed(Between(data, e, s))
    else Between(data, s, e)
  }

  /** The continuation point is taken one place too far, and raises when the list ends before it. */
  function DictRead<V>(data: seq<DataValue<V>>, start: Option<Time>, end: Option<Time>, n: nat)
    : Result<ReadResult<V>, Error> {
    var results := DictSelect(data, start, end);
    if n > 0 && |results| > n then
      if n + 1 < |results| then Ok(ReadResult(results[..n], Some(results[n + 1].serverTimestamp))) else Err(IndexError)
    else Ok(ReadResult(results, None))
  }

  datatype Bounds = Bounds(lo: Time, hi: Time, ascending: bool, limit: Option<nat>)

  function GetBounds(start: Option<Time>, end: Option<Time>, n: nat, now: Time): Bounds {
    var (s, e0) := (OrEpoch(start), OrEpoch(end));
    var e := if e0 == EPOCH then now + DAY else e0;
    var limit := if n > 0 then Some(n + 1) else None;
    if s < e then Bounds(s, e, s != EPOCH, limit) else Bounds(e, s, false, limit)
  }

  /** SELECT ... BETWEEN ... ORDER BY _Id ... LIMIT */
  function Fetch<V>(rows: seq<DataValue<V>>, b: Bounds): seq<DataValue<V>> {
    var selected := Between(rows, b.lo, b.hi);
    var ordered := if b.ascending then selected else Reversed(selected);
    if b.limit.Some? then Take(ordered, b.limit.value) else ordered
  }

  function SqlRead<V>(rows: seq<DataValue<V>>, start: Option<Time>, end: Option<Time>, n: nat, now: Time)
    : ReadResult<V> {
    var fetched := Fetch(rows, GetBounds(start, end, n, now));
    if n > 0 then
      ReadResult(Take(fetched, n), if |fetched| > n then Some(fetched[n].serverTimestamp) else None)
    else ReadResult(fetched, None)
  }

  // ----- The stores -----

  class HistoryDict<V(==)> {
    var datachanges: map<NodeId, seq<DataValue<V>>>
    var periods: map<NodeId, Limits>

    ghost predicate Valid()
      reads this
    {
      datachanges.Keys == periods.Keys
    }

    constructor ()
      ensures Valid() && datachanges == map[]
    {
      datachanges, periods := map[], map[];
    }

    method NewHistorizedNode(node: NodeId, limits: Limits) returns (r: Result<(), Error>)
      requires Valid()
      modifies this
      ensures Valid()
      ensures r.Err? <==> node in old(datachanges)
      ensures r.Err? ==> datachanges == old(datachanges) && periods == old(periods)
      ensures r.Ok? ==> datachanges == old(datachanges)[node := []] && periods == old(periods)[node := limits]
    {
      if node in datachanges {
        return Err(UaError);
      }
      datachanges := datachanges[node := []];
      periods := periods[node := limits];
      return Ok(());
    }

    method SaveNodeValue(node: NodeId, dv: DataValue<V>, now: Time) returns (r: Result<(), Error>)
      requires Valid()
      modifies this`datachanges
      ensures Valid()
      ensures node !in old(datachanges) ==> r == Err(KeyError) && datachanges == old(datachanges)
      ensures node in old(datachanges) ==>
                r.Ok? && datachanges ==
                  old(datachanges)[node := DictSave(old(datachanges)[node], dv, periods[node], now)]
    {
      if node !in datachanges {
        return Err(KeyError);
      }
      var limits := periods[node];
      var data := datachanges[node] + [dv];
      if limits.period > 0 {
        ghost var all := data;
        while |data| > 0 && now - data[0].serverTimestamp > limits.period
          invariant DropOld(data, now, limits.period) == DropOld(all, now, limits.period)
          decreases |data|
        {
          data := data[1..];
        }
      }
      if limits.count > 0 && |data| > limits.count {
        data := data[1..];
      }
      datachanges := datachanges[node := data];
      return Ok(());
    }

    method ReadNodeHistory(node: NodeId, start: Option<Time>, end: Option<Time>, n: nat)
        returns (r: Result<ReadResult<V>, Error>)
      ensures r == if node in datachanges then DictRead(datachanges[node], start, end, n) else Ok(ReadResult([], None))
    {
      if node !in datachanges {
        return Ok(ReadResult([], None));
      }
      var results := DictSelect(datachanges[node], start, end);
      var continuation: Option<Time> := None;
      if n > 0 && |results| > n {
        if n + 1 >= |results| {
          return Err(IndexError);
        }
        continuation := Some(results[n + 1].serverTimestamp);
        results := results[..n];
      }
      return Ok(ReadResult(results, continuation));
    }
  }

  class HistorySQLite<V> {
    /** The text a node's table is named by. */
    const tableName: NodeId -> string
    var tables: map<string, seq<DataValue<V>>>
    var periods: map<NodeId, Limits>

    constructor (tableName: NodeId -> string, tables: map<string, seq<DataValue<V>>>)
      ensures this.tableName == tableName && this.tables == tables && periods == map[]
    {
      this.tableName := tableName;
      this.tables, periods := tables, map[];
    }

    method NewHistorizedNode(node: NodeId, limits: Limits)
      modifies this
      ensures periods == old(periods)[node := limits]
      ensures tableName(node) in old(tables) ==> tables == old(tables)
      ensures tableName(node) !in old(tables) ==> tables == old(tables)[tableName(node) := []]
    {
      periods := periods[node := limits];
      var table := tableName(node);
      if table !in tables {
        tables := tables[table := []];
      }
    }

    /** Without limits known for the node, the row stays inserted and the lookup raises. */
    method SaveNodeValue(node: NodeId, dv: DataValue<V>, now: Time) returns (r: Result<(), Error>)
      modifies this`tables
      ensures r == if node in periods then Ok(()) else Err(KeyError)
      ensures var table := tableName(node);
              if table !in old(tables) then tables == old(tables)
              else if node in periods
              then tables == old(tables)[table := SqlSave(old(tables)[table], dv, periods[node], now)]
              else tables == old(tables)[table := old(tables)[table] + [dv]]
    {
      var table := tableName(node);
      if table in tables {
        tables := tables[table := tables[table] + [dv]];
      }
      if node !in periods {
        return Err(KeyError);
      }
      var limits := periods[node];
      if limits.period > 0 && table in tables {
        tables := tables[table := NotBefore(tables[table], now - limits.period)];
      }
      if limits.count > 0 && table in tables {
        var rows := tables[table];
        if |rows| > limits.count {
          tables := tables[table := NotAt(rows, Earliest(rows))];
        }
      }
      return Ok(());
    }

    method ReadNodeHistory(node: NodeId, start: Option<Time>, end: Option<Time>, n: nat, now: Time)
        returns (r: ReadResult<V>)
      ensures var table := tableName(node);
              r == if table in tables then SqlRead(tables[table], start, end, n, now) else ReadResult([], None)
    {
      var table := tableName(node);
      var continuation: Option<Time> := None;
      var results: seq<DataValue<V>> := [];
      if table in tables {
        var cursor := Fetch(tables[table], GetBounds(start, end, n, now));
        for i := 0 to |cursor|
          invariant results == cursor[..i]
        {
          results := results + [cursor[i]];
        }
        assert cursor[..|cursor|] == cursor;
      }
      if n > 0 {
        if |results| > n {
          continuation := Some(results[n].serverTimestamp);
        }
        results := Take(results, n);
      }
      return ReadResult(results, continuation);
    }
  }

  // ----- Pruning -----

  predicate Ascending<V>(data: seq<DataValue<V>>) {
    forall i, j | 0 <= i < j < |data| :: data[i].serverTimestamp <= data[j].serverTimestamp
  }

  predicate Strict<V>(data: seq<DataValue<V>>) {
    forall i, j | 0 <= i < j < |data| :: data[i].serverTimestamp < data[j].serverTimestamp
  }

  /** How many values at the front are before the limit. */
  function CountBefore<V>(data: seq<DataValue<V>>, limit: int): (k: nat)
    ensures k <= |data|
  {
    if data != [] && data[0].serverTimestamp < limit then CountBefore(data[1..], limit) + 1 else 0
  }

  lemma {:induction false} CountedAreBefore<V>(data: seq<DataValue<V>>, limit: int)
    ensures var k := CountBefore(data, limit);
            && (k < |data| ==> data[k].serverTimestamp >= limit)
            && forall i | 0 <= i < k :: data[i].serverTimestamp < limit
  {
    if data != [] && data[0].serverTimestamp < limit {
      CountedAreBefore(data[1..], limit);
      assert data == [data[0]] + data[1..];
    }
  }

  lemma {:induction false} DropOldIsSuffix<V>(data: seq<DataValue<V>>, now: Time, period: nat)
    ensures DropOld(data, now, period) == data[CountBefore(data, now - period)..]
  {
    if data != [] && data[0].serverTimestamp < now - period {
      DropOldIsSuffix(data[1..], now, period);
      assert data[1..][CountBefore(data[1..], now - period)..] == data[CountBefore(data, now - period)..];
    } else {
      assert data[0..] == data;
    }
  }

  lemma FromWithLast<V>(s: seq<V>, k: nat)
    requires k < |s|
    ensures s[k..] == s[..|s| - 1][k..] + [s[|s| - 1]]
  {
  }

  lemma SliceOfFront<V>(s: seq<V>, a: nat, b: nat)
    requires a <= b < |s|
    ensures s[..|s| - 1][a..b] == s[a..b]
  {
  }

  /** A deletion by a limit, on any rows of which k before the limit come first and the others are not. */
  lemma {:induction false} NotBeforeIsSuffix<V>(rows: seq<DataValue<V>>, limit: int, k: nat)
    requires k <= |rows|
    requires forall i | 0 <= i < k :: rows[i].serverTimestamp < limit
    requires forall i | k <= i < |rows| :: rows[i].serverTimestamp >= limit
    ensures NotBefore(rows, limit) == rows[k..]
    decreases |rows|
  {
    if rows != [] {
      var front := rows[..|rows| - 1];
      assert NotBefore(rows, limit) == NotBefore(front, limit) + if k < |rows| then [rows[|rows| - 1]] else [];
      hide NotBefore;
      if k < |rows| {
        NotBeforeIsSuffix(front, limit, k);
        FromWithLast(rows, k);
      } else {
        NotBeforeIsSuffix(front, limit, k - 1);
        assert front[k - 1..] + [] == rows[k..];
      }
    }
  }

  lemma {:induction false} EarliestIsFirst<V>(rows: seq<DataValue<V>>)
    requires rows != [] && Ascending(rows)
    ensures Earliest(rows) == rows[0].serverTimestamp
    decreases |rows|
  {
    if |rows| > 1 {
      EarliestIsFirst(rows[..|rows| - 1]);
    }
  }

  lemma {:induction false} NotAtFirst<V>(rows: seq<DataValue<V>>, t: Time, k: nat)
    requires k <= |rows|
    requires forall i | 0 <= i < k :: rows[i].serverTimestamp == t
    requires forall i | k <= i < |rows| :: rows[i].serverTimestamp != t
    ensures NotAt(rows, t) == rows[k..]
    decreases |rows|
  {
    if rows != [] {
      var front := rows[..|rows| - 1];
      if k < |rows| {
        NotAtFirst(front, t, k);
        FromWithLast(rows, k);
      } else {
        NotAtFirst(front, t, k - 1);
        assert front[k - 1..] + [] == rows[k..];
      }
    }
  }

  function CountAt<V>(rows: seq<DataValue<V>>, t: Time): (k: nat)
    ensures k <= |rows|
  {
    if rows != [] && rows[0].serverTimestamp == t then CountAt(rows[1..], t) + 1 else 0
  }

  lemma {:induction false} CountedAreAt<V>(rows: seq<DataValue<V>>, t: Time)
    ensures var k := CountAt(rows, t);
            && (k < |rows| ==> rows[k].serverTimestamp != t)
            && forall i | 0 <= i < k :: rows[i].serverTimestamp == t
  {
    if rows != [] && rows[0].serverTimestamp == t {
      CountedAreAt(rows[1..], t);
      assert rows == [rows[0]] + rows[1..];
    }
  }

  /** What both stores keep before the count is looked at. */
  function Recent<V>(all: seq<DataValue<V>>, limits: Limits, now: Time): seq<DataValue<V>> {
    if limits.period > 0 then all[CountBefore(all, now - limits.period)..] else all
  }

  lemma AtLeast<V>(data: seq<DataValue<V>>, limit: int, k: nat)
    requires Ascending(data) && (k < |data| ==> data[k].serverTimestamp >= limit)
    ensures forall i | k <= i < |data| :: data[i].serverTimestamp >= limit
  {
    forall i | k <= i < |data|
      ensures data[i].serverTimestamp >= limit
    {
      assert k < i ==> data[k].serverTimestamp <= data[i].serverTimestamp;
    }
  }

  lemma SuffixAscending<V>(data: seq<DataValue<V>>, k: nat)
    requires Ascending(data) && k <= |data|
    ensures Ascending(data[k..])
  {
  }

  lemma RecentIs<V>(all: seq<DataValue<V>>, limits: Limits, now: Time)
    requires Ascending(all)
    ensures limits.period > 0 ==> DropOld(all, now, limits.period) == Recent(all, limits, now)
    ensures limits.period > 0 ==> NotBefore(all, now - limits.period) == Recent(all, limits, now)
    ensures Ascending(Recent(all, limits, now))
  {
    hide Ascending, NotBefore, DropOld;
    if limits.period > 0 {
      var k := CountBefore(all, now - limits.period);
      DropOldIsSuffix(all, now, limits.period);
      CountedAreBefore(all, now - limits.period);
      AtLeast(all, now - limits.period, k);
      NotBeforeIsSuffix(all, now - limits.period, k);
      SuffixAscending(all, k);
    }
  }

  /** A deletion of the earliest timestamp takes the first row, and more exactly if the second is as early. */
  lemma EarliestDeleted<V>(rows: seq<DataValue<V>>)
    requires Ascending(rows) && |rows| >= 2
    ensures NotAt(rows, Earliest(rows)) == rows[1..] <==> rows[0].serverTimestamp != rows[1].serverTimestamp
  {
    EarliestIsFirst(rows);
    var t := rows[0].serverTimestamp;
    var k := CountAt(rows, t);
    CountedAreAt(rows, t);
    assert k >= 1 && (k >= 2 <==> rows[1].serverTimestamp == t) by {
      assert k == 1 ==> rows[1].serverTimestamp != t;
    }
    if k < |rows| {
      AtLeast(rows, rows[k].serverTimestamp, k);
      assert rows[0].serverTimestamp <= rows[k].serverTimestamp;
    }
    hide Ascending, NotAt, Earliest;
    NotAtFirst(rows, t, k);
    assert |rows[k..]| == |rows| - k && |rows[1..]| == |rows| - 1;
  }

  /**
   With timestamps that never fall, a save leaves the same values in both stores unless the count is
   exceeded and the two earliest unexpired timestamps are equal: then the table loses both.
   */
  lemma SaveAgreesExactly<V>(data: seq<DataValue<V>>, dv: DataValue<V>, limits: Limits, now: Time)
    requires Ascending(data + [dv])
    ensures var recent := Recent(data + [dv], limits, now);
            DictSave(data, dv, limits, now) == SqlSave(data, dv, limits, now) <==>
              !(0 < limits.count < |recent| && recent[0].serverTimestamp == recent[1].serverTimestamp)
  {
    hide DictSave, SqlSave, NotAt, Earliest, Ascending, Recent;
    SavesAre(data, dv, limits, now);
    var recent := Recent(data + [dv], limits, now);
    if 0 < limits.count < |recent| {
      EarliestDeleted(recent);
    }
  }

  function CutFirst<V>(recent: seq<V>, count: nat): seq<V> {
    if 0 < count < |recent| then recent[1..] else recent
  }

  lemma SavesAre<V>(data: seq<DataValue<V>>, dv: DataValue<V>, limits: Limits, now: Time)
    requires Ascending(data + [dv])
    ensures var recent := Recent(data + [dv], limits, now);
            && Ascending(recent)
            && DictSave(data, dv, limits, now) == CutFirst(recent, limits.count)
            && SqlSave(data, dv, limits, now) ==
               (if 0 < limits.count < |recent| then NotAt(recent, Earliest(recent)) else recent)
  {
    RecentIs(data + [dv], limits, now);
    hide DropOld, NotBefore, NotAt, Earliest, Ascending;
  }

  // ----- Runs of saves -----

  /** A save of one node: the value, and the clock at that moment. */
  datatype Saving<+V> = Saving(dv: DataValue<V>, now: Time)

  function Values<V>(saves: seq<Saving<V>>): (r: seq<DataValue<V>>)
    ensures |r| == |saves|
  {
    seq(|saves|, i requires 0 <= i < |saves| => saves[i].dv)
  }

  function DictRun<V>(saves: seq<Saving<V>>, limits: Limits): seq<DataValue<V>> {
    if saves == [] then []
    else
      var last := saves[|saves| - 1];
      DictSave(DictRun(saves[..|saves| - 1], limits), last.dv, limits, last.now)
  }

  function SqlRun<V>(saves: seq<Saving<V>>, limits: Limits): seq<DataValue<V>> {
    if saves == [] then []
    else
      var last := saves[|saves| - 1];
      SqlSave(SqlRun(saves[..|saves| - 1], limits), last.dv, limits, last.now)
  }

  /** The last n of a list; 0 is no limit. */
  function Last<V>(s: seq<V>, n: nat): seq<V> {
    if n > 0 && |s| > n then s[|s| - n..] else s
  }

  predicate ClockNeverFalls<V>(saves: seq<Saving<V>>) {
    forall i, j | 0 <= i < j < |saves| :: saves[i].now <= saves[j].now
  }

  /** Where the kept values begin among n, when this many are expired. */
  function Begin(expired: nat, n: nat, count: nat): nat {
    if count > 0 && n - count > expired then n - count else expired
  }

  lemma {:induction false} ExpiryGrows<V>(data: seq<DataValue<V>>, a: int, b: int)
    requires a <= b
    ensures CountBefore(data, a) <= CountBefore(data, b)
  {
    if data != [] && data[0].serverTimestamp < a {
      ExpiryGrows(data[1..], a, b);
    }
  }

  lemma {:induction false} CountOfSuffix<V>(data: seq<DataValue<V>>, limit: int, k: nat)
    requires k <= |data| && Ascending(data)
    ensures CountBefore(data[k..], limit) == if CountBefore(data, limit) >= k then CountBefore(data, limit) - k else 0
    decreases k
  {
    if k > 0 {
      assert data[1..][k - 1..] == data[k..];
      CountOfSuffix(data[1..], limit, k - 1);
      if data[0].serverTimestamp >= limit && data[k..] != [] {
        assert data[0].serverTimestamp <= data[k].serverTimestamp;
      }
    } else {
      assert data[0..] == data;
    }
  }

  lemma {:induction false} CountOfPrefix<V>(data: seq<DataValue<V>>, limit: int, k: nat)
    requires k <= |data|
    ensures CountBefore(data[..k], limit) <= CountBefore(data, limit)
  {
    if data != [] && data[0].serverTimestamp < limit && k > 0 {
      assert data[..k][1..] == data[1..][..k - 1];
      CountOfPrefix(data[1..], limit, k - 1);
    }
  }

  /** How many of these values are expired. */
  function Expired<V>(data: seq<DataValue<V>>, limits: Limits, now: Time): nat {
    if limits.period > 0 then CountBefore(data, now - limits.period) else 0
  }

  /** A save moves the beginning of the kept values as Begin says. */
  lemma BeginStep<V>(data: seq<DataValue<V>>, k: nat, limits: Limits, now: Time)
    requires Ascending(data) && k < |data|
    ensures Ascending(data[k..])
    ensures var from := if Expired(data, limits, now) >= k then Expired(data, limits, now) else k;
            from <= |data| && Recent(data[k..], limits, now) == data[from..]
  {
    SuffixAscending(data, k);
    if limits.period > 0 {
      CountOfSuffix(data, now - limits.period, k);
      hide Ascending, CountBefore;
      var e := CountBefore(data, now - limits.period);
      SuffixOfSuffix(data, k, if e >= k then e - k else 0);
    }
  }

  lemma SuffixOfSuffix<V>(s: seq<V>, k: nat, j: nat)
    requires k + j <= |s|
    ensures s[k..][j..] == s[k + j..]
  {
  }

  lemma BeginMoves(before: nat, now: nat, n: nat, count: nat)
    requires n > 0 && before <= n - 1 && before <= now <= n
    ensures var k := Begin(before, n - 1, count);
            var from := if now >= k then now else k;
            k < n && Begin(now, n, count) == if 0 < count < n - from then from + 1 else from
  {
  }

  lemma SaveKeepsLast<V>(values: seq<DataValue<V>>, expiredBefore: nat, limits: Limits, now: Time)
    requires values != [] && Ascending(values)
    requires expiredBefore <= |values| - 1 && expiredBefore <= Expired(values, limits, now)
    ensures var n := |values|;
            var k := Begin(expiredBefore, n - 1, limits.count);
            var begin := Begin(Expired(values, limits, now), n, limits.count);
            && k < n && begin <= n
            && DictSave(values[..n - 1][k..], values[n - 1], limits, now) == values[begin..]
  {
    var n := |values|;
    var k := Begin(expiredBefore, n - 1, limits.count);
    var expired := Expired(values, limits, now);
    BeginMoves(expiredBefore, expired, n, limits.count);
    hide Ascending, Expired, DictSave, Begin;
    SplitLast(values, k);
    SaveFrom(values, k, values[..n - 1][k..], values[n - 1], limits, now);
  }

  lemma SaveFrom<V>(values: seq<DataValue<V>>, k: nat, before: seq<DataValue<V>>, dv: DataValue<V>, limits: Limits,
                    now: Time)
    requires Ascending(values) && k < |values| && before + [dv] == values[k..]
    ensures var expired := Expired(values, limits, now);
            var from := if expired >= k then expired else k;
            && from <= |values|
            && DictSave(before, dv, limits, now) ==
               values[if 0 < limits.count < |values| - from then from + 1 else from..]
  {
    hide Ascending, Recent, Expired, DictSave, SqlSave, NotAt, Earliest, CutFirst;
    BeginStep(values, k, limits, now);
    SavesAre(before, dv, limits, now);
    var expired := Expired(values, limits, now);
    CountCut(values, if expired >= k then expired else k, limits.count);
  }

  lemma SplitLast<V>(s: seq<V>, k: nat)
    requires k < |s|
    ensures s[..|s| - 1][k..] + [s[|s| - 1]] == s[k..]
  {
  }

  lemma CountCut<V>(s: seq<V>, from: nat, count: nat)
    requires from <= |s|
    ensures CutFirst(s[from..], count) == s[if 0 < count < |s| - from then from + 1 else from..]
  {
  }

  lemma ExpiredBefore<V>(values: seq<DataValue<V>>, limits: Limits, earlier: Time, now: Time)
    requires values != [] && earlier <= now
    ensures Expired(values[..|values| - 1], limits, earlier) <= Expired(values, limits, now)
  {
    if limits.period > 0 {
      ExpiryGrows(values[..|values| - 1], earlier - limits.period, now - limits.period);
      CountOfPrefix(values, now - limits.period, |values| - 1);
    }
  }

  /** What the stores should hold after a run: the last `count` of its values that have not expired. */
  function Kept<V>(saves: seq<Saving<V>>, limits: Limits): seq<DataValue<V>>
    requires saves != []
  {
    var values := Values(saves);
    Last(Recent(values, limits, saves[|saves| - 1].now), limits.count)
  }

  lemma LastOf<V>(s: seq<V>, from: nat, n: nat)
    requires from <= |s|
    ensures var begin := Begin(from, |s|, n);
            begin <= |s| && Last(s[from..], n) == s[begin..]
  {
  }

  lemma KeptBegins<V>(saves: seq<Saving<V>>, limits: Limits)
    requires saves != []
    ensures var begin := Begin(Expired(Values(saves), limits, saves[|saves| - 1].now), |saves|, limits.count);
            begin <= |saves| && Kept(saves, limits) == Values(saves)[begin..]
  {
    var values := Values(saves);
    var e := Expired(values, limits, saves[|saves| - 1].now);
    var now := saves[|saves| - 1].now;
    assert Recent(values, limits, now) == values[e..] by { assert values[0..] == values; }
    hide Recent, Expired;
    LastOf(values, e, limits.count);
  }

  lemma AscendingFront<V>(saves: seq<Saving<V>>)
    requires saves != []
    ensures Values(saves[..|saves| - 1]) == Values(saves)[..|saves| - 1]
    ensures Ascending(Values(saves)) ==> Ascending(Values(saves[..|saves| - 1]))
    ensures Strict(Values(saves)) ==> Strict(Values(saves[..|saves| - 1])) && Ascending(Values(saves))
    ensures ClockNeverFalls(saves) ==> ClockNeverFalls(saves[..|saves| - 1])
  {
  }

  /** The list keeps exactly these when timestamps and clock never fall. */
  lemma {:induction false} DictKeepsLast<V>(saves: seq<Saving<V>>, limits: Limits)
    requires saves != [] && Ascending(Values(saves)) && ClockNeverFalls(saves)
    ensures DictRun(saves, limits) == Kept(saves, limits)
    decreases |saves|
  {
    var (n, values) := (|saves|, Values(saves));
    var (front, last) := (saves[..n - 1], saves[n - 1]);
    AscendingFront(saves);
    hide Ascending, Expired, DictSave, ClockNeverFalls, Kept, Values, Begin;
    var e := 0;
    if n > 1 {
      DictKeepsLast(front, limits);
      e := FrontKept(saves, limits);
    } else {
      assert values[..0] == [];
      assert Begin(0, 0, limits.count) == 0 by { BeginInside(0, 0, limits.count); }
    }
    SaveKeepsLast(values, e, limits, last.now);
    KeptBegins(saves, limits);
  }

  lemma FrontKept<V>(saves: seq<Saving<V>>, limits: Limits) returns (expired: nat)
    requires |saves| > 1 && ClockNeverFalls(saves)
    ensures var n := |saves|;
            var front := Values(saves)[..n - 1];
            var begin := Begin(expired, n - 1, limits.count);
            && expired <= n - 1 && expired <= Expired(Values(saves), limits, saves[n - 1].now)
            && begin <= n - 1
            && Kept(saves[..n - 1], limits) == front[begin..]
  {
    var n := |saves|;
    AscendingFront(saves);
    assert saves[n - 2].now <= saves[n - 1].now;
    hide Ascending, Strict, Expired, ClockNeverFalls, Kept, Values;
    KeptBegins(saves[..n - 1], limits);
    ExpiredBefore(Values(saves), limits, saves[n - 2].now, saves[n - 1].now);
    expired := Expired(Values(saves)[..n - 1], limits, saves[n - 2].now);
  }

  /** With increasing timestamps and a clock that never falls, both stores hold the same list: what should be kept. */
  lemma {:induction false} StoresAgree<V>(saves: seq<Saving<V>>, limits: Limits)
    requires Strict(Values(saves)) && ClockNeverFalls(saves)
    ensures DictRun(saves, limits) == SqlRun(saves, limits)
    ensures saves != [] ==> DictRun(saves, limits) == Kept(saves, limits)
    decreases |saves|
  {
    if saves != [] {
      var (front, last) := (saves[..|saves| - 1], saves[|saves| - 1]);
      AscendingFront(saves);
      StrictSave(saves, limits);
      hide Kept, DictSave, SqlSave, ClockNeverFalls, Strict, Ascending;
      StoresAgree(front, limits);
      DictKeepsLast(saves, limits);
      SaveAgrees(DictRun(front, limits), last.dv, limits, last.now);
    }
  }

  lemma StrictSave<V>(saves: seq<Saving<V>>, limits: Limits)
    requires saves != [] && Strict(Values(saves)) && ClockNeverFalls(saves)
    ensures Strict(DictRun(saves[..|saves| - 1], limits) + [saves[|saves| - 1].dv])
  {
    var (n, values) := (|saves|, Values(saves));
    var front := saves[..n - 1];
    AscendingFront(saves);
    hide Strict, Ascending, ClockNeverFalls, Kept, Begin, Expired;
    if n > 1 {
      DictKeepsLast(front, limits);
      KeptBegins(front, limits);
      BeginInside(Expired(Values(front), limits, front[n - 2].now), n - 1, limits.count);
      StrictEnd(values, Begin(Expired(Values(front), limits, front[n - 2].now), n - 1, limits.count));
    } else {
      StrictEnd(values, 0);
      assert values[..0][0..] == [];
    }
  }

  lemma BeginInside(expired: nat, n: nat, count: nat)
    requires expired <= n
    ensures Begin(expired, n, count) <= n
  {
  }

  lemma StrictEnd<V>(values: seq<DataValue<V>>, k: nat)
    requires Strict(values) && k < |values|
    ensures Strict(values[..|values| - 1][k..] + [values[|values| - 1]])
  {
  }

  lemma SaveAgrees<V>(data: seq<DataValue<V>>, dv: DataValue<V>, limits: Limits, now: Time)
    requires Strict(data + [dv])
    ensures DictSave(data, dv, limits, now) == SqlSave(data, dv, limits, now)
  {
    var all := data + [dv];
    assert Ascending(all);
    hide DictSave, SqlSave;
    SaveAgreesExactly(data, dv, limits, now);
  }

  // ----- Reading from either store -----

  lemma {:induction false} BetweenMembers<V>(data: seq<DataValue<V>>, lo: Time, hi: Time)
    ensures forall dv :: dv in Between(data, lo, hi) <==> dv in data && lo <= dv.serverTimestamp <= hi
    ensures forall k | 0 <= k < |Between(data, lo, hi)| ::
              Between(data, lo, hi)[k] in data && lo <= Between(data, lo, hi)[k].serverTimestamp <= hi
    decreases |data|
  {
    if data != [] {
      BetweenMembers(data[..|data| - 1], lo, hi);
      assert data == data[..|data| - 1] + [data[|data| - 1]];
    }
  }

  lemma {:induction false} BetweenAndFrom<V>(data: seq<DataValue<V>>, lo: Time, hi: Time)
    ensures |Between(data, lo, hi)| <= |From(data, lo)|
    ensures |Between(data, lo, hi)| == |From(data, lo)| ==> Between(data, lo, hi) == From(data, lo)
    ensures |Between(data, lo, hi)| == |From(data, lo)| <==>
              forall dv | dv in data && dv.serverTimestamp >= lo :: dv.serverTimestamp <= hi
    decreases |data|
  {
    if data != [] {
      BetweenAndFrom(data[..|data| - 1], lo, hi);
      assert data == data[..|data| - 1] + [data[|data| - 1]];
    }
  }

  /** The values a read without a limit on their number returns in between two given times. */
  function Ordered<V>(data: seq<DataValue<V>>, start: Time, end: Time): seq<DataValue<V>> {
    if start < end then Between(data, start, end) else Reversed(Between(data, end, start))
  }

  lemma {:induction false} BetweenStrict<V>(data: seq<DataValue<V>>, lo: Time, hi: Time)
    requires Strict(data)
    ensures Strict(Between(data, lo, hi))
    decreases |data|
  {
    if data != [] {
      var (front, last) := (data[..|data| - 1], data[|data| - 1]);
      BetweenStrict(front, lo, hi);
      BetweenMembers(front, lo, hi);
      var kept := Between(front, lo, hi);
      assert forall dv | dv in front :: dv.serverTimestamp < last.serverTimestamp;
    }
  }

  lemma AtOneTime<V>(data: seq<DataValue<V>>, t: Time)
    requires Strict(data)
    ensures |Between(data, t, t)| <= 1 && Reversed(Between(data, t, t)) == Between(data, t, t)
  {
    BetweenStrict(data, t, t);
    BetweenMembers(data, t, t);
    var s := Between(data, t, t);
    if |s| > 0 {
      SameIndex(s, 0, |s| - 1);
    }
  }

  lemma SameIndex<V>(s: seq<DataValue<V>>, i: nat, j: nat)
    requires Strict(s) && i < |s| && j < |s| && s[i].serverTimestamp == s[j].serverTimestamp
    ensures i == j
  {
  }

  /**
   With both bounds given, the two stores answer alike exactly when the bounds differ or what lies at
   the one time reads the same backwards: the table turns it round and the list does not.
   */
  lemma ReadsAgree<V>(data: seq<DataValue<V>>, start: Time, end: Time, now: Time)
    requires start != EPOCH && end != EPOCH
    ensures SqlRead(data, Some(start), Some(end), 0, now) == ReadResult(Ordered(data, start, end), None)
    ensures DictRead(data, Some(start), Some(end), 0) == Ok(SqlRead(data, Some(start), Some(end), 0, now)) <==>
              start != end || Reversed(Between(data, start, start)) == Between(data, start, start)
  {
  }

  /** At increasing timestamps there is at most one value at one time. */
  lemma StrictReadsAgree<V>(data: seq<DataValue<V>>, start: Time, end: Time, now: Time)
    requires start != EPOCH && end != EPOCH && Strict(data)
    ensures DictRead(data, Some(start), Some(end), 0) == Ok(SqlRead(data, Some(start), Some(end), 0, now))
  {
    ReadsAgree(data, start, end, now);
    AtOneTime(data, start);
  }

  /** Without a start the list store ignores the end: the answers differ when a value is later than it. */
  lemma ReadsWithoutStart<V>(data: seq<DataValue<V>>, end: Option<Time>, now: Time)
    ensures var last := if OrEpoch(end) == EPOCH then now + DAY else OrEpoch(end);
            DictRead(data, None, end, 0) == Ok(SqlRead(data, None, end, 0, now)) <==>
              forall dv | dv in data :: dv.serverTimestamp <= last
  {
    var last := if OrEpoch(end) == EPOCH then now + DAY else OrEpoch(end);
    BetweenAndFrom(data, EPOCH, last);
    var (a, b) := (From(data, EPOCH), Between(data, EPOCH, last));
    hide From, Between;
    assert DictRead(data, None, end, 0) == Ok(ReadResult(Reversed(a), None));
    assert SqlRead(data, None, end, 0, now) == ReadResult(Reversed(b), None);
  }

  /** Without an end the table gives nothing more than a day ahead of the clock. */
  lemma ReadsWithoutEnd<V>(data: seq<DataValue<V>>, start: Time, now: Time)
    requires EPOCH < start < now + DAY
    ensures DictRead(data, Some(start), None, 0) == Ok(SqlRead(data, Some(start), None, 0, now)) <==>
              forall dv | dv in data && dv.serverTimestamp >= start :: dv.serverTimestamp <= now + DAY
  {
    BetweenAndFrom(data, start, now + DAY);
  }

  /**
   A page of the list that leaves values over never leads on to all of them: with one value over the
   read raises, and otherwise the value just after the page is in neither the page nor the rest.
   */
  lemma DictPagingSkips<V>(data: seq<DataValue<V>>, start: Time, end: Time, n: nat)
    requires Strict(data) && start != EPOCH && end != EPOCH
    requires 0 < n < |DictSelect(data, Some(start), Some(end))|
    ensures var whole := DictSelect(data, Some(start), Some(end));
            var page := DictRead(data, Some(start), Some(end), n);
            && (page.Err? <==> |whole| == n + 1)
            && (page.Ok? ==>
                  && page.value.continuation.Some?
                  && whole[n] !in page.value.values
                  && whole[n] !in DictSelect(data, page.value.continuation, Some(end)))
  {
    var (lo, hi) := if start > end then (end, start) else (start, end);
    var t := Between(data, lo, hi);
    var whole := DictSelect(data, Some(start), Some(end));
    BetweenStrict(data, lo, hi);
    BetweenMembers(data, lo, hi);
    assert whole == if start > end then Reversed(t) else t;
    if n + 1 < |whole| {
      var c := whole[n + 1].serverTimestamp;
      BetweenMembers(data, lo, c);
      BetweenMembers(data, c, hi);
      BetweenMembers(data, c, c);
      assert if start > end then whole[n].serverTimestamp > c >= end else whole[n].serverTimestamp < c <= end;
      hide Between, Strict;
      ReversedMembers(Between(data, end, c));
    }
  }

  lemma ReversedMembers<V>(s: seq<DataValue<V>>)
    ensures forall dv :: dv in Reversed(s) ==> dv in s
  {
  }

  // ----- Reading the table in pages -----

  lemma {:induction false} Narrow<V>(data: seq<DataValue<V>>, lo: Time, hi: Time, lo2: Time, hi2: Time)
    requires lo <= lo2 && hi2 <= hi
    ensures Between(Between(data, lo, hi), lo2, hi2) == Between(data, lo2, hi2)
    decreases |data|
  {
    if data != [] {
      var (front, last) := (data[..|data| - 1], data[|data| - 1]);
      Narrow(front, lo, hi, lo2, hi2);
      var kept := Between(front, lo, hi);
      if lo <= last.serverTimestamp <= hi {
        assert (kept + [last])[..|kept|] == kept;
      } else {
        assert kept + [] == kept;
      }
    }
  }

  lemma {:induction false} BetweenIsSlice<V>(data: seq<DataValue<V>>, lo: Time, hi: Time, a: nat, b: nat)
    requires a <= b <= |data|
    requires forall i | 0 <= i < |data| :: lo <= data[i].serverTimestamp <= hi <==> a <= i < b
    ensures Between(data, lo, hi) == data[a..b]
    decreases |data|
  {
    if data != [] {
      var (n, front) := (|data|, data[..|data| - 1]);
      if b == n && a < b {
        BetweenIsSlice(front, lo, hi, a, n - 1);
        assert data[a..b] == front[a..n - 1] + [data[n - 1]];
      } else if b == n {
        BetweenIsSlice(front, lo, hi, n - 1, n - 1);
      } else {
        BetweenIsSlice(front, lo, hi, a, b);
        SliceOfFront(data, a, b);
      }
    }
  }

  lemma {:induction false} BetweenAscending<V>(data: seq<DataValue<V>>, lo: Time, hi: Time)
    requires Ascending(data)
    ensures Ascending(Between(data, lo, hi))
    decreases |data|
  {
    if data != [] {
      var (front, last) := (data[..|data| - 1], data[|data| - 1]);
      BetweenAscending(front, lo, hi);
      BetweenMembers(front, lo, hi);
      var kept := Between(front, lo, hi);
      assert forall dv | dv in front :: dv.serverTimestamp <= last.serverTimestamp;
    }
  }

  predicate Within<V>(t: seq<DataValue<V>>, lo: Time, hi: Time) {
    forall i | 0 <= i < |t| :: lo <= t[i].serverTimestamp <= hi
  }

  lemma SelectionFacts<V>(rows: seq<DataValue<V>>, lo: Time, hi: Time)
    requires Ascending(rows)
    ensures Ascending(Between(rows, lo, hi)) && Within(Between(rows, lo, hi), lo, hi)
  {
    BetweenAscending(rows, lo, hi);
    BetweenMembers(rows, lo, hi);
  }

  /** What a list in order has from its m-th timestamp on. */
  lemma CutFrom<V>(t: seq<DataValue<V>>, lo: Time, hi: Time, m: nat)
    requires Ascending(t) && m < |t| && Within(t, lo, hi)
    ensures var c := t[m].serverTimestamp;
            var from := CountBefore(t, c);
            && from <= m && (from == m <==> m == 0 || t[m - 1].serverTimestamp != c)
            && Between(t, c, hi) == t[from..]
  {
    var c := t[m].serverTimestamp;
    var from := CountBefore(t, c);
    CountedAreBefore(t, c);
    AtLeast(t, c, from);
    assert m > 0 ==> t[m - 1].serverTimestamp <= c;
    hide Ascending, CountBefore;
    BetweenIsSlice(t, c, hi, from, |t|);
  }

  /** What it has up to it. */
  lemma CutTo<V>(t: seq<DataValue<V>>, lo: Time, hi: Time, m: nat)
    requires Ascending(t) && m < |t| && Within(t, lo, hi)
    ensures var c := t[m].serverTimestamp;
            var to := CountBefore(t, c + 1);
            && m + 1 <= to && (to == m + 1 <==> m + 1 == |t| || t[m + 1].serverTimestamp != c)
            && Between(t, lo, c) == t[..to]
  {
    var c := t[m].serverTimestamp;
    var to := CountBefore(t, c + 1);
    CountedAreBefore(t, c + 1);
    AtLeast(t, c + 1, to);
    assert m + 1 < |t| ==> c <= t[m + 1].serverTimestamp;
    hide Ascending, CountBefore;
    BetweenIsSlice(t, lo, c, 0, to);
    assert t[0..to] == t[..to];
  }

  lemma MemberWithin<V>(t: seq<DataValue<V>>, lo: Time, hi: Time, m: nat)
    requires Within(t, lo, hi) && m < |t|
    ensures lo <= t[m].serverTimestamp <= hi
  {
  }

  lemma AscendingBoundary<V>(rows: seq<DataValue<V>>, lo: Time, hi: Time, m: nat)
    requires Ascending(rows) && 0 < m < |Between(rows, lo, hi)|
    ensures var t := Between(rows, lo, hi);
            var rest := Between(rows, t[m].serverTimestamp, hi);
            && (t[m - 1].serverTimestamp != t[m].serverTimestamp ==> rest == t[m..])
            && (t[m - 1].serverTimestamp == t[m].serverTimestamp ==> |rest| > |t| - m)
  {
    var t := Between(rows, lo, hi);
    var c := t[m].serverTimestamp;
    hide Between, Ascending, CountBefore, Within;
    SelectionFacts(rows, lo, hi);
    CutFrom(t, lo, hi, m);
    MemberWithin(t, lo, hi, m);
    Narrow(rows, lo, hi, c, hi);
  }

  lemma DescendingBoundary<V>(rows: seq<DataValue<V>>, lo: Time, hi: Time, m: nat)
    requires Ascending(rows) && m + 1 < |Between(rows, lo, hi)|
    ensures var t := Between(rows, lo, hi);
            Reversed(Between(rows, lo, t[m].serverTimestamp)) == Reversed(t)[|t| - 1 - m..] <==>
              t[m + 1].serverTimestamp != t[m].serverTimestamp
  {
    var t := Between(rows, lo, hi);
    var c := t[m].serverTimestamp;
    hide Between, Ascending, CountBefore, Within, Reversed;
    SelectionFacts(rows, lo, hi);
    CutTo(t, lo, hi, m);
    MemberWithin(t, lo, hi, m);
    Narrow(rows, lo, hi, lo, c);
    ReversedCut(t, CountBefore(t, c + 1), |t| - 1 - m);
  }

  /**
   Asking again from the continuation point gives exactly the values after this page, if and only if
   the page ends between two different timestamps; an ascending read whose continuation is the end
   itself turns round, which the remaining values must not show.
   */
  lemma PageBoundary<V>(rows: seq<DataValue<V>>, start: Time, end: Time, n: nat)
    requires Ascending(rows) && 0 < n < |Ordered(rows, start, end)|
    ensures var whole := Ordered(rows, start, end);
            var c := whole[n].serverTimestamp;
            Ordered(rows, c, end) == whole[n..] <==>
              && whole[n - 1].serverTimestamp != c
              && (start < end && c == end ==> Reversed(whole[n..]) == whole[n..])
  {
    hide Ascending, Between, Reversed;
    var whole := Ordered(rows, start, end);
    var c := whole[n].serverTimestamp;
    if start < end {
      BetweenMembers(rows, start, end);
      AscendingBoundary(rows, start, end, n);
      PageGoesUp(whole, Between(rows, c, end), Ordered(rows, c, end), n, c == end);
    } else {
      var t := Between(rows, end, start);
      ReversedItems(t, n);
      BetweenMembers(rows, end, start);
      DescendingBoundary(rows, end, start, |t| - 1 - n);
    }
  }

  /** The values from the continuation point on, which the store turns round when it is the end. */
  lemma PageGoesUp<V>(whole: seq<DataValue<V>>, rest: seq<DataValue<V>>, page: seq<DataValue<V>>, n: nat, turned: bool)
    requires 0 < n < |whole| && page == if turned then Reversed(rest) else rest
    requires var differ := whole[n - 1].serverTimestamp != whole[n].serverTimestamp;
             (differ ==> rest == whole[n..]) && (!differ ==> |rest| > |whole| - n)
    ensures page == whole[n..] <==>
              && whole[n - 1].serverTimestamp != whole[n].serverTimestamp
              && (turned ==> Reversed(whole[n..]) == whole[n..])
  {
    hide Reversed;
  }

  lemma ReversedItems<V>(t: seq<V>, n: nat)
    requires 0 < n < |t|
    ensures Reversed(t)[n] == t[|t| - 1 - n] && Reversed(t)[n - 1] == t[|t| - n]
  {
  }

  lemma ReversedCut<V>(t: seq<V>, to: nat, n: nat)
    requires to <= |t| && n <= |t|
    ensures Reversed(t[..to]) == Reversed(t)[n..] <==> to == |t| - n
  {
    var (a, b) := (Reversed(t[..to]), Reversed(t)[n..]);
    assert |a| == to && |b| == |t| - n;
    if to == |t| - n {
      assert forall i | 0 <= i < |a| :: a[i] == b[i];
    }
  }

  /** At increasing timestamps the continuation point always leads on to the rest. */
  lemma NextPage<V>(rows: seq<DataValue<V>>, start: Time, end: Time, n: nat)
    requires Strict(rows) && start != EPOCH && end != EPOCH && 0 < n < |Ordered(rows, start, end)|
    ensures var whole := Ordered(rows, start, end);
            var c := whole[n].serverTimestamp;
            c != EPOCH && Ordered(rows, c, end) == whole[n..]
  {
    var whole := Ordered(rows, start, end);
    var c := whole[n].serverTimestamp;
    var (lo, hi) := if start < end then (start, end) else (end, start);
    var t := Between(rows, lo, hi);
    BetweenStrict(rows, lo, hi);
    BetweenMembers(rows, lo, hi);
    assert lo <= c <= hi && whole[n - 1].serverTimestamp != c by { OrderedStrict(t, n); }
    StrictAscends(rows);
    hide Strict, Between, Ascending;
    if start < end && c == end {
      AscendingBoundary(rows, start, end, n);
      AtOneTime(rows, c);
    } else {
      PageBoundary(rows, start, end, n);
    }
  }

  lemma StrictAscends<V>(data: seq<DataValue<V>>)
    requires Strict(data)
    ensures Ascending(data)
  {
  }

  lemma OrderedStrict<V>(t: seq<DataValue<V>>, n: nat)
    requires Strict(t) && 0 < n < |t|
    ensures t[n - 1].serverTimestamp != t[n].serverTimestamp
    ensures Reversed(t)[n - 1].serverTimestamp != Reversed(t)[n].serverTimestamp
  {
  }

  // A DateTime on the wire counts tenths of microseconds.
  function Pack(t: Time): nat {
    t * 10
  }

  function Unpack(ticks: nat): Time {
    ticks / 10
  }

  /** A history read: a continuation point given back by the client replaces the start. */
  function HistoryRead<V>(rows: seq<DataValue<V>>, start: Time, end: Time, n: nat, point: Option<nat>, now: Time)
    : (seq<DataValue<V>>, Option<nat>)
  {
    var from := if point.Some? then Unpack(point.value) else start;
    var r := SqlRead(rows, Some(from), Some(end), n, now);
    (r.values, if r.continuation.Some? then Some(Pack(r.continuation.value)) else None)
  }

  lemma FirstPage<V>(rows: seq<DataValue<V>>, start: Time, end: Time, n: nat, point: Option<nat>, now: Time)
    requires Strict(rows) && n > 0 && end != EPOCH && (if point.Some? then Unpack(point.value) else start) != EPOCH
    ensures var whole := Ordered(rows, if point.Some? then Unpack(point.value) else start, end);
            var (page, next) := HistoryRead(rows, start, end, n, point, now);
            && page == Take(whole, n)
            && (next.Some? <==> |whole| > n)
            && (next.Some? ==> Unpack(next.value) == whole[n].serverTimestamp)
  {
    var from := if point.Some? then Unpack(point.value) else start;
    if from == end {
      AtOneTime(rows, from);
    }
  }

  /** How many values an unpaged read from here on returns. */
  function Remaining<V>(rows: seq<DataValue<V>>, start: Time, end: Time, point: Option<nat>): nat {
    |Ordered(rows, if point.Some? then Unpack(point.value) else start, end)|
  }

  lemma PagingMovesOn<V>(rows: seq<DataValue<V>>, start: Time, end: Time, n: nat, point: Option<nat>, now: Time)
    requires Strict(rows) && n > 0 && end != EPOCH && (if point.Some? then Unpack(point.value) else start) != EPOCH
    ensures var next := HistoryRead(rows, start, end, n, point, now).1;
            next.Some? ==>
              && Unpack(next.value) != EPOCH
              && Remaining(rows, start, end, next) < Remaining(rows, start, end, point)
  {
    var from := if point.Some? then Unpack(point.value) else start;
    hide HistoryRead, Ordered, Strict, Unpack;
    FirstPage(rows, start, end, n, point, now);
    if |Ordered(rows, from, end)| > n {
      NextPage(rows, from, end, n);
    }
  }

  /** The pages a client gets that sends every continuation point back until there is none. */
  function ReadPages<V>(rows: seq<DataValue<V>>, start: Time, end: Time, n: nat, point: Option<nat>, now: Time)
    : seq<seq<DataValue<V>>>
    requires Strict(rows) && n > 0 && end != EPOCH && (if point.Some? then Unpack(point.value) else start) != EPOCH
    decreases Remaining(rows, start, end, point)
  {
    var (page, next) := HistoryRead(rows, start, end, n, point, now);
    if next.None? then [page]
    else
      PagingMovesOn(rows, start, end, n, point, now);
      [page] + ReadPages(rows, start, end, n, next, now)
  }

  function Concat<V>(pages: seq<seq<V>>): seq<V> {
    if pages == [] then [] else pages[0] + Concat(pages[1..])
  }

  /** Full pages and a last one that together are this list. */
  predicate PagesOf<V(==)>(pages: seq<seq<V>>, whole: seq<V>, n: nat) {
    && Concat(pages) == whole
    && pages != [] && |pages[|pages| - 1]| <= n
    && forall i | 0 <= i < |pages| - 1 :: |pages[i]| == n
  }

  lemma PageInFront<V>(pages: seq<seq<V>>, whole: seq<V>, n: nat)
    requires n < |whole| && PagesOf(pages, whole[n..], n)
    ensures PagesOf([whole[..n]] + pages, whole, n)
  {
    var longer := [whole[..n]] + pages;
    assert longer[1..] == pages;
    assert whole[..n] + whole[n..] == whole;
    assert longer[|longer| - 1] == pages[|pages| - 1];
    forall i | 0 <= i < |longer| - 1
      ensures |longer[i]| == n
    {
      assert i > 0 ==> longer[i] == pages[i - 1];
    }
  }

  lemma OnlyPage<V>(whole: seq<V>, n: nat)
    requires |whole| <= n
    ensures PagesOf([whole], whole, n)
  {
    assert [whole][1..] == [];
    assert Concat([whole]) == whole + Concat([whole][1..]);
  }

  /**
   Reading in pages ends, every page but the last is full, and together they are the unpaged read,
   in either direction.
   */
  lemma {:induction false} PagesAreComplete<V>(rows: seq<DataValue<V>>, start: Time, end: Time, n: nat,
                                               point: Option<nat>, now: Time)
    requires Strict(rows) && n > 0 && end != EPOCH && (if point.Some? then Unpack(point.value) else start) != EPOCH
    ensures var from := if point.Some? then Unpack(point.value) else start;
            PagesOf(ReadPages(rows, start, end, n, point, now), SqlRead(rows, Some(from), Some(end), 0, now).values, n)
    decreases Remaining(rows, start, end, point)
  {
    var from := if point.Some? then Unpack(point.value) else start;
    var whole := Ordered(rows, from, end);
    var (page, next) := HistoryRead(rows, start, end, n, point, now);
    FirstPage(rows, start, end, n, point, now);
    ReadsAgree(rows, from, end, now);
    hide HistoryRead, Ordered, SqlRead, Strict, PagesOf, Unpack;
    if next.Some? {
      NextPage(rows, from, end, n);
      PagesAreComplete(rows, start, end, n, next, now);
      ReadsAgree(rows, Unpack(next.value), end, now);
      PageInFront(ReadPages(rows, start, end, n, next, now), whole, n);
    } else {
      OnlyPage(whole, n);
    }
  }
}
