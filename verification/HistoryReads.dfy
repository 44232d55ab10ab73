/** What a read of either store returns, in terms of timestamps alone. */
module HistoryReads {
  import opened Wrappers
  import opened History

  /** Exactly the values with a timestamp from lo to hi, in time order or against it. */
  predicate Selects<V(==)>(result: seq<DataValue<V>>, data: seq<DataValue<V>>, lo: Time, hi: Time, newestFirst: bool) {
    && (forall dv :: dv in result ==> dv in data && lo <= dv.serverTimestamp <= hi)
    && (forall dv :: dv in data && lo <= dv.serverTimestamp <= hi ==> dv in result)
    && forall i, j | 0 <= i < j < |result| ::
         if newestFirst then result[i].serverTimestamp > result[j].serverTimestamp
         else result[i].serverTimestamp < result[j].serverTimestamp
  }

  lemma {:induction false} FromGives<V>(data: seq<DataValue<V>>, lo: int)
    requires Strict(data)
    ensures Strict(NotBefore(data, lo))
    ensures forall dv :: dv in NotBefore(data, lo) <==> dv in data && lo <= dv.serverTimestamp
    decreases |data|
  {
    if data != [] {
      var (front, last) := (data[..|data| - 1], data[|data| - 1]);
      FromGives(front, lo);
      OneMore(data, front, last, NotBefore(front, lo), lo);
    }
  }

  lemma OneMore<V>(data: seq<DataValue<V>>, front: seq<DataValue<V>>, last: DataValue<V>, kept: seq<DataValue<V>>,
                   lo: int)
    requires data == front + [last] && Strict(data) && Strict(kept)
    requires forall dv :: dv in kept <==> dv in front && lo <= dv.serverTimestamp
    ensures var more := kept + if last.serverTimestamp < lo then [] else [last];
            Strict(more) && forall dv :: dv in more <==> dv in data && lo <= dv.serverTimestamp
  {
    forall i | 0 <= i < |kept|
      ensures kept[i].serverTimestamp < last.serverTimestamp
    {
      assert kept[i] in front;
      var j :| 0 <= j < |front| && front[j] == kept[i];
      assert data[j] == front[j] && data[|front|] == last;
    }
  }

  lemma ReversedGives<V>(s: seq<DataValue<V>>)
    requires Strict(s)
    ensures forall dv :: dv in Reversed(s) <==> dv in s
    ensures forall i, j | 0 <= i < j < |s| :: Reversed(s)[i].serverTimestamp > Reversed(s)[j].serverTimestamp
  {
    forall dv | dv in s
      ensures dv in Reversed(s)
    {
      var i :| 0 <= i < |s| && s[i] == dv;
      assert Reversed(s)[|s| - 1 - i] == dv;
    }
  }

  lemma BetweenSelects<V>(data: seq<DataValue<V>>, lo: Time, hi: Time)
    requires Strict(data)
    ensures Selects(Between(data, lo, hi), data, lo, hi, false)
    ensures Selects(Reversed(Between(data, lo, hi)), data, lo, hi, true)
  {
    BetweenStrict(data, lo, hi);
    BetweenMembers(data, lo, hi);
    hide Between, Reversed;
    SelectsReversed(Between(data, lo, hi), data, lo, hi);
  }

  lemma SelectsReversed<V>(t: seq<DataValue<V>>, data: seq<DataValue<V>>, lo: Time, hi: Time)
    requires Selects(t, data, lo, hi, false)
    ensures Selects(Reversed(t), data, lo, hi, true)
  {
    ReversedGives(t);
    hide Reversed;
  }

  predicate Missing(t: Option<Time>) {
    t.None? || t.value == 0
  }

  /**
   The list store: without a start everything, newest first, whatever the end; without an end everything from the
   start on, oldest first; with both what lies between them, newest first if the start is the later one.
   */
  lemma DictReadMeans<V>(data: seq<DataValue<V>>, start: Option<Time>, end: Option<Time>)
    requires Strict(data)
    ensures var read := DictRead(data, start, end, 0);
            && read.Ok? && read.value.continuation == None
            && var values := read.value.values;
            if Missing(start) then values == Reversed(data)
            else if Missing(end) then
              && (forall dv :: dv in values <==> dv in data && start.value <= dv.serverTimestamp)
              && forall i, j | 0 <= i < j < |values| :: values[i].serverTimestamp < values[j].serverTimestamp
            else if start.value > end.value then Selects(values, data, end.value, start.value, true)
            else Selects(values, data, start.value, end.value, false)
  {
    var s := if start.None? then 0 else start.value;
    FromGives(data, s);
    if Missing(start) {
      NothingBefore(data);
    } else if !Missing(end) {
      BetweenSelects(data, start.value, end.value);
      BetweenSelects(data, end.value, start.value);
    }
    hide NotBefore, Between, Reversed, Selects;
  }

  lemma {:induction false} NothingBefore<V>(data: seq<DataValue<V>>)
    ensures NotBefore(data, 0) == data
    decreases |data|
  {
    if data != [] {
      NothingBefore(data[..|data| - 1]);
    }
  }

  /**
   The table: a missing start is 0 and a missing end a day from now; the result is what lies between them, oldest
   first if the start was given and is before the end, and newest first otherwise.
   */
  lemma SqlReadMeans<V>(rows: seq<DataValue<V>>, start: Option<Time>, end: Option<Time>, now: Time)
    requires Strict(rows)
    ensures var read := SqlRead(rows, start, end, 0, now);
            var s := if start.None? then 0 else start.value;
            var e := if Missing(end) then now + 86_400_000_000 else end.value;
            && read.continuation == None
            && (s < e ==> Selects(read.values, rows, s, e, Missing(start)))
            && (s >= e ==> Selects(read.values, rows, e, s, true))
  {
    var s := if start.None? then 0 else start.value;
    var e := if Missing(end) then now + 86_400_000_000 else end.value;
    SqlReads(rows, start, end, now, s, e);
    hide Between, Reversed, Selects, SqlRead;
    if s < e {
      BetweenSelects(rows, s, e);
    } else {
      BetweenSelects(rows, e, s);
    }
  }

  lemma SqlReads<V>(rows: seq<DataValue<V>>, start: Option<Time>, end: Option<Time>, now: Time, s: Time, e: Time)
    requires s == if start.None? then 0 else start.value
    requires e == if Missing(end) then now + 86_400_000_000 else end.value
    ensures SqlRead(rows, start, end, 0, now) ==
            ReadResult(if s < e && !Missing(start) then Between(rows, s, e)
                       else if s < e then Reversed(Between(rows, s, e)) else Reversed(Between(rows, e, s)), None)
  {
    hide Between, Reversed;
  }

  /** A page of the table: the first n of what the read without a limit gives, and the next one's timestamp. */
  lemma SqlPage<V>(rows: seq<DataValue<V>>, start: Option<Time>, end: Option<Time>, n: nat, now: Time)
    requires n > 0
    ensures var (page, whole) := (SqlRead(rows, start, end, n, now), SqlRead(rows, start, end, 0, now).values);
            if |whole| <= n then page == ReadResult(whole, None)
            else page == ReadResult(whole[..n], Some(whole[n].serverTimestamp))
  {
    hide Between, Reversed;
    var whole := SqlRead(rows, start, end, 0, now).values;
    if |whole| > n {
      assert whole[..n + 1][..n] == whole[..n];
    }
  }

  /** A page of the list: the one after the next one's timestamp, and an IndexError where there is none. */
  lemma DictPage<V>(data: seq<DataValue<V>>, start: Option<Time>, end: Option<Time>, n: nat)
    requires n > 0
    ensures var (page, whole) := (DictRead(data, start, end, n), DictRead(data, start, end, 0).value.values);
            if |whole| <= n then page == Ok(ReadResult(whole, None))
            else if |whole| == n + 1 then page == Err(IndexError)
            else page == Ok(ReadResult(whole[..n], Some(whole[n + 1].serverTimestamp)))
  {
    hide DictSelect;
  }
}
