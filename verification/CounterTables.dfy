/**
 The four counter tables that a flush upserts into, and what they hold after any sequence
 of committed batches.
 */
module CounterTables {

  datatype Event =
    | PageView(path: string, source: string, actor: string)
    | Search(query: string, searchType: string, hadResults: bool)

  /** One event as a flush executes it: the clock it reads and the outcome of its statements. */
  datatype Executed = Executed(event: Event, now: int, hoursOk: bool, totalsOk: bool)

  datatype Row = Row(count: nat, first: int, last: int)

  type Name = (string, string)
  type Hourly = (Name, int)

  datatype Tables = Tables(
    viewHours: map<Hourly, nat>,
    views: map<Name, Row>,
    searchHours: map<Hourly, nat>,
    failed: map<Name, Row>)

  const NO_ROWS := Tables(map[], map[], map[], map[])

  /** Go's `%`: the result takes the sign of the dividend. */
  function Remainder(a: int, b: int): int
    requires b > 0
  {
    if a >= 0 then a % b else -((-a) % b)
  }

  function Hour(now: int): int {
    now - Remainder(now, 3600)
  }

  /** The start of the hour that the clock is in; before 1970 Go rounds up to its end. */
  lemma HourExactly(now: int)
    ensures Hour(now) % 3600 == 0
    ensures if now >= 0 then Hour(now) <= now < Hour(now) + 3600 else Hour(now) - 3600 < now <= Hour(now)
  {
    var n := if now >= 0 then now else -now;
    assert n == (n / 3600) * 3600 + n % 3600;
    assert Hour(now) == if now >= 0 then (n / 3600) * 3600 else (-(n / 3600)) * 3600;
  }

  /** `INSERT ... ON CONFLICT DO UPDATE SET count = count + 1`. */
  function Bump<K>(table: map<K, nat>, key: K): map<K, nat> {
    table[key := (if key in table then table[key] else 0) + 1]
  }

  /** The same upsert on a table that also keeps the first and the last time. */
  function Touch<K>(table: map<K, Row>, key: K, now: int): map<K, Row> {
    table[key := if key in table then Row(table[key].count + 1, table[key].first, now) else Row(1, now, now)]
  }

  /** The body of the loop in `flush`. */
  function Exec(t: Tables, x: Executed): Tables {
    match x.event
    case PageView(path, source, _) =>
      var t := if x.hoursOk then t.(viewHours := Bump(t.viewHours, ((path, source), Hour(x.now)))) else t;
      if x.totalsOk then t.(views := Touch(t.views, (path, source), x.now)) else t
    case Search(query, searchType, hadResults) =>
      var t := if x.hoursOk then t.(searchHours := Bump(t.searchHours, ((query, searchType), Hour(x.now)))) else t;
      if !hadResults && x.totalsOk then t.(failed := Touch(t.failed, (query, searchType), x.now)) else t
  }

  function ExecAll(t: Tables, xs: seq<Executed>): Tables {
    if xs == [] then t else Exec(ExecAll(t, xs[..|xs| - 1]), xs[|xs| - 1])
  }

  // ---- batches ----

  /** One call of `flush`. A batch that does not commit is rolled back. */
  datatype Batch = Batch(executed: seq<Executed>, committed: bool)

  function Flush(t: Tables, b: Batch): Tables {
    if b.committed then ExecAll(t, b.executed) else t
  }

  function FlushAll(t: Tables, bs: seq<Batch>): Tables {
    if bs == [] then t else Flush(FlushAll(t, bs[..|bs| - 1]), bs[|bs| - 1])
  }

  /** Everything that committed batches executed, in order. */
  function Committed(bs: seq<Batch>): seq<Executed> {
    if bs == [] then []
    else Committed(bs[..|bs| - 1]) + (if bs[|bs| - 1].committed then bs[|bs| - 1].executed else [])
  }

  lemma {:induction false} ExecAllAppend(t: Tables, a: seq<Executed>, b: seq<Executed>)
    ensures ExecAll(t, a + b) == ExecAll(ExecAll(t, a), b)
  {
    if b == [] {
      assert a + b == a;
    } else {
      assert (a + b)[..|a + b| - 1] == a + b[..|b| - 1];
      ExecAllAppend(t, a, b[..|b| - 1]);
    }
  }

  /** The tables depend on what was committed, not on how it was cut into batches. */
  lemma {:induction false} BatchingUnobservable(t: Tables, bs: seq<Batch>)
    ensures FlushAll(t, bs) == ExecAll(t, Committed(bs))
  {
    if bs != [] {
      BatchingUnobservable(t, bs[..|bs| - 1]);
      var last := bs[|bs| - 1];
      if last.committed {
        ExecAllAppend(t, Committed(bs[..|bs| - 1]), last.executed);
      } else {
        assert Committed(bs) == Committed(bs[..|bs| - 1]);
      }
    }
  }

  // ---- what the rows mean, stated on the committed sequence ----

  function Filter<T>(xs: seq<T>, p: T -> bool): seq<T> {
    if xs == [] then []
    else
      var rest := Filter(xs[..|xs| - 1], p);
      if p(xs[|xs| - 1]) then rest + [xs[|xs| - 1]] else rest
  }

  function Count<T>(xs: seq<T>, p: T -> bool): nat {
    |Filter(xs, p)|
  }

  predicate ViewTotal(x: Executed, name: Name) {
    x.event.PageView? && (x.event.path, x.event.source) == name && x.totalsOk
  }

  predicate ViewInHours(x: Executed, name: Name) {
    x.event.PageView? && (x.event.path, x.event.source) == name && x.hoursOk
  }

  predicate SearchInHours(x: Executed, name: Name) {
    x.event.Search? && (x.event.query, x.event.searchType) == name && x.hoursOk
  }

  predicate FailedTotal(x: Executed, name: Name) {
    x.event.Search? && !x.event.hadResults && (x.event.query, x.event.searchType) == name && x.totalsOk
  }

  /** The row summarises `xs`: how many, when first, when last; no row when there are none. */
  ghost predicate Summarises(table: map<Name, Row>, name: Name, xs: seq<Executed>) {
    if xs == [] then name !in table
    else name in table && table[name] == Row(|xs|, xs[0].now, xs[|xs| - 1].now)
  }

  ghost predicate CountsHour(table: map<Hourly, nat>, key: Hourly, xs: seq<Executed>) {
    var n := Count(xs, (x: Executed) => Hour(x.now) == key.1);
    if n == 0 then key !in table else key in table && table[key] == n
  }

  /** Each row of the two totals tables is the summary of the matching events. */
  lemma {:induction false} TotalsSummarise(xs: seq<Executed>, name: Name)
    ensures Summarises(ExecAll(NO_ROWS, xs).views, name, Filter(xs, (x: Executed) => ViewTotal(x, name)))
    ensures Summarises(ExecAll(NO_ROWS, xs).failed, name, Filter(xs, (x: Executed) => FailedTotal(x, name)))
  {
    if xs != [] {
      TotalsSummarise(xs[..|xs| - 1], name);
    }
  }

  /** Each row of the two hourly tables counts the matching events of its hour. */
  lemma {:induction false} HoursCount(xs: seq<Executed>, key: Hourly)
    ensures CountsHour(ExecAll(NO_ROWS, xs).viewHours, key, Filter(xs, (x: Executed) => ViewInHours(x, key.0)))
    ensures CountsHour(ExecAll(NO_ROWS, xs).searchHours, key, Filter(xs, (x: Executed) => SearchInHours(x, key.0)))
  {
    if xs != [] {
      HoursCount(xs[..|xs| - 1], key);
      FilterTwice(xs, (x: Executed) => ViewInHours(x, key.0), (x: Executed) => Hour(x.now) == key.1);
      FilterTwice(xs, (x: Executed) => SearchInHours(x, key.0), (x: Executed) => Hour(x.now) == key.1);
    }
  }

  lemma FilterTwice<T>(xs: seq<T>, p: T -> bool, q: T -> bool)
    requires xs != []
    ensures Filter(Filter(xs, p), q) ==
            if p(xs[|xs| - 1]) && q(xs[|xs| - 1]) then Filter(Filter(xs[..|xs| - 1], p), q) + [xs[|xs| - 1]]
            else Filter(Filter(xs[..|xs| - 1], p), q)
  {
    var rest, x := Filter(xs[..|xs| - 1], p), xs[|xs| - 1];
    if p(x) {
      assert (rest + [x])[..|rest|] == rest;
    }
  }

  // ---- sums over the hours ----

  /** Sum of the counts of one name over all its hours. */
  ghost function SumHours(table: map<Hourly, nat>, name: Name): nat
    decreases |table|
  {
    if table == map[] then 0
    else
      var k :| k in table;
      (if k.0 == name then table[k] else 0) + SumHours(table - {k}, name)
  }

  /** The sum does not depend on the order in which the rows are visited. */
  lemma {:induction false} SumAnyRow(table: map<Hourly, nat>, name: Name, k: Hourly)
    requires k in table
    ensures SumHours(table, name) == (if k.0 == name then table[k] else 0) + SumHours(table - {k}, name)
    decreases |table|
  {
    var j :| j in table &&
             SumHours(table, name) == (if j.0 == name then table[j] else 0) + SumHours(table - {j}, name);
    if j != k {
      SumAnyRow(table - {j}, name, k);
      SumAnyRow(table - {k}, name, j);
      assert table - {j} - {k} == table - {k} - {j};
    }
  }

  lemma SumBump(table: map<Hourly, nat>, name: Name, k: Hourly)
    ensures SumHours(Bump(table, k), name) == SumHours(table, name) + if k.0 == name then 1 else 0
  {
    var bumped := Bump(table, k);
    SumAnyRow(bumped, name, k);
    if k in table {
      SumAnyRow(table, name, k);
      assert bumped - {k} == table - {k};
    } else {
      assert bumped - {k} == table;
    }
  }

  lemma {:induction false} SumsCount(xs: seq<Executed>, name: Name)
    ensures SumHours(ExecAll(NO_ROWS, xs).viewHours, name) == Count(xs, (x: Executed) => ViewInHours(x, name))
    ensures SumHours(ExecAll(NO_ROWS, xs).searchHours, name) == Count(xs, (x: Executed) => SearchInHours(x, name))
  {
    if xs != [] {
      SumsCount(xs[..|xs| - 1], name);
      var t, x := ExecAll(NO_ROWS, xs[..|xs| - 1]), xs[|xs| - 1];
      match x.event {
        case PageView(path, source, _) => SumBump(t.viewHours, name, ((path, source), Hour(x.now)));
        case Search(query, searchType, _) => SumBump(t.searchHours, name, ((query, searchType), Hour(x.now)));
      }
    }
  }

  predicate AllExecuted(xs: seq<Executed>) {
    forall i :: 0 <= i < |xs| ==> xs[i].hoursOk && xs[i].totalsOk
  }

  predicate Succeeded(x: Executed, name: Name) {
    x.event.Search? && x.event.hadResults && (x.event.query, x.event.searchType) == name
  }

  function CountIn(table: map<Name, Row>, name: Name): nat {
    if name in table then table[name].count else 0
  }

  lemma {:induction false} AllExecutedCounts(xs: seq<Executed>, name: Name)
    requires AllExecuted(xs)
    ensures Count(xs, (x: Executed) => ViewInHours(x, name)) == Count(xs, (x: Executed) => ViewTotal(x, name))
    ensures Count(xs, (x: Executed) => SearchInHours(x, name))
            == Count(xs, (x: Executed) => FailedTotal(x, name)) + Count(xs, (x: Executed) => Succeeded(x, name))
  {
    if xs != [] {
      assert AllExecuted(xs[..|xs| - 1]);
      AllExecutedCounts(xs[..|xs| - 1], name);
    }
  }

  /**
   The hourly and the totals tables agree after any batches: hours add up to the page-view
   total, and searches less failed searches are the successful ones.
   */
  lemma HoursAddUp(bs: seq<Batch>, name: Name)
    requires AllExecuted(Committed(bs))
    ensures var t := FlushAll(NO_ROWS, bs);
            && SumHours(t.viewHours, name) == CountIn(t.views, name)
            && SumHours(t.searchHours, name) - CountIn(t.failed, name)
               == Count(Committed(bs), (x: Executed) => Succeeded(x, name))
  {
    BatchingUnobservable(NO_ROWS, bs);
    var xs := Committed(bs);
    SumsCount(xs, name);
    TotalsSummarise(xs, name);
    AllExecutedCounts(xs, name);
  }

  /**
   Without the assumption that statements succeed: the hours add up to the total exactly
   when as many statements on either table were executed for that name.
   */
  lemma HoursAddUpExactly(bs: seq<Batch>, name: Name)
    ensures var t := FlushAll(NO_ROWS, bs);
            SumHours(t.viewHours, name) == CountIn(t.views, name)
            <==> Count(Committed(bs), (x: Executed) => ViewInHours(x, name))
                 == Count(Committed(bs), (x: Executed) => ViewTotal(x, name))
  {
    BatchingUnobservable(NO_ROWS, bs);
    SumsCount(Committed(bs), name);
    TotalsSummarise(Committed(bs), name);
  }
}
