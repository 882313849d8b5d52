/**
 An aggregate query: calc specifications compiled to a SELECT list, evaluated by group, and
 the result rows folded into named buckets.
 */
module Aggregate {
  import opened CalcSpecs
  import opened Seqs

  datatype Value = Null | Integer(i: int) | Real(r: real) | Text(s: string)

  /** One file's frontmatter. */
  type Row = map<string, Value>

  /** `json_extract`: a missing field is NULL. */
  function Extract(row: Row, field: string): Value {
    if field in row then row[field] else Null
  }

  datatype Column = GroupKey(field: string) | CountAll | Call(fn: string, field: string)

  datatype Query = Query(columns: seq<Column>, groupBy: string)

  // ---- compilation ----

  /** The column of one specification; an unknown function writes none. */
  function ColumnsOf(s: Spec): seq<Column> {
    if s.fn == "count" then [CountAll]
    else if s.fn == "avg" || s.fn == "sum" || s.fn == "min" || s.fn == "max" then [Call(s.fn, s.field)]
    else []
  }

  function Compiled(groupBy: string, specs: seq<Spec>): Query {
    Query([GroupKey(groupBy)] + FlatMap(ColumnsOf, specs), groupBy)
  }

  lemma OneMoreSpec(groupBy: string, specs: seq<Spec>, i: nat)
    requires i < |specs|
    ensures [GroupKey(groupBy)] + FlatMap(ColumnsOf, specs[..i + 1])
            == [GroupKey(groupBy)] + FlatMap(ColumnsOf, specs[..i]) + ColumnsOf(specs[i])
  {
    assert specs[..i + 1] == specs[..i] + [specs[i]];
    FlatMapSnoc(ColumnsOf, specs[..i], specs[i]);
    Associates([GroupKey(groupBy)], FlatMap(ColumnsOf, specs[..i]), ColumnsOf(specs[i]));
  }

  /** The query builder: the group column, then the columns of the specifications in turn. */
  method Compile(groupBy: string, specs: seq<Spec>) returns (q: Query)
    ensures q == Compiled(groupBy, specs)
  {
    var columns := [GroupKey(groupBy)];
    var i := 0;
    while i < |specs|
      invariant 0 <= i <= |specs|
      invariant columns == [GroupKey(groupBy)] + FlatMap(ColumnsOf, specs[..i])
    {
      OneMoreSpec(groupBy, specs, i);
      assert columns + [] == columns;
      if specs[i].fn == "count" {
        columns := columns + [CountAll];
      } else if specs[i].fn == "avg" || specs[i].fn == "sum" || specs[i].fn == "min" || specs[i].fn == "max" {
        columns := columns + [Call(specs[i].fn, specs[i].field)];
      }
      i := i + 1;
    }
    assert specs[..i] == specs;
    q := Query(columns, groupBy);
  }

  function ColumnOf(s: Spec): Column
    requires ValidFn(s.fn)
  {
    if s.fn == "count" then CountAll else Call(s.fn, s.field)
  }

  lemma OneColumn(s: Spec)
    requires ValidFn(s.fn)
    ensures ColumnsOf(s) == [ColumnOf(s)]
  {
  }

  lemma ValidFunctions(specs: seq<Spec>)
    requires AllValid(specs)
    ensures FunctionsValid(specs)
  {
    forall i | 0 <= i < |specs| ensures ValidFn(specs[i].fn) {
      assert ValidSpec(specs[i]);
    }
  }

  function AllColumns(specs: seq<Spec>): seq<Column>
    requires FunctionsValid(specs)
  {
    seq(|specs|, i requires 0 <= i < |specs| => ColumnOf(specs[i]))
  }

  lemma ColumnsEach(specs: seq<Spec>)
    requires FunctionsValid(specs)
    ensures FlatMap(ColumnsOf, specs) == AllColumns(specs)
  {
    var f := ColumnsOf;
    forall i | 0 <= i < |specs| ensures f(specs[i]) == [AllColumns(specs)[i]] {
      OneColumn(specs[i]);
    }
    FlatMapEach(f, specs, AllColumns(specs));
  }

  /** Exactly one column for each specification, behind the group column. */
  lemma OneColumnEach(groupBy: string, specs: seq<Spec>)
    requires AllValid(specs)
    ensures FunctionsValid(specs)
    ensures var q := Compiled(groupBy, specs);
            && |q.columns| == |specs| + 1 && q.columns[0] == GroupKey(groupBy)
            && forall i :: 0 <= i < |specs| ==> q.columns[i + 1] == ColumnOf(specs[i])
  {
    ValidFunctions(specs);
    ColumnsEach(specs);
    ColumnsBehind(GroupKey(groupBy), specs);
  }

  lemma ColumnsBehind(key: Column, specs: seq<Spec>)
    requires FunctionsValid(specs)
    ensures var columns := [key] + AllColumns(specs);
            && |columns| == |specs| + 1 && columns[0] == key
            && forall i :: 0 <= i < |specs| ==> columns[i + 1] == ColumnOf(specs[i])
  {
  }

  // ---- evaluation ----

  /** SQLite's AVG, SUM, MIN and MAX over the values of a field, in row order. */
  type Functions = (string, seq<Value>) -> Value

  /** GROUP BY puts equal values together; an integer and a real are equal when they denote one number. */
  predicate Same(v: Value, w: Value) {
    || v == w
    || (v.Integer? && w.Real? && v.i as real == w.r)
    || (v.Real? && w.Integer? && v.r == w.i as real)
  }

  /** Numbers are compared by value, and nothing else equals anything but itself. */
  lemma SameExactly(i: int, r: real, v: Value)
    ensures Same(Integer(i), Real(r)) <==> i as real == r
    ensures Same(Real(r), Integer(i)) <==> i as real == r
    ensures v.Null? || v.Text? ==> forall w :: Same(v, w) || Same(w, v) ==> v == w
  {
  }

  function Members(rows: seq<Row>, field: string, group: Value): seq<Row> {
    if rows == [] then []
    else
      var row := rows[|rows| - 1];
      Members(rows[..|rows| - 1], field, group) + (if Same(Extract(row, field), group) then [row] else [])
  }

  function Values(rows: seq<Row>, field: string): seq<Value> {
    seq(|rows|, i requires 0 <= i < |rows| => Extract(rows[i], field))
  }

  function EvalColumn(fns: Functions, c: Column, group: Value, members: seq<Row>): Value {
    match c
    case GroupKey(_) => group
    case CountAll => Integer(|members|)
    case Call(fn, field) => fns(fn, Values(members, field))
  }

  function EvalRow(fns: Functions, q: Query, rows: seq<Row>, group: Value): seq<Value> {
    var members := Members(rows, q.groupBy, group);
    seq(|q.columns|, i requires 0 <= i < |q.columns| => EvalColumn(fns, q.columns[i], group, members))
  }

  /** The result set, one row for each group in the order the database chose. */
  function Eval(fns: Functions, q: Query, rows: seq<Row>, groups: seq<Value>): seq<seq<Value>> {
    seq(|groups|, i requires 0 <= i < |groups| => EvalRow(fns, q, rows, groups[i]))
  }

  /** No two values denote one group. */
  predicate Apart(groups: seq<Value>) {
    forall i, j :: 0 <= i < j < |groups| ==> !Same(groups[i], groups[j])
  }

  ghost predicate Grouped(v: Value, groups: seq<Value>) {
    exists i :: 0 <= i < |groups| && Same(v, groups[i])
  }

  /** The groups of the matching rows, each once, each under the value of one of its members. */
  ghost predicate GroupsOf(rows: seq<Row>, field: string, groups: seq<Value>) {
    && Apart(groups)
    && (forall i :: 0 <= i < |rows| ==> Grouped(Extract(rows[i], field), groups))
    && (forall i :: 0 <= i < |groups| ==> groups[i] in Values(Members(rows, field, groups[i]), field))
  }

  // ---- folding ----

  type Bucket = map<string, Value>

  /** `fmt.Sprint` of a value; NULL prints as "<nil>". */
  type Printer = Value -> string

  function KeyOf(show: Printer, v: Value): string {
    if show(v) == "<nil>" then "(none)" else show(v)
  }

  function BucketOf(specs: seq<Spec>, vals: seq<Value>): Bucket
    requires |specs| < |vals|
  {
    if specs == [] then map[]
    else
      var n := |specs| - 1;
      BucketOf(specs[..n], vals[..|specs|])[Label(specs[n]) := vals[n + 1]]
  }

  function Folded(show: Printer, specs: seq<Spec>, results: seq<seq<Value>>): map<string, Bucket>
    requires forall i :: 0 <= i < |results| ==> |specs| < |results[i]|
  {
    if results == [] then map[]
    else
      var vals := results[|results| - 1];
      Folded(show, specs, results[..|results| - 1])[KeyOf(show, vals[0]) := BucketOf(specs, vals)]
  }

  /** The scan over the result rows; a row short of columns would be out of range. */
  method Fold(show: Printer, specs: seq<Spec>, results: seq<seq<Value>>) returns (groups: map<string, Bucket>)
    requires forall i :: 0 <= i < |results| ==> |specs| < |results[i]|
    ensures groups == Folded(show, specs, results)
  {
    groups := map[];
    var n := 0;
    while n < |results|
      invariant 0 <= n <= |results|
      invariant groups == Folded(show, specs, results[..n])
    {
      assert results[..n + 1][..n] == results[..n];
      var vals := results[n];
      var key := show(vals[0]);
      if key == "<nil>" {
        key := "(none)";
      }
      var bucket := FillBucket(specs, vals);
      groups := groups[key := bucket];
      n := n + 1;
    }
    assert results[..n] == results;
  }

  /** The inner loop: `vals[i + 1]` under the label of specification `i`. */
  method FillBucket(specs: seq<Spec>, vals: seq<Value>) returns (bucket: Bucket)
    requires |specs| < |vals|
    ensures bucket == BucketOf(specs, vals)
  {
    bucket := map[];
    var i := 0;
    while i < |specs|
      invariant 0 <= i <= |specs|
      invariant bucket == BucketOf(specs[..i], vals[..i + 1])
    {
      assert specs[..i + 1][..i] == specs[..i] && vals[..i + 2][..i + 1] == vals[..i + 1];
      bucket := bucket[Label(specs[i]) := vals[i + 1]];
      i := i + 1;
    }
    assert specs[..i] == specs;
    BucketPrefix(specs, vals);
  }

  lemma BucketPrefix(specs: seq<Spec>, vals: seq<Value>)
    requires |specs| < |vals|
    ensures BucketOf(specs, vals[..|specs| + 1]) == BucketOf(specs, vals)
  {
    if specs != [] {
      assert vals[..|specs| + 1][..|specs|] == vals[..|specs|];
    }
  }

  // ---- the meaning of a query ----

  /** What a specification asks of a group, with no query in between. */
  function Direct(fns: Functions, s: Spec, members: seq<Row>): Value {
    if s.fn == "count" then Integer(|members|) else fns(s.fn, Values(members, s.field))
  }

  /** Exactly the labels of the specifications, each with its direct aggregate. */
  ghost predicate BucketExact(fns: Functions, specs: seq<Spec>, members: seq<Row>, bucket: Bucket) {
    && (forall name :: name in bucket <==> name in Labels(specs))
    && (forall i :: 0 <= i < |specs| ==>
          Label(specs[i]) in bucket && bucket[Label(specs[i])] == Direct(fns, specs[i], members))
  }

  lemma BucketExactSnoc(fns: Functions, specs: seq<Spec>, s: Spec, members: seq<Row>, bucket: Bucket)
    requires AllValid(specs) && ValidSpec(s) && BucketExact(fns, specs, members, bucket)
    ensures BucketExact(fns, specs + [s], members, bucket[Label(s) := Direct(fns, s, members)])
  {
    var all, bucket' := specs + [s], bucket[Label(s) := Direct(fns, s, members)];
    assert Labels(all) == Labels(specs) + [Label(s)];
    forall i | 0 <= i < |all|
      ensures Label(all[i]) in bucket' && bucket'[Label(all[i])] == Direct(fns, all[i], members)
    {
      if i < |specs| {
        assert all[i] == specs[i];
        if Label(all[i]) == Label(s) {
          LabelInjective(all[i], s);
        }
      }
    }
  }

  lemma {:induction false} BucketMeaning(fns: Functions, specs: seq<Spec>, vals: seq<Value>, members: seq<Row>)
    requires |specs| < |vals| && AllValid(specs)
    requires forall i :: 0 <= i < |specs| ==> vals[i + 1] == Direct(fns, specs[i], members)
    ensures BucketExact(fns, specs, members, BucketOf(specs, vals))
  {
    if specs != [] {
      var n := |specs| - 1;
      BucketMeaning(fns, specs[..n], vals[..|specs|], members);
      BucketExactSnoc(fns, specs[..n], specs[n], members, BucketOf(specs[..n], vals[..|specs|]));
      BucketOfLast(specs, vals);
      assert specs == specs[..n] + [specs[n]];
    }
  }

  lemma BucketOfLast(specs: seq<Spec>, vals: seq<Value>)
    requires specs != [] && |specs| < |vals|
    ensures var n := |specs| - 1;
            BucketOf(specs, vals) == BucketOf(specs[..n], vals[..|specs|])[Label(specs[n]) := vals[n + 1]]
  {
  }

  lemma EvalMeaning(fns: Functions, groupBy: string, specs: seq<Spec>, rows: seq<Row>, group: Value)
    requires AllValid(specs)
    ensures var vals := EvalRow(fns, Compiled(groupBy, specs), rows, group);
            && |vals| == |specs| + 1 && vals[0] == group
            && forall i :: 0 <= i < |specs| ==> vals[i + 1] == Direct(fns, specs[i], Members(rows, groupBy, group))
  {
    OneColumnEach(groupBy, specs);
  }

  /** The bucket that the compiled query and the scan make of one group. */
  function GroupBucket(fns: Functions, groupBy: string, specs: seq<Spec>, rows: seq<Row>, g: Value): Bucket
    requires AllValid(specs)
  {
    EvalMeaning(fns, groupBy, specs, rows, g);
    BucketOf(specs, EvalRow(fns, Compiled(groupBy, specs), rows, g))
  }

  lemma GroupBucketExact(fns: Functions, groupBy: string, specs: seq<Spec>, rows: seq<Row>, g: Value)
    requires AllValid(specs)
    ensures BucketExact(fns, specs, Members(rows, groupBy, g), GroupBucket(fns, groupBy, specs, rows, g))
  {
    EvalMeaning(fns, groupBy, specs, rows, g);
    BucketMeaning(fns, specs, EvalRow(fns, Compiled(groupBy, specs), rows, g), Members(rows, groupBy, g));
  }

  lemma WideEnough(fns: Functions, groupBy: string, specs: seq<Spec>, rows: seq<Row>, groups: seq<Value>)
    requires AllValid(specs)
    ensures var results := Eval(fns, Compiled(groupBy, specs), rows, groups);
            forall i :: 0 <= i < |results| ==> |specs| < |results[i]|
  {
    forall i | 0 <= i < |groups| ensures |specs| < |EvalRow(fns, Compiled(groupBy, specs), rows, groups[i])| {
      EvalMeaning(fns, groupBy, specs, rows, groups[i]);
    }
  }

  /** The server's answer to a query over the matching rows. */
  function Answer(
      fns: Functions, show: Printer, groupBy: string, specs: seq<Spec>, rows: seq<Row>, groups: seq<Value>):
      map<string, Bucket>
    requires AllValid(specs)
  {
    WideEnough(fns, groupBy, specs, rows, groups);
    Folded(show, specs, Eval(fns, Compiled(groupBy, specs), rows, groups))
  }

  lemma AnswerSnoc(
      fns: Functions, show: Printer, groupBy: string, specs: seq<Spec>, rows: seq<Row>, groups: seq<Value>, g: Value)
    requires AllValid(specs)
    ensures Answer(fns, show, groupBy, specs, rows, groups + [g])
            == Answer(fns, show, groupBy, specs, rows, groups)
                 [KeyOf(show, g) := GroupBucket(fns, groupBy, specs, rows, g)]
  {
    EvalMeaning(fns, groupBy, specs, rows, g);
    WideEnough(fns, groupBy, specs, rows, groups + [g]);
    var q := Compiled(groupBy, specs);
    assert Eval(fns, q, rows, groups + [g])[..|groups|] == Eval(fns, q, rows, groups);
  }

  /** Groups are filed under what they print as, except that what prints as "<nil>" is "(none)". */
  predicate FiledUnder(show: Printer, v: Value, key: string) {
    (show(v) == key && key != "<nil>") || (show(v) == "<nil>" && key == "(none)")
  }

  lemma KeyExactly(show: Printer, v: Value, key: string)
    ensures KeyOf(show, v) == key <==> FiledUnder(show, v, key)
  {
  }

  /** Position `i` is the last group that is filed under `key`. */
  ghost predicate LastWithKey(show: Printer, groups: seq<Value>, i: nat, key: string) {
    && i < |groups| && FiledUnder(show, groups[i], key)
    && forall j :: i < j < |groups| ==> !FiledUnder(show, groups[j], key)
  }

  /**
   Compiling keeps the meaning: the entry of each key is, label by label, the direct aggregate
   over the group that is filed under it; where several are, over the last of them.
   */
  lemma {:induction false} CompilationPreservesMeaning(
      fns: Functions, show: Printer, groupBy: string, specs: seq<Spec>, rows: seq<Row>, groups: seq<Value>)
    requires AllValid(specs)
    ensures var answer := Answer(fns, show, groupBy, specs, rows, groups);
            && (forall key :: key in answer ==> exists i: nat :: LastWithKey(show, groups, i, key))
            && (forall i: nat, key :: LastWithKey(show, groups, i, key) ==>
                  key in answer && BucketExact(fns, specs, Members(rows, groupBy, groups[i]), answer[key]))
  {
    if groups != [] {
      var n := |groups| - 1;
      var front, g := groups[..n], groups[n];
      var answer := Answer(fns, show, groupBy, specs, rows, groups);
      assert groups == front + [g];
      CompilationPreservesMeaning(fns, show, groupBy, specs, rows, front);
      AnswerSnoc(fns, show, groupBy, specs, rows, front, g);
      GroupBucketExact(fns, groupBy, specs, rows, g);
      forall key | key in answer ensures exists i: nat :: LastWithKey(show, groups, i, key) {
        KeyExactly(show, g, key);
        if key == KeyOf(show, g) {
          assert LastWithKey(show, groups, n, key);
        } else {
          var i: nat :| LastWithKey(show, front, i, key);
          assert LastWithKey(show, groups, i, key);
        }
      }
      forall i: nat, key | LastWithKey(show, groups, i, key)
        ensures key in answer && BucketExact(fns, specs, Members(rows, groupBy, groups[i]), answer[key])
      {
        KeyExactly(show, g, key);
        if i < n {
          assert LastWithKey(show, front, i, key);
        }
      }
    }
  }

  /** Some group is filed under the key. */
  ghost predicate Filed(show: Printer, groups: seq<Value>, key: string) {
    exists i :: 0 <= i < |groups| && FiledUnder(show, groups[i], key)
  }

  lemma FiledSnoc(show: Printer, groups: seq<Value>, g: Value, key: string)
    ensures Filed(show, groups + [g], key) <==> Filed(show, groups, key) || FiledUnder(show, g, key)
  {
    var all := groups + [g];
    assert all[|groups|] == g;
    if i :| 0 <= i < |groups| && FiledUnder(show, groups[i], key) {
      assert FiledUnder(show, all[i], key);
    }
  }

  /**
   The keys of the answer: what some group prints as, other than "<nil>", and "(none)" if some
   group prints as "<nil>".
   */
  lemma {:induction false} KeysExactly(
      fns: Functions, show: Printer, groupBy: string, specs: seq<Spec>, rows: seq<Row>, groups: seq<Value>, key: string)
    requires AllValid(specs)
    ensures key in Answer(fns, show, groupBy, specs, rows, groups) <==> Filed(show, groups, key)
    decreases |groups|
  {
    if groups != [] {
      var front, g := groups[..|groups| - 1], groups[|groups| - 1];
      assert groups == front + [g];
      KeysExactly(fns, show, groupBy, specs, rows, front, key);
      AnswerSnoc(fns, show, groupBy, specs, rows, front, g);
      KeyExactly(show, g, key);
      FiledSnoc(show, front, g, key);
    }
  }

  // ---- counts ----

  function CountIn(bucket: Bucket): nat {
    if "count" in bucket && bucket["count"].Integer? && bucket["count"].i >= 0 then bucket["count"].i else 0
  }

  /** The counts of all buckets together. */
  ghost function TotalCount(answer: map<string, Bucket>): nat
    decreases |answer|
  {
    if answer == map[] then 0
    else
      var k :| k in answer;
      CountIn(answer[k]) + TotalCount(answer - {k})
  }

  lemma {:induction false} TotalAnyKey(answer: map<string, Bucket>, k: string)
    requires k in answer
    ensures TotalCount(answer) == CountIn(answer[k]) + TotalCount(answer - {k})
    decreases |answer|
  {
    var j :| j in answer && TotalCount(answer) == CountIn(answer[j]) + TotalCount(answer - {j});
    if j != k {
      TotalAnyKey(answer - {j}, k);
      TotalAnyKey(answer - {k}, j);
      assert answer - {j} - {k} == answer - {k} - {j};
    }
  }

  lemma TotalUpdate(answer: map<string, Bucket>, k: string, b: Bucket)
    ensures TotalCount(answer[k := b]) + (if k in answer then CountIn(answer[k]) else 0)
            == TotalCount(answer) + CountIn(b)
  {
    TotalAnyKey(answer[k := b], k);
    if k in answer {
      TotalAnyKey(answer, k);
      assert answer[k := b] - {k} == answer - {k};
    } else {
      assert answer[k := b] - {k} == answer;
    }
  }

  function GroupSizes(rows: seq<Row>, field: string, groups: seq<Value>): nat {
    if groups == [] then 0
    else GroupSizes(rows, field, groups[..|groups| - 1]) + |Members(rows, field, groups[|groups| - 1])|
  }

  lemma SameOnce(v: Value, groups: seq<Value>, g: Value)
    requires Apart(groups + [g]) && Same(v, g)
    ensures Apart(groups) && !Grouped(v, groups)
  {
    var all := groups + [g];
    forall i | 0 <= i < |groups| ensures all[i] == groups[i] && !Same(v, groups[i]) {
      assert !Same(all[i], all[|groups|]);
    }
  }

  lemma GroupedSnoc(v: Value, groups: seq<Value>, g: Value)
    ensures Grouped(v, groups + [g]) <==> Grouped(v, groups) || Same(v, g)
  {
    var all := groups + [g];
    assert all[|groups|] == g;
    if i :| 0 <= i < |groups| && Same(v, groups[i]) {
      assert Same(v, all[i]);
    }
  }

  lemma {:induction false} OneMoreRow(rows: seq<Row>, row: Row, field: string, groups: seq<Value>)
    requires Apart(groups)
    ensures GroupSizes(rows + [row], field, groups)
            == GroupSizes(rows, field, groups) + if Grouped(Extract(row, field), groups) then 1 else 0
  {
    assert (rows + [row])[..|rows|] == rows;
    if groups != [] {
      var front, g := groups[..|groups| - 1], groups[|groups| - 1];
      assert groups == front + [g];
      OneMoreRow(rows, row, field, front);
      GroupedSnoc(Extract(row, field), front, g);
      if Same(Extract(row, field), g) {
        SameOnce(Extract(row, field), front, g);
      }
    }
  }

  /** Every matching row belongs to exactly one group. */
  lemma {:induction false} GroupsPartition(rows: seq<Row>, field: string, groups: seq<Value>)
    requires Apart(groups) && forall i :: 0 <= i < |rows| ==> Grouped(Extract(rows[i], field), groups)
    ensures GroupSizes(rows, field, groups) == |rows|
  {
    if rows == [] {
      NoRowsNoSizes(field, groups);
    } else {
      var front, row := rows[..|rows| - 1], rows[|rows| - 1];
      assert rows == front + [row];
      assert forall i :: 0 <= i < |front| ==> front[i] == rows[i];
      GroupsPartition(front, field, groups);
      OneMoreRow(front, row, field, groups);
    }
  }

  lemma {:induction false} NoRowsNoSizes(field: string, groups: seq<Value>)
    ensures GroupSizes([], field, groups) == 0
  {
    if groups != [] {
      NoRowsNoSizes(field, groups[..|groups| - 1]);
    }
  }

  /** The two print alike, or one as "<nil>" and the other as "(none)". */
  predicate Collide(show: Printer, v: Value, w: Value) {
    || show(v) == show(w)
    || (show(v) == "<nil>" && show(w) == "(none)")
    || (show(v) == "(none)" && show(w) == "<nil>")
  }

  lemma CollideExactly(show: Printer, v: Value, w: Value)
    ensures Collide(show, v, w) <==> KeyOf(show, v) == KeyOf(show, w)
  {
  }

  predicate KeysDistinct(show: Printer, groups: seq<Value>) {
    forall i, j :: 0 <= i < j < |groups| ==> !Collide(show, groups[i], groups[j])
  }

  /** Each collision of printed keys loses the count of the group that was there before. */
  lemma {:induction false} CountsLost(
      fns: Functions, show: Printer, groupBy: string, specs: seq<Spec>, rows: seq<Row>, groups: seq<Value>)
    requires AllValid(specs) && COUNT in specs
    requires forall i :: 0 <= i < |groups| ==> Members(rows, groupBy, groups[i]) != []
    ensures var answer := Answer(fns, show, groupBy, specs, rows, groups);
            && TotalCount(answer) <= GroupSizes(rows, groupBy, groups)
            && (TotalCount(answer) == GroupSizes(rows, groupBy, groups) <==> KeysDistinct(show, groups))
            && AllCount(answer)
  {
    if groups != [] {
      var front, g := groups[..|groups| - 1], groups[|groups| - 1];
      assert groups == front + [g];
      CountsLost(fns, show, groupBy, specs, rows, front);
      AnswerSnoc(fns, show, groupBy, specs, rows, front, g);
      var before := Answer(fns, show, groupBy, specs, rows, front);
      var bucket := GroupBucket(fns, groupBy, specs, rows, g);
      GroupBucketExact(fns, groupBy, specs, rows, g);
      CountOfBucket(fns, specs, Members(rows, groupBy, g), bucket);
      OneMoreBucket(before, KeyOf(show, g), bucket, GroupSizes(rows, groupBy, front));
      KeysExactly(fns, show, groupBy, specs, rows, front, KeyOf(show, g));
      CollidesWithSome(show, front, g);
      KeysDistinctSnoc(show, front, g);
    }
  }

  predicate AllCount(answer: map<string, Bucket>) {
    forall key :: key in answer ==> CountIn(answer[key]) > 0
  }

  /** A bucket under a new key adds its count; under an old one it replaces a positive count. */
  lemma OneMoreBucket(answer: map<string, Bucket>, key: string, bucket: Bucket, size: nat)
    requires TotalCount(answer) <= size && AllCount(answer) && CountIn(bucket) > 0
    ensures var after := answer[key := bucket];
            && TotalCount(after) <= size + CountIn(bucket) && AllCount(after)
            && (TotalCount(after) == size + CountIn(bucket) <==> TotalCount(answer) == size && key !in answer)
  {
    TotalUpdate(answer, key, bucket);
  }

  lemma CollidesWithSome(show: Printer, groups: seq<Value>, g: Value)
    ensures Filed(show, groups, KeyOf(show, g)) <==> exists i :: 0 <= i < |groups| && Collide(show, groups[i], g)
  {
    forall i | 0 <= i < |groups|
      ensures FiledUnder(show, groups[i], KeyOf(show, g)) <==> Collide(show, groups[i], g)
    {
      KeyExactly(show, groups[i], KeyOf(show, g));
      CollideExactly(show, groups[i], g);
    }
  }

  lemma KeysDistinctSnoc(show: Printer, groups: seq<Value>, g: Value)
    ensures KeysDistinct(show, groups + [g])
            <==> KeysDistinct(show, groups) && forall i :: 0 <= i < |groups| ==> !Collide(show, groups[i], g)
  {
    var all := groups + [g];
    assert all[|groups|] == g;
    assert forall i :: 0 <= i < |groups| ==> all[i] == groups[i];
  }

  lemma CountOfBucket(fns: Functions, specs: seq<Spec>, members: seq<Row>, bucket: Bucket)
    requires COUNT in specs && BucketExact(fns, specs, members, bucket)
    ensures CountIn(bucket) == |members|
  {
    var i :| 0 <= i < |specs| && specs[i] == COUNT;
    assert Label(specs[i]) == "count";
  }

  /**
   When a count was asked for, the counts of the answer add up to the number of matching
   rows exactly when no two groups print alike (NULL and the text "(none)" do).
   */
  lemma CountsAddUpExactly(
      fns: Functions, show: Printer, groupBy: string, specs: seq<Spec>, rows: seq<Row>, groups: seq<Value>)
    requires AllValid(specs) && COUNT in specs && GroupsOf(rows, groupBy, groups)
    ensures TotalCount(Answer(fns, show, groupBy, specs, rows, groups)) == |rows| <==> KeysDistinct(show, groups)
  {
    CountsLost(fns, show, groupBy, specs, rows, groups);
    GroupsPartition(rows, groupBy, groups);
  }

  lemma MembersOfTwo(a: Row, b: Row, field: string, g: Value)
    ensures Members([a, b], field, g)
            == (if Same(Extract(a, field), g) then [a] else []) + (if Same(Extract(b, field), g) then [b] else [])
  {
    assert [a, b][..1] == [a] && [a][..0] == [];
    assert Members([a], field, g) == [] + if Same(Extract(a, field), g) then [a] else [];
  }

  /**
   Two rows, one without the field and one whose field is the text "(none)": two groups that
   print alike, and one of the two counts is gone.
   */
  lemma NoneCollides(fns: Functions, show: Printer, field: string)
    requires show(Null) == "<nil>" && show(Text("(none)")) == "(none)"
    ensures var rows, groups := [map[], map[field := Text("(none)")]], [Null, Text("(none)")];
            && GroupsOf(rows, field, groups) && !KeysDistinct(show, groups)
            && TotalCount(Answer(fns, show, field, [COUNT], rows, groups)) != |rows|
  {
    var none: Row := map[];
    var some: Row := map[field := Text("(none)")];
    var rows, groups := [none, some], [Null, Text("(none)")];
    assert rows[..1] == [none] && [none][..0] == [];
    MembersOfTwo(none, some, field, Null);
    MembersOfTwo(none, some, field, Text("(none)"));
    assert Members(rows, field, Null) == [none] && Members(rows, field, Text("(none)")) == [some];
    assert Values([none], field)[0] == Null && Values([some], field)[0] == Text("(none)");
    assert Same(Extract(rows[0], field), groups[0]) && Same(Extract(rows[1], field), groups[1]);
    assert Collide(show, groups[0], groups[1]);
    assert [COUNT][0] == COUNT;
    CountsAddUpExactly(fns, show, field, [COUNT], rows, groups);
  }
}
