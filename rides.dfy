/**
 * The ride table that every per-file stage reads and writes back.
 * A ride file is a CSV with one row per sensor sample; here it is an
 * in-memory sequence of records, and deleting or rewriting the file
 * becomes a returned `Outcome`.
 */
module Rides {
  import opened Wrappers

  /** One sensor reading; `None` is an empty cell. */
  type Value = Option<real>

  /** One CSV row. The timestamp is an integer number of milliseconds and is always present. */
  datatype Row = Row(
    ts: int,
    x: Value, y: Value, z: Value,       // accelerometer X, Y, Z
    a: Value, b: Value, c: Value,       // gyroscope a, b, c
    xl: Value, yl: Value, zl: Value,    // linear accelerometer XL, YL, ZL
    acc: Value,                         // GPS accuracy
    lat: Value, lon: Value,
    incident: Value)

  /** Which optional columns the file carries: XL/YL/ZL, and acc until the accuracy stage drops it. */
  datatype Schema = Schema(linAcc: bool, hasAcc: bool)

  /** pandas raises KeyError when a stage selects the acc column of a file that no longer has it. */
  datatype KeyError = NoAccColumn

  /** One ride file. */
  datatype Ride = Ride(schema: Schema, rows: seq<Row>)

  /** What a per-file stage does with its file. */
  datatype Outcome = Rewrite(ride: Ride) | Untouched | Delete

  /** A row that only carries a timestamp (a new row added by resampling). */
  function EmptyRow(t: int): Row {
    Row(t, None, None, None, None, None, None, None, None, None, None, None, None, None)
  }

  /** Every column of the file holds a value in this row (it survives `dropna()`). */
  predicate Complete(r: Row, sch: Schema) {
    && r.x.Some? && r.y.Some? && r.z.Some? && r.a.Some? && r.b.Some? && r.c.Some?
    && (sch.linAcc ==> r.xl.Some? && r.yl.Some? && r.zl.Some?)
    && (sch.hasAcc ==> r.acc.Some?)
    && r.lat.Some? && r.lon.Some? && r.incident.Some?
  }

  /** The timestamp column. */
  function Ts(rows: seq<Row>): (t: seq<int>)
    ensures |t| == |rows|
  {
    seq(|rows|, i requires 0 <= i < |rows| => rows[i].ts)
  }

  /** The set of timestamps of a table (the index as a set). */
  function TsSet(rows: seq<Row>): set<int> {
    set r | r in rows :: r.ts
  }

  /** Elements of a timestamp series, as a set. */
  function Elems(xs: seq<int>): set<int> {
    set x | x in xs
  }

  predicate Sorted(rows: seq<Row>) {
    forall i, j :: 0 <= i < j < |rows| ==> rows[i].ts <= rows[j].ts
  }

  predicate StrictlyIncreasing(rows: seq<Row>) {
    forall i, j :: 0 <= i < j < |rows| ==> rows[i].ts < rows[j].ts
  }

  predicate Increasing(xs: seq<int>) {
    forall i, j :: 0 <= i < j < |xs| ==> xs[i] < xs[j]
  }

  predicate DistinctTs(rows: seq<Row>) {
    forall i, j :: 0 <= i < j < |rows| ==> rows[i].ts != rows[j].ts
  }

  /** The order-preserving sub-sequence of `s` whose elements satisfy `p` (boolean-mask indexing). */
  function Filter<T(!new)>(s: seq<T>, p: T -> bool): (r: seq<T>)
    ensures |r| <= |s|
    ensures forall x :: x in r <==> x in s && p(x)
    ensures |r| == |s| <==> forall x :: x in s ==> p(x)
  {
    if s == [] then []
    else if p(s[0]) then [s[0]] + Filter(s[1..], p)
    else
      assert s[0] in s && !p(s[0]);
      Filter(s[1..], p)
  }

  /** Filtering one element gives the element itself or nothing. */
  lemma FilterOfOne(x: Row, p: Row -> bool)
    ensures Filter([x], p) == if p(x) then [x] else []
  {
    assert [x][1..] == [];
  }

  lemma ConcatAssoc<T>(h: seq<T>, f: seq<T>, g: seq<T>)
    ensures h + (f + g) == (h + f) + g
  {
  }

  lemma SplitHead<T>(a: seq<T>, b: seq<T>)
    requires a != []
    ensures a == [a[0]] + a[1..] && a + b == [a[0]] + (a[1..] + b)
  {
  }

  lemma FilterCons(x: Row, s: seq<Row>, p: Row -> bool)
    ensures Filter([x] + s, p) == (if p(x) then [x] else []) + Filter(s, p)
  {
    var xs := [x] + s;
    assert xs[0] == x && xs[1..] == s;
  }

  /**
   * Filtering a concatenation filters each part and keeps them in order; with
   * FilterOfOne this fixes the order and the multiplicity of every kept element.
   */
  lemma {:induction false} FilterAppend(a: seq<Row>, b: seq<Row>, p: Row -> bool)
    ensures Filter(a + b, p) == Filter(a, p) + Filter(b, p)
  {
    if a == [] {
      assert a + b == b;
    } else {
      var x, rest := a[0], a[1..];
      FilterAppend(rest, b, p);
      SplitHead(a, b);
      FilterCons(x, rest + b, p);
      FilterCons(x, rest, p);
      ConcatAssoc(if p(x) then [x] else [], Filter(rest, p), Filter(b, p));
    }
  }

  /** Each kept element occurs as often as in the input; the others do not occur at all. */
  lemma {:induction false} FilterCounts(s: seq<Row>, p: Row -> bool)
    ensures forall x :: multiset(Filter(s, p))[x] == if p(x) then multiset(s)[x] else 0
  {
    if s != [] {
      FilterCounts(s[1..], p);
      assert s == [s[0]] + s[1..];
      assert multiset(s) == multiset{s[0]} + multiset(s[1..]);
      if p(s[0]) {
        assert multiset(Filter(s, p)) == multiset{s[0]} + multiset(Filter(s[1..], p));
      }
    }
  }

  /** The first row is no later than any row kept from the rest, and earlier when the index is unique. */
  lemma HeadPrecedesFiltered(s: seq<Row>, p: Row -> bool)
    requires s != []
    ensures Sorted(s) ==> forall r :: r in Filter(s[1..], p) ==> s[0].ts <= r.ts
    ensures StrictlyIncreasing(s) ==> forall r :: r in Filter(s[1..], p) ==> s[0].ts < r.ts
  {
    forall r | r in Filter(s[1..], p)
      ensures Sorted(s) ==> s[0].ts <= r.ts
      ensures StrictlyIncreasing(s) ==> s[0].ts < r.ts
    {
      assert r in s[1..];
      var j :| 0 <= j < |s[1..]| && s[1..][j] == r;
      assert s[j + 1] == r;
    }
  }

  /** A row no later than every row of a sorted table can be put in front of it. */
  lemma ConsKeepsSorted(x: Row, rest: seq<Row>)
    requires Sorted(rest) && forall q :: q in rest ==> x.ts <= q.ts
    ensures Sorted([x] + rest)
  {
    var o := [x] + rest;
    forall i, j | 0 <= i < j < |o| ensures o[i].ts <= o[j].ts {
      assert o[j] == rest[j - 1] && rest[j - 1] in rest;
      if i > 0 {
        assert o[i] == rest[i - 1];
      }
    }
  }

  /** A row earlier than every row of a strictly increasing table can be put in front of it. */
  lemma ConsKeepsStrict(x: Row, rest: seq<Row>)
    requires StrictlyIncreasing(rest) && forall q :: q in rest ==> x.ts < q.ts
    ensures StrictlyIncreasing([x] + rest)
  {
    var o := [x] + rest;
    forall i, j | 0 <= i < j < |o| ensures o[i].ts < o[j].ts {
      assert o[j] == rest[j - 1] && rest[j - 1] in rest;
      if i > 0 {
        assert o[i] == rest[i - 1];
      }
    }
  }

  /** Dropping rows from a sorted table keeps it sorted. */
  lemma {:induction false} FilterKeepsSorted(s: seq<Row>, p: Row -> bool)
    requires Sorted(s)
    ensures Sorted(Filter(s, p))
  {
    if s != [] {
      FilterKeepsSorted(s[1..], p);
      if p(s[0]) {
        HeadPrecedesFiltered(s, p);
        ConsKeepsSorted(s[0], Filter(s[1..], p));
      }
    }
  }

  /** Dropping rows from a table with a unique increasing index keeps the index unique and increasing. */
  lemma {:induction false} FilterKeepsOrder(s: seq<Row>, p: Row -> bool)
    requires StrictlyIncreasing(s)
    ensures StrictlyIncreasing(Filter(s, p))
  {
    if s != [] {
      FilterKeepsOrder(s[1..], p);
      if p(s[0]) {
        HeadPrecedesFiltered(s, p);
        ConsKeepsStrict(s[0], Filter(s[1..], p));
      }
    }
  }

  /** The complete rows of a file, in table order (`dropna()`). */
  function CompleteRows(ride: Ride): seq<Row> {
    Filter(ride.rows, r => Complete(r, ride.schema))
  }

  /** Filtering keeps the order of the kept rows: sortedness and a unique increasing index survive. */
  lemma FilterKeepsOrders(s: seq<Row>, p: Row -> bool)
    ensures Sorted(s) ==> Sorted(Filter(s, p))
    ensures StrictlyIncreasing(s) ==> StrictlyIncreasing(Filter(s, p))
  {
    if Sorted(s) {
      FilterKeepsSorted(s, p);
    }
    if StrictlyIncreasing(s) {
      FilterKeepsOrder(s, p);
    }
  }

  /** `dropna()` keeps exactly the complete rows, each as often as it occurs, in table order. */
  lemma CompleteRowsKept(ride: Ride)
    ensures forall r :: r in CompleteRows(ride) <==> r in ride.rows && Complete(r, ride.schema)
    ensures forall r :: multiset(CompleteRows(ride))[r] == if Complete(r, ride.schema) then multiset(ride.rows)[r] else 0
    ensures Sorted(ride.rows) ==> Sorted(CompleteRows(ride))
    ensures StrictlyIncreasing(ride.rows) ==> StrictlyIncreasing(CompleteRows(ride))
  {
    FilterCounts(ride.rows, r => Complete(r, ride.schema));
    FilterKeepsOrders(ride.rows, r => Complete(r, ride.schema));
  }

  function Reverse<T>(s: seq<T>): (r: seq<T>)
    ensures |r| == |s|
    ensures forall i :: 0 <= i < |s| ==> r[i] == s[|s| - 1 - i]
  {
    seq(|s|, i requires 0 <= i < |s| => s[|s| - 1 - i])
  }

  /** The timestamp column holds the index, and is increasing exactly when the table is. */
  lemma TsColumn(rows: seq<Row>)
    ensures Elems(Ts(rows)) == TsSet(rows)
    ensures StrictlyIncreasing(rows) <==> Increasing(Ts(rows))
  {
    assert forall i :: 0 <= i < |rows| ==> Ts(rows)[i] == rows[i].ts;
    forall t ensures t in Elems(Ts(rows)) <==> t in TsSet(rows) {
      if t in TsSet(rows) {
        var r :| r in rows && r.ts == t;
        var i :| 0 <= i < |rows| && rows[i] == r;
        assert Ts(rows)[i] == t;
      }
    }
  }

  lemma ElemsOfEmpty(xs: seq<int>)
    ensures Elems(xs) == {} <==> |xs| == 0
  {
    if |xs| > 0 {
      assert xs[0] in Elems(xs);
    }
  }
}
