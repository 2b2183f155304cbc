/**
 * Resampling bookkeeping shared by the two interpolation modes: keep-first
 * de-duplication of the time index, backward fill of lat/lon, the
 * equidistant grid and the two set differences between grid and original
 * timestamps. The numeric time interpolation of the inertial columns is not
 * part of this model.
 */
module Resampling {
  import opened Wrappers
  import opened Rides
  import opened Cleaning

  // ---------------------------------------------------------------------
  // Keep-first de-duplication: df[~df.index.duplicated(keep='first')]
  // ---------------------------------------------------------------------

  /** Position of the first row that carries timestamp `t`. */
  function FirstIndex(s: seq<Row>, t: int): (k: nat)
    requires t in TsSet(s)
    ensures k < |s| && s[k].ts == t
    ensures forall j :: 0 <= j < k ==> s[j].ts != t
  {
    var n := |s| - 1;
    if t in TsSet(s[..n]) then
      var k := FirstIndex(s[..n], t);
      assert s[..n][k] == s[k];
      k
    else
      assert forall j :: 0 <= j < n ==> s[j].ts != t by {
        forall j | 0 <= j < n ensures s[j].ts != t {
          assert s[..n][j] in s[..n];
        }
      }
      assert s == s[..n] + [s[n]];
      n
  }

  lemma TsSetSnoc(s: seq<Row>, r: Row)
    ensures TsSet(s + [r]) == TsSet(s) + {r.ts}
  {
    assert forall q :: q in s + [r] <==> q in s || q == r;
  }

  /**
   * The table without the rows whose timestamp already occurred earlier,
   * in table order.
   */
  function DedupKeepFirst(s: seq<Row>): (o: seq<Row>)
    ensures |o| <= |s|
    ensures forall r :: r in o ==> r in s
  {
    if s == [] then []
    else
      var n := |s| - 1;
      var d := DedupKeepFirst(s[..n]);
      assert forall r :: r in d ==> r in s by {
        forall r | r in d ensures r in s {
          var i :| 0 <= i < n && s[..n][i] == r;
          assert s[i] == r;
        }
      }
      if s[n].ts in TsSet(s[..n]) then d else d + [s[n]]
  }

  /** De-duplication keeps every timestamp. */
  lemma {:induction false} DedupKeepsTimestamps(s: seq<Row>)
    ensures TsSet(DedupKeepFirst(s)) == TsSet(s)
  {
    if s != [] {
      var n := |s| - 1;
      assert s == s[..n] + [s[n]];
      DedupKeepsTimestamps(s[..n]);
      TsSetSnoc(s[..n], s[n]);
      TsSetSnoc(DedupKeepFirst(s[..n]), s[n]);
    }
  }

  /** After de-duplication the timestamps are unique. */
  lemma {:induction false} DedupIsDistinct(s: seq<Row>)
    ensures DistinctTs(DedupKeepFirst(s))
  {
    if s != [] {
      var n := |s| - 1;
      DedupIsDistinct(s[..n]);
      DedupKeepsTimestamps(s[..n]);
      var d := DedupKeepFirst(s[..n]);
      if s[n].ts !in TsSet(s[..n]) {
        forall i | 0 <= i < |d| ensures d[i].ts != s[n].ts {
          assert d[i] in d;
        }
      }
    }
  }

  /** Every row that survives is the first row of the table with its timestamp. */
  lemma {:induction false} DedupKeepsFirstOccurrence(s: seq<Row>)
    ensures forall r :: r in DedupKeepFirst(s) ==> r.ts in TsSet(s) && r == s[FirstIndex(s, r.ts)]
  {
    if s != [] {
      var n := |s| - 1;
      var init := s[..n];
      assert s == init + [s[n]];
      DedupKeepsFirstOccurrence(init);
      TsSetSnoc(init, s[n]);
      forall r | r in DedupKeepFirst(s) ensures r.ts in TsSet(s) && r == s[FirstIndex(s, r.ts)] {
        if r in DedupKeepFirst(init) {
          assert r.ts in TsSet(init) && r == init[FirstIndex(init, r.ts)];
          var k := FirstIndex(init, r.ts);
          assert init[k] == s[k];
          assert FirstIndex(s, r.ts) == k;
        } else {
          assert r == s[n] && s[n].ts !in TsSet(init);
        }
      }
    }
  }

  /** Appending a row later than every row keeps the index strictly increasing. */
  lemma SnocKeepsStrict(d: seq<Row>, r: Row)
    requires StrictlyIncreasing(d) && forall q :: q in d ==> q.ts < r.ts
    ensures StrictlyIncreasing(d + [r])
  {
    var o := d + [r];
    forall i, j | 0 <= i < j < |o| ensures o[i].ts < o[j].ts {
      assert o[i] == d[i] && d[i] in d;
      if j < |d| {
        assert o[j] == d[j];
      }
    }
  }

  /** In a sorted table, the rows kept before a new last timestamp all precede it. */
  lemma KeptPrecedeNewLast(s: seq<Row>)
    requires Sorted(s) && s != [] && s[|s| - 1].ts !in TsSet(s[..|s| - 1])
    ensures forall q :: q in DedupKeepFirst(s[..|s| - 1]) ==> q.ts < s[|s| - 1].ts
  {
    var n := |s| - 1;
    var init := s[..n];
    forall q | q in DedupKeepFirst(init) ensures q.ts < s[n].ts {
      assert q in init;
      var k :| 0 <= k < n && init[k] == q;
      assert init[k] == s[k];
      assert q.ts in TsSet(init);
    }
  }

  /** De-duplicating a sorted table leaves a strictly increasing index. */
  lemma {:induction false} DedupOfSortedIsStrict(s: seq<Row>)
    requires Sorted(s)
    ensures StrictlyIncreasing(DedupKeepFirst(s))
  {
    if s != [] {
      var n := |s| - 1;
      var init := s[..n];
      assert forall i :: 0 <= i < n ==> init[i] == s[i];
      DedupOfSortedIsStrict(init);
      if s[n].ts !in TsSet(init) {
        KeptPrecedeNewLast(s);
        SnocKeepsStrict(DedupKeepFirst(init), s[n]);
      }
    }
  }

  // ---------------------------------------------------------------------
  // Backward fill and forward pad of one column
  // ---------------------------------------------------------------------

  /** Position of the first present cell at or after `i`, or -1. */
  function NextPresent(col: seq<Value>, i: nat): (j: int)
    requires i <= |col|
    ensures j == -1 || (i <= j < |col| && col[j].Some?)
    ensures forall k :: i <= k < |col| && (j == -1 || k < j) ==> col[k].None?
    decreases |col| - i
  {
    if i == |col| then -1
    else if col[i].Some? then i
    else NextPresent(col, i + 1)
  }

  /** Position of the last present cell at or before `i`, or -1. */
  function PrevPresent(col: seq<Value>, i: int): (j: int)
    requires -1 <= i < |col|
    ensures -1 <= j <= i && (j == -1 || col[j].Some?)
    ensures forall k :: j < k <= i ==> col[k].None?
    decreases i + 1
  {
    if i == -1 then -1
    else if col[i].Some? then i
    else PrevPresent(col, i - 1)
  }

  /** `fillna(method='bfill')`: a scan from the bottom carrying the last value seen. */
  function Backfill(col: seq<Value>): (o: seq<Value>)
    ensures |o| == |col|
  {
    if col == [] then []
    else
      var rest := Backfill(col[1..]);
      [if col[0].Some? || rest == [] then col[0] else rest[0]] + rest
  }

  /** `interpolate(method='pad')`: a scan from the top carrying the last value seen. */
  function Pad(col: seq<Value>): (o: seq<Value>)
    ensures |o| == |col|
  {
    if col == [] then []
    else
      var n := |col| - 1;
      var init := Pad(col[..n]);
      init + [if col[n].Some? || init == [] then col[n] else init[n - 1]]
  }

  /** Each cell of a backfilled column holds the nearest present value at or below it, if any. */
  lemma {:induction false} BackfillTakesNextPresent(col: seq<Value>, i: nat)
    requires i < |col|
    ensures var j := NextPresent(col, i);
      Backfill(col)[i] == if j == -1 then None else col[j]
    decreases |col|
  {
    var rest := Backfill(col[1..]);
    if i > 0 {
      BackfillTakesNextPresent(col[1..], i - 1);
      NextPresentOfTail(col, i);
    } else if col[0].None? && |col| > 1 {
      BackfillTakesNextPresent(col[1..], 0);
      NextPresentOfTail(col, 1);
    }
  }

  lemma {:induction false} NextPresentOfTail(col: seq<Value>, i: nat)
    requires 0 < i <= |col|
    ensures var j := NextPresent(col[1..], i - 1);
      NextPresent(col, i) == if j == -1 then -1 else j + 1
    decreases |col| - i
  {
    if i < |col| && col[i].None? {
      NextPresentOfTail(col, i + 1);
    }
  }

  /** Each cell of a padded column holds the nearest present value at or above it, if any. */
  lemma {:induction false} PadTakesPrevPresent(col: seq<Value>, i: nat)
    requires i < |col|
    ensures var j := PrevPresent(col, i);
      Pad(col)[i] == if j == -1 then None else col[j]
    decreases |col|
  {
    var n := |col| - 1;
    var init := col[..n];
    if i < n {
      PadTakesPrevPresent(init, i);
      PrevPresentOfInit(col, i);
    } else if col[n].None? && n > 0 {
      PadTakesPrevPresent(init, n - 1);
      PrevPresentOfInit(col, n - 1);
    }
  }

  lemma {:induction false} PrevPresentOfInit(col: seq<Value>, i: int)
    requires -1 <= i < |col| - 1
    ensures PrevPresent(col[..|col| - 1], i) == PrevPresent(col, i)
    decreases i + 1
  {
    if i >= 0 && col[i].None? {
      PrevPresentOfInit(col, i - 1);
    }
  }

  /** PrevPresent is the one position that has its two defining properties. */
  lemma {:induction false} PrevPresentIsUnique(col: seq<Value>, i: int, m: int)
    requires -1 <= m <= i < |col|
    requires m == -1 || col[m].Some?
    requires forall k :: m < k <= i ==> col[k].None?
    ensures PrevPresent(col, i) == m
    decreases i + 1
  {
    if i > m {
      PrevPresentIsUnique(col, i - 1, m);
    }
  }

  /** Looking forward from `i` is looking backward from the mirrored position of the reversed column. */
  lemma NextPresentMirrorsPrevPresent(col: seq<Value>, i: nat)
    requires i < |col|
    ensures var (n, j) := (|col|, PrevPresent(Reverse(col), |col| - 1 - i));
      NextPresent(col, i) == if j == -1 then -1 else n - 1 - j
  {
    var n := |col|;
    var rev := Reverse(col);
    var a := NextPresent(col, i);
    var m := if a == -1 then -1 else n - 1 - a;
    forall k | m < k <= n - 1 - i ensures rev[k].None? {
      assert rev[k] == col[n - 1 - k];
    }
    PrevPresentIsUnique(rev, n - 1 - i, m);
  }

  /** Backfill is the forward pad of the reversed column, reversed back. */
  lemma BackfillIsReversedPad(col: seq<Value>)
    ensures Backfill(col) == Reverse(Pad(Reverse(col)))
  {
    forall i | 0 <= i < |col| ensures Backfill(col)[i] == Reverse(Pad(Reverse(col)))[i] {
      BackfillIsReversedPadAt(col, i);
    }
  }

  lemma BackfillIsReversedPadAt(col: seq<Value>, i: nat)
    requires i < |col|
    ensures |Reverse(Pad(Reverse(col)))| == |col|
    ensures Backfill(col)[i] == Reverse(Pad(Reverse(col)))[i]
  {
    var n := |col|;
    var rev := Reverse(col);
    var padded := Pad(rev);
    BackfillTakesNextPresent(col, i);
    PadTakesPrevPresent(rev, n - 1 - i);
    NextPresentMirrorsPrevPresent(col, i);
    assert Reverse(padded)[i] == padded[n - 1 - i];
    var j := PrevPresent(rev, n - 1 - i);
    if j != -1 {
      assert rev[j] == col[n - 1 - j];
    }
  }

  // ---------------------------------------------------------------------
  // lat/lon columns of a table
  // ---------------------------------------------------------------------

  function Lats(rows: seq<Row>): (c: seq<Value>)
    ensures |c| == |rows| && forall i :: 0 <= i < |rows| ==> c[i] == rows[i].lat
  {
    seq(|rows|, i requires 0 <= i < |rows| => rows[i].lat)
  }

  function Lons(rows: seq<Row>): (c: seq<Value>)
    ensures |c| == |rows| && forall i :: 0 <= i < |rows| ==> c[i] == rows[i].lon
  {
    seq(|rows|, i requires 0 <= i < |rows| => rows[i].lon)
  }

  /** The table with its lat and lon columns replaced. */
  function WithLatLon(rows: seq<Row>, lats: seq<Value>, lons: seq<Value>): (o: seq<Row>)
    requires |lats| == |rows| == |lons|
    ensures |o| == |rows|
    ensures forall i :: 0 <= i < |rows| ==> o[i] == rows[i].(lat := lats[i], lon := lons[i])
  {
    seq(|rows|, i requires 0 <= i < |rows| => rows[i].(lat := lats[i], lon := lons[i]))
  }

  /** `df['lat'].fillna(method='bfill')` and the same for `lon`. */
  function BackfillLatLon(rows: seq<Row>): (o: seq<Row>)
    ensures |o| == |rows| && Ts(o) == Ts(rows)
  {
    WithLatLon(rows, Backfill(Lats(rows)), Backfill(Lons(rows)))
  }

  /** `df['lat'].interpolate(method='pad')` and the same for `lon`. */
  function PadLatLon(rows: seq<Row>): (o: seq<Row>)
    ensures |o| == |rows| && Ts(o) == Ts(rows)
  {
    WithLatLon(rows, Pad(Lats(rows)), Pad(Lons(rows)))
  }

  /**
   * Backfill keeps every column but lat/lon, keeps present lat/lon values,
   * and gives a missing one the value of the nearest later row that has one;
   * below the last present value the cell stays missing.
   */
  lemma BackfillLatLonSpec(rows: seq<Row>, i: nat)
    requires i < |rows|
    ensures var (o, j, k) := (BackfillLatLon(rows)[i], NextPresent(Lats(rows), i), NextPresent(Lons(rows), i));
      && o.(lat := rows[i].lat, lon := rows[i].lon) == rows[i]
      && o.lat == (if j == -1 then None else rows[j].lat)
      && o.lon == (if k == -1 then None else rows[k].lon)
  {
    BackfillTakesNextPresent(Lats(rows), i);
    BackfillTakesNextPresent(Lons(rows), i);
  }

  /** Padding the reversed table and reversing back is the backfill of the table. */
  lemma {:induction false} ReversedPadIsBackfill(rows: seq<Row>)
    ensures Reverse(PadLatLon(Reverse(rows))) == BackfillLatLon(rows)
  {
    var rev := Reverse(rows);
    assert Lats(rev) == Reverse(Lats(rows));
    assert Lons(rev) == Reverse(Lons(rows));
    BackfillIsReversedPad(Lats(rows));
    BackfillIsReversedPad(Lons(rows));
  }

  /**
   * linear_interpolate: de-duplicate keeping the first row of each timestamp,
   * sort the index descending, pad lat/lon down that order and sort it back
   * ascending. With unique timestamps the descending order is the reverse of
   * the ascending one.
   */
  function LinearInterpolate(ride: Ride): (o: Ride)
    ensures o.schema == ride.schema
    ensures o.rows == BackfillLatLon(SortByTimestamp(DedupKeepFirst(ride.rows)))
  {
    var asc := SortByTimestamp(DedupKeepFirst(ride.rows));
    ReversedPadIsBackfill(asc);
    ride.(rows := Reverse(PadLatLon(Reverse(asc))))
  }

  /** Tables with the same timestamp column have the same index. */
  lemma SameTsSameIndex(p: seq<Row>, q: seq<Row>)
    requires Ts(p) == Ts(q)
    ensures TsSet(p) == TsSet(q)
    ensures StrictlyIncreasing(p) <==> StrictlyIncreasing(q)
  {
    assert forall i :: 0 <= i < |p| ==> p[i].ts == Ts(p)[i] == Ts(q)[i] == q[i].ts;
    forall t ensures t in TsSet(p) <==> t in TsSet(q) {
      if t in TsSet(p) {
        var r :| r in p && r.ts == t;
        var i :| 0 <= i < |p| && p[i] == r;
        assert q[i] in q;
      }
      if t in TsSet(q) {
        var r :| r in q && r.ts == t;
        var i :| 0 <= i < |q| && q[i] == r;
        assert p[i] in p;
      }
    }
  }

  /**
   * After linear interpolation the ride has exactly the original timestamps,
   * each once and in increasing order, and the rows of the first occurrence of
   * each timestamp with lat/lon backfilled.
   */
  lemma LinearInterpolateIndex(ride: Ride)
    ensures StrictlyIncreasing(LinearInterpolate(ride).rows)
    ensures TsSet(LinearInterpolate(ride).rows) == TsSet(ride.rows)
  {
    var d := DedupKeepFirst(ride.rows);
    var asc := SortByTimestamp(d);
    DedupIsDistinct(ride.rows);
    DedupKeepsTimestamps(ride.rows);
    SortDistinctIsStrict(d);
    TsSetOfPermutation(asc, d);
    SameTsSameIndex(LinearInterpolate(ride).rows, asc);
  }

  // ---------------------------------------------------------------------
  // Equidistant grid and the two set differences
  // ---------------------------------------------------------------------

  lemma {:induction false} MulAtLeast(x: int, iv: nat)
    requires x >= 1
    ensures x * iv >= iv
    decreases x
  {
    if x > 1 {
      MulAtLeast(x - 1, iv);
      assert x * iv == (x - 1) * iv + iv;
    }
  }

  lemma ModOfMultiple(q: int, iv: nat)
    requires iv > 0
    ensures (q * iv) % iv == 0
  {
    var m := q * iv;
    var a, b := m / iv, m % iv;
    assert m == a * iv + b;
    assert (q - a) * iv == b;
    assert (a - q) * iv == -b;
    if q - a >= 1 { MulAtLeast(q - a, iv); }
    else if a - q >= 1 { MulAtLeast(a - q, iv); }
  }

  /** `(first // interval) * interval`: the first timestamp floored to a multiple of the interval. */
  function GridStart(first: int, iv: nat): (s: int)
    requires iv > 0
    ensures s <= first < s + iv
    ensures s % iv == 0
  {
    var q := first / iv;
    ModOfMultiple(q, iv);
    q * iv
  }

  /** No multiple of the interval lies strictly between the grid start and the first timestamp. */
  lemma GridStartIsLargestMultiple(first: int, iv: nat, m: int)
    requires iv > 0 && m % iv == 0 && m <= first
    ensures m <= GridStart(first, iv)
  {
    var s := GridStart(first, iv);
    var q, p := m / iv, first / iv;
    assert m == q * iv;
    assert s == p * iv;
    assert m - s == (q - p) * iv;
    if q > p {
      MulAtLeast(q - p, iv);
    }
  }

  /** `np.arange(start, end, interval)`. */
  function Grid(start: int, end: int, iv: nat): (g: seq<int>)
    requires iv > 0
    ensures forall k :: 0 <= k < |g| ==> g[k] == start + k * iv
    ensures forall k :: 0 <= k < |g| ==> g[k] < end
    ensures start + |g| * iv >= end
    decreases end - start
  {
    if start >= end then []
    else
      var rest := Grid(start + iv, end, iv);
      GridStep(start, iv, rest);
      [start] + rest
  }

  /** Putting `start` in front of the grid from `start + iv` gives the grid from `start`. */
  lemma GridStep(start: int, iv: nat, rest: seq<int>)
    requires forall k :: 0 <= k < |rest| ==> rest[k] == start + iv + k * iv
    ensures forall k :: 0 <= k < |rest| + 1 ==> ([start] + rest)[k] == start + k * iv
    ensures start + iv + |rest| * iv == start + (|rest| + 1) * iv
  {
    forall k | 0 <= k < |rest| + 1 ensures ([start] + rest)[k] == start + k * iv {
      if k > 0 {
        assert ([start] + rest)[k] == rest[k - 1];
        assert (k - 1) * iv + iv == k * iv;
      }
    }
    assert |rest| * iv + iv == (|rest| + 1) * iv;
  }

  /** The grid is strictly increasing. */
  lemma GridIncreases(start: int, end: int, iv: nat)
    requires iv > 0
    ensures Increasing(Grid(start, end, iv))
  {
    var g := Grid(start, end, iv);
    forall i, j | 0 <= i < j < |g| ensures g[i] < g[j] {
      StepsApart(iv, i, j);
    }
  }

  /** Later grid steps lie further out. */
  lemma {:induction false} StepsApart(iv: nat, i: nat, j: nat)
    requires iv > 0 && i < j
    ensures i * iv < j * iv
    decreases j - i
  {
    if j > i + 1 {
      StepsApart(iv, i, j - 1);
    }
    assert j * iv == (j - 1) * iv + iv;
  }

  /** The grid of a ride: from its floored first timestamp, strictly below its last one. */
  function RideGrid(rows: seq<Row>, iv: nat): (g: seq<int>)
    requires |rows| > 0 && iv > 0
    ensures Increasing(g)
    ensures forall t :: t in g ==> t % iv == 0 && GridStart(rows[0].ts, iv) <= t < rows[|rows| - 1].ts
  {
    var g := Grid(GridStart(rows[0].ts, iv), rows[|rows| - 1].ts, iv);
    GridIncreases(GridStart(rows[0].ts, iv), rows[|rows| - 1].ts, iv);
    forall t | t in g ensures t % iv == 0 {
      var k :| 0 <= k < |g| && g[k] == t;
      var p := rows[0].ts / iv;
      assert t == p * iv + k * iv == (p + k) * iv;
      ModOfMultiple(p + k, iv);
    }
    g
  }

  /** `set(timestamps_original) - set(timestamps_new)`: original rows with no grid timestamp. */
  function Removables(rows: seq<Row>, grid: seq<int>): (rem: set<int>)
    ensures rem !! Elems(grid)
    ensures rem + Elems(grid) == TsSet(rows) + Elems(grid)
  {
    TsSet(rows) - Elems(grid)
  }

  /** `set(timestamps_new) - set(timestamps_original)`: grid timestamps that need a new row. */
  function NetNew(rows: seq<Row>, grid: seq<int>): (nn: seq<int>)
    ensures forall t :: t in nn <==> t in grid && t !in TsSet(rows)
  {
    Filter(grid, t => t !in TsSet(rows))
  }

  /** The last original timestamp is never on the grid, so its row is always removable. */
  lemma LastTimestampIsRemovable(rows: seq<Row>, iv: nat)
    requires |rows| > 0 && iv > 0
    ensures rows[|rows| - 1].ts in Removables(rows, RideGrid(rows, iv))
  {
    assert rows[|rows| - 1] in rows;
  }

  /**
   * `pd.concat([df, df_net_new])` followed by keep-first de-duplication and an
   * ascending sort: the frame the incident loop works on, before backfill.
   */
  function Merge(rows: seq<Row>, grid: seq<int>): (m: seq<Row>)
  {
    SortByTimestamp(DedupKeepFirst(rows + NetNewRows(rows, grid)))
  }

  /** The row the merged frame holds at timestamp `t`: the first original row there, else a new empty row. */
  function MergedRow(rows: seq<Row>, t: int): Row {
    if t in TsSet(rows) then rows[FirstIndex(rows, t)] else EmptyRow(t)
  }

  lemma {:induction false} FirstIndexOfPrefix(s: seq<Row>, extra: seq<Row>, t: int)
    requires t in TsSet(s)
    ensures t in TsSet(s + extra) && FirstIndex(s + extra, t) == FirstIndex(s, t)
  {
    var k := FirstIndex(s, t);
    assert (s + extra)[k] == s[k];
    assert (s + extra)[k] in s + extra;
    FirstIndexIsUnique(s + extra, t, k);
  }

  lemma FirstIndexIsUnique(s: seq<Row>, t: int, k: nat)
    requires k < |s| && s[k].ts == t
    requires forall j :: 0 <= j < k ==> s[j].ts != t
    ensures t in TsSet(s) && FirstIndex(s, t) == k
  {
    assert s[k] in s;
  }

  /** The new empty rows appended for the net-new grid timestamps. */
  function NetNewRows(rows: seq<Row>, grid: seq<int>): (extra: seq<Row>)
    ensures forall r :: r in extra ==> r == EmptyRow(r.ts) && r.ts in grid && r.ts !in TsSet(rows)
    ensures forall t :: t in grid && t !in TsSet(rows) ==> EmptyRow(t) in extra
  {
    var nn := NetNew(rows, grid);
    var extra := seq(|nn|, i requires 0 <= i < |nn| => EmptyRow(nn[i]));
    forall t | t in grid && t !in TsSet(rows) ensures EmptyRow(t) in extra {
      var i :| 0 <= i < |nn| && nn[i] == t;
      assert extra[i] == EmptyRow(t);
    }
    forall r | r in extra ensures r == EmptyRow(r.ts) && r.ts in grid && r.ts !in TsSet(rows) {
      var i :| 0 <= i < |extra| && extra[i] == r;
      assert nn[i] in nn;
    }
    extra
  }

  lemma MergeInputIndex(rows: seq<Row>, grid: seq<int>)
    ensures TsSet(rows + NetNewRows(rows, grid)) == TsSet(rows) + Elems(grid)
  {
    var extra := NetNewRows(rows, grid);
    var all := rows + extra;
    forall t ensures t in TsSet(all) <==> t in TsSet(rows) + Elems(grid) {
      if t in TsSet(all) {
        var r :| r in all && r.ts == t;
        assert r in rows || r in extra;
      }
      if t in Elems(grid) && t !in TsSet(rows) {
        assert EmptyRow(t) in all;
      } else if t in TsSet(rows) {
        var r :| r in rows && r.ts == t;
        assert r in all;
      }
    }
  }

  lemma MergeInputFirstRows(rows: seq<Row>, grid: seq<int>)
    ensures var all := rows + NetNewRows(rows, grid);
      forall t :: t in TsSet(all) ==> all[FirstIndex(all, t)] == MergedRow(rows, t)
  {
    var extra := NetNewRows(rows, grid);
    var all := rows + extra;
    forall t | t in TsSet(all) ensures all[FirstIndex(all, t)] == MergedRow(rows, t) {
      if t in TsSet(rows) {
        FirstIndexOfPrefix(rows, extra, t);
      } else {
        var k := FirstIndex(all, t);
        assert forall j :: 0 <= j < |rows| ==> all[j].ts != t by {
          forall j | 0 <= j < |rows| ensures all[j].ts != t {
            assert all[j] == rows[j] && rows[j] in rows;
          }
        }
        assert all[k] == extra[k - |rows|] && extra[k - |rows|] in extra;
      }
    }
  }

  /**
   * The merged frame has one row per original or grid timestamp, in strictly
   * increasing order; each is the first original row with that timestamp, or
   * an empty row when the timestamp is only on the grid.
   */
  lemma MergeSpec(rows: seq<Row>, grid: seq<int>)
    ensures StrictlyIncreasing(Merge(rows, grid))
    ensures TsSet(Merge(rows, grid)) == TsSet(rows) + Elems(grid)
    ensures forall r :: r in Merge(rows, grid) ==> r == MergedRow(rows, r.ts)
  {
    var all := rows + NetNewRows(rows, grid);
    var d := DedupKeepFirst(all);
    var m := SortByTimestamp(d);
    assert m == Merge(rows, grid);
    DedupIsDistinct(all);
    DedupKeepsTimestamps(all);
    DedupKeepsFirstOccurrence(all);
    SortDistinctIsStrict(d);
    TsSetOfPermutation(m, d);
    MergeInputIndex(rows, grid);
    MergeInputFirstRows(rows, grid);
    forall r | r in m ensures r == MergedRow(rows, r.ts) {
      assert r in multiset(m);
      assert r in d;
    }
  }
}
