/**
 * The row-level cleaning stages of the pipeline: the timestamp sort, the
 * invalid-ride filter, the removal of inertial values from GPS samples and
 * the final removal of incomplete rows.
 */
module Cleaning {
  import opened Wrappers
  import opened Rides

  // ---------------------------------------------------------------------
  // Timestamp sort: a stable sort on timeStamp (merge sort keeps equal keys in order).
  // ---------------------------------------------------------------------

  /** Inserts `r` in front of the first row whose timestamp is not smaller. */
  function Insert(r: Row, s: seq<Row>): (o: seq<Row>)
    ensures |o| == |s| + 1
    ensures o[0] == r || (s != [] && o[0] == s[0])
    ensures multiset(o) == multiset(s) + multiset{r}
  {
    if s == [] || r.ts <= s[0].ts then [r] + s
    else
      assert s == [s[0]] + s[1..];
      [s[0]] + Insert(r, s[1..])
  }

  /** The rows of `Insert(r, s)` are `r` and the rows of `s`. */
  lemma InsertMembers(r: Row, s: seq<Row>)
    ensures forall q :: q in Insert(r, s) <==> q == r || q in s
  {
    var o := Insert(r, s);
    forall q ensures q in o <==> q == r || q in s {
      assert q in o <==> q in multiset(o);
      assert q in s <==> q in multiset(s);
    }
  }

  /** Every row of a sorted table after the first is at least as late as the first. */
  lemma HeadIsEarliest(s: seq<Row>)
    requires Sorted(s) && s != []
    ensures forall q :: q in s[1..] ==> s[0].ts <= q.ts
  {
    forall q | q in s[1..] ensures s[0].ts <= q.ts {
      var k :| 0 <= k < |s[1..]| && s[1..][k] == q;
      assert s[k + 1] == q;
    }
  }

  lemma {:induction false} InsertSorted(r: Row, s: seq<Row>)
    requires Sorted(s)
    ensures Sorted(Insert(r, s))
    decreases |s|
  {
    if s == [] || r.ts <= s[0].ts {
      if s != [] {
        HeadIsEarliest(s);
        assert s == [s[0]] + s[1..];
      }
      ConsKeepsSorted(r, s);
    } else {
      assert Sorted(s[1..]);
      InsertSorted(r, s[1..]);
      InsertMembers(r, s[1..]);
      HeadIsEarliest(s);
      ConsKeepsSorted(s[0], Insert(r, s[1..]));
    }
  }

  /** Permuted tables have the same set of timestamps. */
  lemma TsSetOfPermutation(p: seq<Row>, q: seq<Row>)
    requires multiset(p) == multiset(q)
    ensures TsSet(p) == TsSet(q)
  {
    forall r ensures r in p <==> r in q {
      assert r in p <==> r in multiset(p);
      assert r in q <==> r in multiset(q);
    }
  }

  /** `sort_values(['timeStamp'], kind='merge')`: sorted, a permutation, and stable (see SortIsStable). */
  function SortByTimestamp(s: seq<Row>): (o: seq<Row>)
    ensures Sorted(o)
    ensures multiset(o) == multiset(s)
  {
    if s == [] then []
    else
      assert s == [s[0]] + s[1..];
      var rest := SortByTimestamp(s[1..]);
      InsertSorted(s[0], rest);
      Insert(s[0], rest)
  }

  /** The rows that carry timestamp `t`, in table order. */
  function RowsAt(s: seq<Row>, t: int): seq<Row> {
    if s == [] then [] else (if s[0].ts == t then [s[0]] else []) + RowsAt(s[1..], t)
  }

  lemma RowsAtCons(x: Row, s: seq<Row>, t: int)
    ensures RowsAt([x] + s, t) == (if x.ts == t then [x] else []) + RowsAt(s, t)
  {
    assert ([x] + s)[1..] == s;
  }

  lemma {:induction false} InsertKeepsTies(r: Row, s: seq<Row>, t: int)
    ensures RowsAt(Insert(r, s), t) == (if r.ts == t then [r] else []) + RowsAt(s, t)
    decreases |s|
  {
    if s == [] || r.ts <= s[0].ts {
      RowsAtCons(r, s, t);
    } else {
      var rest := Insert(r, s[1..]);
      assert Insert(r, s) == [s[0]] + rest;
      RowsAtCons(s[0], rest, t);
      InsertKeepsTies(r, s[1..], t);
      assert s == [s[0]] + s[1..];
      RowsAtCons(s[0], s[1..], t);
      // r comes later than s[0], so at most one of the two carries `t`
      SwapWhenOneIsEmpty(if s[0].ts == t then [s[0]] else [], if r.ts == t then [r] else [], RowsAt(s[1..], t));
    }
  }

  lemma SwapWhenOneIsEmpty(a: seq<Row>, b: seq<Row>, c: seq<Row>)
    requires a == [] || b == []
    ensures a + (b + c) == b + (a + c)
  {
    if a == [] {
      assert a + (b + c) == b + c == b + (a + c);
    } else {
      assert a + (b + c) == a + c == b + (a + c);
    }
  }

  /** Rows with equal timestamps keep their original relative order. */
  lemma {:induction false} SortIsStable(s: seq<Row>, t: int)
    ensures RowsAt(SortByTimestamp(s), t) == RowsAt(s, t)
  {
    if s != [] {
      SortIsStable(s[1..], t);
      InsertKeepsTies(s[0], SortByTimestamp(s[1..]), t);
    }
  }

  lemma {:induction false} InsertStrict(r: Row, s: seq<Row>)
    requires StrictlyIncreasing(s) && r.ts !in TsSet(s)
    ensures StrictlyIncreasing(Insert(r, s))
    decreases |s|
  {
    if s == [] || r.ts <= s[0].ts {
      if s != [] {
        assert s[0] in s;
        forall q | q in s ensures r.ts < q.ts {
          var k :| 0 <= k < |s| && s[k] == q;
          assert k > 0 ==> s[0].ts < s[k].ts;
        }
      }
      ConsKeepsStrict(r, s);
    } else {
      assert StrictlyIncreasing(s[1..]);
      assert TsSet(s[1..]) <= TsSet(s) by {
        forall q | q in s[1..] ensures q in s { }
      }
      InsertStrict(r, s[1..]);
      InsertMembers(r, s[1..]);
      forall q | q in s[1..] ensures s[0].ts < q.ts {
        var k :| 0 <= k < |s[1..]| && s[1..][k] == q;
        assert s[k + 1] == q;
      }
      ConsKeepsStrict(s[0], Insert(r, s[1..]));
    }
  }

  /** Sorting a table whose timestamps are unique yields a strictly increasing index. */
  lemma {:induction false} SortDistinctIsStrict(s: seq<Row>)
    requires DistinctTs(s)
    ensures StrictlyIncreasing(SortByTimestamp(s))
  {
    if s != [] {
      assert DistinctTs(s[1..]);
      SortDistinctIsStrict(s[1..]);
      assert s[0].ts !in TsSet(s[1..]) by {
        forall q | q in s[1..] ensures q.ts != s[0].ts {
          var k :| 0 <= k < |s[1..]| && s[1..][k] == q;
          assert s[k + 1] == q;
        }
      }
      TsSetOfPermutation(SortByTimestamp(s[1..]), s[1..]);
      InsertStrict(s[0], SortByTimestamp(s[1..]));
    }
  }

  /** sort_timestamps_inner: the file is rewritten sorted by timestamp. */
  function SortTimestamps(ride: Ride): (o: Outcome)
    ensures o.Rewrite? && o.ride.schema == ride.schema
    ensures Sorted(o.ride.rows) && multiset(o.ride.rows) == multiset(ride.rows)
  {
    Rewrite(ride.(rows := SortByTimestamp(ride.rows)))
  }

  // ---------------------------------------------------------------------
  // Invalid-ride filter
  // ---------------------------------------------------------------------

  /** Largest tolerated gap between adjacent timestamps, in ms. */
  const MaxGap: int := 6000

  /**
   * `np.where(df['timeStamp'].diff() > 6000)`: positions whose difference to
   * the previous row exceeds the gap; position 0 has no difference.
   */
  function Breakpoints(rows: seq<Row>): (bp: seq<int>)
    ensures forall k :: k in bp ==> 1 <= k < |rows| && rows[k].ts - rows[k - 1].ts > MaxGap
    ensures forall k :: 1 <= k < |rows| && rows[k].ts - rows[k - 1].ts > MaxGap ==> k in bp
  {
    if |rows| <= 1 then []
    else
      var n := |rows| - 1;
      var init := rows[..n];
      assert forall k :: 0 <= k < n ==> init[k] == rows[k];
      Breakpoints(init) + (if rows[n].ts - rows[n - 1].ts > MaxGap then [n] else [])
  }

  /**
   * Rows left by `dropna()` after the timestamp column was replaced by its
   * difference: row 0 always drops out, the others when some column is empty.
   */
  function DiffDropnaCount(rows: seq<Row>, sch: Schema): (n: nat)
    ensures n <= |rows|
    ensures n == 0 <==> forall k :: 1 <= k < |rows| ==> !Complete(rows[k], sch)
  {
    if |rows| <= 1 then 0
    else
      var m := |rows| - 1;
      var init := rows[..m];
      assert forall k :: 0 <= k < m ==> init[k] == rows[k];
      DiffDropnaCount(init, sch) + (if Complete(rows[m], sch) then 1 else 0)
  }

  /**
   * remove_invalid_rides_inner: the file is deleted when some adjacent gap
   * exceeds 6000 ms or when no row after the first is complete; otherwise it
   * is left as it is.
   */
  function RemoveInvalidRide(ride: Ride): (o: Outcome)
    ensures o.Delete? || o.Untouched?
    ensures o.Delete? <==>
      || (exists k :: 1 <= k < |ride.rows| && ride.rows[k].ts - ride.rows[k - 1].ts > MaxGap)
      || (forall k :: 1 <= k < |ride.rows| ==> !Complete(ride.rows[k], ride.schema))
  {
    var bp := Breakpoints(ride.rows);
    if DiffDropnaCount(ride.rows, ride.schema) == 0 then Delete
    else if |bp| > 0 then
      var k := bp[0];
      assert k in bp;
      assert 1 <= k < |ride.rows| && ride.rows[k].ts - ride.rows[k - 1].ts > MaxGap;
      Delete
    else
      assert forall k :: 1 <= k < |ride.rows| ==> k !in bp;
      Untouched
  }

  // ---------------------------------------------------------------------
  // Removal of inertial values from GPS samples
  // ---------------------------------------------------------------------

  /** The file stem ends in 'a' (an Android export, whose GPS timestamps are rounded to seconds). */
  predicate IsAndroidStem(stem: string)
    requires |stem| > 0
  {
    stem[|stem| - 1] == 'a'
  }

  /** lat, lon and acc are all present: the row is a GPS sample. */
  predicate IsGpsSample(r: Row) {
    r.lat.Some? && r.lon.Some? && r.acc.Some?
  }

  /** No accelerometer or gyroscope value (nor linear acceleration, when it is blanked too). */
  predicate NoInertial(r: Row, linAccFlag: bool) {
    && r.x.None? && r.y.None? && r.z.None? && r.a.None? && r.b.None? && r.c.None?
    && (linAccFlag ==> r.xl.None? && r.yl.None? && r.zl.None?)
  }

  function BlankInertial(r: Row, linAccFlag: bool): Row {
    var r1 := r.(x := None, y := None, z := None, a := None, b := None, c := None);
    if linAccFlag then r1.(xl := None, yl := None, zl := None) else r1
  }

  /**
   * remove_sensor_values_from_gps_timestamps_inner: only Android files are
   * touched; there every GPS sample loses its inertial values and every other
   * cell is kept. An Android file without the acc column raises.
   */
  function RemoveSensorValuesFromGps(stem: string, linAccFlag: bool, ride: Ride): (o: Result<Outcome, KeyError>)
    requires |stem| > 0
    ensures o.Err? <==> IsAndroidStem(stem) && !ride.schema.hasAcc
    ensures o == Ok(Untouched) <==> !IsAndroidStem(stem)
    ensures o.Ok? ==> !o.value.Delete?
    ensures o.Ok? && o.value.Rewrite? ==>
      && o.value.ride.schema == ride.schema
      && |o.value.ride.rows| == |ride.rows|
      && forall i :: 0 <= i < |ride.rows| ==>
        var (r, q) := (ride.rows[i], o.value.ride.rows[i]);
        && (IsGpsSample(r) ==> NoInertial(q, linAccFlag))
        && (!IsGpsSample(r) ==> q == r)
        && q.ts == r.ts && q.acc == r.acc && q.lat == r.lat && q.lon == r.lon && q.incident == r.incident
        && (!linAccFlag ==> q.xl == r.xl && q.yl == r.yl && q.zl == r.zl)
  {
    if !IsAndroidStem(stem) then Ok(Untouched)
    else if !ride.schema.hasAcc then Err(NoAccColumn)
    else
      var rows := ride.rows;
      Ok(Rewrite(ride.(rows := seq(|rows|, i requires 0 <= i < |rows| =>
        if IsGpsSample(rows[i]) then BlankInertial(rows[i], linAccFlag) else rows[i]))))
  }

  // ---------------------------------------------------------------------
  // Removal of incomplete rows
  // ---------------------------------------------------------------------

  /**
   * remove_empty_rows_inner: incomplete rows are dropped, the rest keep their
   * order and multiplicity; the file is deleted when none is left, and
   * rewritten otherwise.
   */
  function RemoveEmptyRows(ride: Ride): (o: Outcome)
    ensures o.Delete? <==> forall r :: r in ride.rows ==> !Complete(r, ride.schema)
    ensures !o.Untouched?
    ensures o.Rewrite? ==>
      && o.ride.schema == ride.schema
      && o.ride.rows == CompleteRows(ride)
      && |o.ride.rows| > 0
      && (forall r :: r in o.ride.rows <==> r in ride.rows && Complete(r, ride.schema))
      && (forall r :: multiset(o.ride.rows)[r] == if Complete(r, ride.schema) then multiset(ride.rows)[r] else 0)
      && (Sorted(ride.rows) ==> Sorted(o.ride.rows))
      && (StrictlyIncreasing(ride.rows) ==> StrictlyIncreasing(o.ride.rows))
  {
    var kept := CompleteRows(ride);
    if |kept| == 0 then
      Delete
    else
      assert kept[0] in kept;
      CompleteRowsKept(ride);
      Rewrite(ride.(rows := kept))
  }
}
