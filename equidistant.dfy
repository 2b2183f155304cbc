/**
 * equidistant_interpolate: the ride is resampled onto a grid of timestamps
 * `interval` ms apart, and every incident is moved to the grid timestamp
 * nearest to it.
 */
module Equidistant {
  import opened Wrappers
  import opened Rides
  import opened Resampling
  import opened Nearest

  datatype InterpolationError =
    | EmptyRide          // `df['timeStamp'].iloc[0]` on an empty file
    | ZeroInterval       // `np.arange` with a zero step
    | EmptyIndex         // a nearest lookup on an index with no entries left

  /** `df.at[idx, 'incident'] = 1.0` when `marked` holds. */
  function Stamp(r: Row, marked: bool): (o: Row)
    ensures o.(incident := r.incident) == r
    ensures o.incident == if marked then Some(1.0) else r.incident
  {
    if marked then r.(incident := Some(1.0)) else r
  }

  /** `frame.loc[t]`: the row of an indexed frame at timestamp `t` (an empty row when there is none). */
  function At(frame: seq<Row>, t: int): (r: Row)
    ensures r.ts == t
    ensures t in TsSet(frame) ==> r in frame
  {
    if t in TsSet(frame) then frame[FirstIndex(frame, t)] else EmptyRow(t)
  }

  /** In a frame with a unique index, every row is the row at its own timestamp. */
  lemma AtOwnTimestamp(frame: seq<Row>, k: nat)
    requires StrictlyIncreasing(frame) && k < |frame|
    ensures frame[k].ts in TsSet(frame) && At(frame, frame[k].ts) == frame[k]
  {
    FirstIndexIsUnique(frame, frame[k].ts, k);
  }

  /** The grid timestamps the incidents are moved to: for each, the nearest grid timestamp. */
  function Assigned(grid: seq<int>, incidents: seq<int>, tie: Tie): (a: set<int>)
    requires Increasing(grid) && (|incidents| == 0 || |grid| > 0)
    ensures a <= Elems(grid)
  {
    if |incidents| == 0 then {}
    else
      var n := |incidents| - 1;
      Assigned(grid, incidents[..n], tie) + {NearestValue(grid, incidents[n], tie)}
  }

  /** Every assigned timestamp is the grid timestamp nearest to some incident. */
  lemma {:induction false} AssignedIsNearestGridPoint(grid: seq<int>, incidents: seq<int>, tie: Tie, v: int)
    requires Increasing(grid) && (|incidents| == 0 || |grid| > 0)
    requires v in Assigned(grid, incidents, tie)
    ensures exists j :: 0 <= j < |incidents| && IsNearest(v, Elems(grid), incidents[j], tie)
  {
    var n := |incidents| - 1;
    if v == NearestValue(grid, incidents[n], tie) {
      assert IsNearest(v, Elems(grid), incidents[n], tie);
    } else {
      AssignedIsNearestGridPoint(grid, incidents[..n], tie, v);
      var j :| 0 <= j < n && IsNearest(v, Elems(grid), incidents[..n][j], tie);
      assert incidents[..n][j] == incidents[j];
    }
  }

  /** Every incident lands on its nearest grid timestamp. */
  lemma {:induction false} AssignedCoversIncidents(grid: seq<int>, incidents: seq<int>, tie: Tie, j: nat)
    requires Increasing(grid) && |grid| > 0 && j < |incidents|
    ensures NearestValue(grid, incidents[j], tie) in Assigned(grid, incidents, tie)
  {
    var n := |incidents| - 1;
    if j < n {
      AssignedCoversIncidents(grid, incidents[..n], tie, j);
      assert incidents[..n][j] == incidents[j];
    }
  }

  /** Row `j` of a frame without its row `k`. */
  lemma DropRowIndex(df: seq<Row>, k: nat)
    requires k < |df|
    ensures var d := df[..k] + df[k + 1..];
      |d| == |df| - 1 && forall j :: 0 <= j < |d| ==> d[j] == if j < k then df[j] else df[j + 1]
  {
    var d := df[..k] + df[k + 1..];
    forall j | 0 <= j < |d| ensures d[j] == if j < k then df[j] else df[j + 1] {
      if j < k {
        assert d[j] == df[..k][j];
      } else {
        assert d[j] == df[k + 1..][j - k];
      }
    }
  }

  lemma DropRowOrder(df: seq<Row>, k: nat)
    requires StrictlyIncreasing(df) && k < |df|
    ensures StrictlyIncreasing(df[..k] + df[k + 1..])
  {
    var d := df[..k] + df[k + 1..];
    DropRowIndex(df, k);
    forall i, j | 0 <= i < j < |d| ensures d[i].ts < d[j].ts {
      assert d[i] == df[if i < k then i else i + 1];
      assert d[j] == df[if j < k then j else j + 1];
    }
  }

  lemma TsSetAppend(a: seq<Row>, b: seq<Row>)
    ensures TsSet(a + b) == TsSet(a) + TsSet(b)
  {
    assert forall q :: q in a + b <==> q in a || q in b;
  }

  lemma DropRowTs(df: seq<Row>, k: nat)
    requires StrictlyIncreasing(df) && k < |df|
    ensures TsSet(df[..k] + df[k + 1..]) == TsSet(df) - {df[k].ts}
  {
    var before, after := df[..k], df[k + 1..];
    assert df == before + [df[k]] + after;
    TsSetAppend(before, after);
    TsSetAppend(before + [df[k]], after);
    TsSetAppend(before, [df[k]]);
    assert TsSet([df[k]]) == {df[k].ts};
    forall r | r in before ensures r.ts != df[k].ts {
      var j :| 0 <= j < k && before[j] == r;
      assert df[j] == r;
    }
    forall r | r in after ensures r.ts != df[k].ts {
      var j :| 0 <= j < |after| && after[j] == r;
      assert df[k + 1 + j] == r;
    }
  }

  /** Removing the row at position `k` of a frame with a unique index removes exactly its timestamp. */
  lemma DropRow(df: seq<Row>, k: nat)
    requires StrictlyIncreasing(df) && k < |df|
    ensures var d := df[..k] + df[k + 1..];
      && StrictlyIncreasing(d)
      && TsSet(d) == TsSet(df) - {df[k].ts}
      && forall j :: 0 <= j < |d| ==> d[j] == if j < k then df[j] else df[j + 1]
  {
    DropRowIndex(df, k);
    DropRowOrder(df, k);
    DropRowTs(df, k);
  }

  /** Two increasing series with the same elements are the same series. */
  lemma {:induction false} IncreasingIsDeterminedByElems(a: seq<int>, b: seq<int>)
    requires Increasing(a) && Increasing(b) && Elems(a) == Elems(b)
    ensures a == b
    decreases |a|
  {
    assert a != [] ==> a[0] in Elems(b);
    assert b != [] ==> b[0] in Elems(a);
    if a != [] && b != [] {
      assert a[0] in Elems(b) && b[0] in Elems(a);
      assert a[0] == b[0] by {
        var i :| 0 <= i < |b| && b[i] == a[0];
        var j :| 0 <= j < |a| && a[j] == b[0];
        assert a[0] <= a[j] && b[0] <= b[i];
      }
      assert Elems(a[1..]) == Elems(a) - {a[0]} by {
        forall x ensures x in a[1..] <==> x in a && x != a[0] {
          if x in a && x != a[0] {
            var j :| 0 <= j < |a| && a[j] == x;
            assert a[1..][j - 1] == x;
          }
        }
      }
      assert Elems(b[1..]) == Elems(b) - {b[0]} by {
        forall x ensures x in b[1..] <==> x in b && x != b[0] {
          if x in b && x != b[0] {
            var j :| 0 <= j < |b| && b[j] == x;
            assert b[1..][j - 1] == x;
          }
        }
      }
      IncreasingIsDeterminedByElems(a[1..], b[1..]);
    }
  }

  /** The frame invariant of the incident loop: each row is the frame's row at its timestamp, stamped when assigned. */
  predicate Tracks(df: seq<Row>, frame: seq<Row>, marked: set<int>) {
    forall k :: 0 <= k < |df| ==>
      df[k].ts in TsSet(frame) && df[k] == Stamp(At(frame, df[k].ts), df[k].ts in marked)
  }

  lemma TracksInitially(frame: seq<Row>)
    requires StrictlyIncreasing(frame)
    ensures Tracks(frame, frame, {})
  {
    forall k | 0 <= k < |frame| ensures frame[k].ts in TsSet(frame) && frame[k] == Stamp(At(frame, frame[k].ts), false) {
      AtOwnTimestamp(frame, k);
    }
  }

  /** Setting the incident of one row keeps the index and marks its timestamp. */
  lemma MarkKeepsTracking(df: seq<Row>, frame: seq<Row>, marked: set<int>, k: nat)
    requires StrictlyIncreasing(df) && Tracks(df, frame, marked) && k < |df|
    ensures var d := df[k := Stamp(df[k], true)];
      StrictlyIncreasing(d) && TsSet(d) == TsSet(df) && Tracks(d, frame, marked + {df[k].ts})
  {
    var d := df[k := Stamp(df[k], true)];
    assert Ts(d) == Ts(df);
    TsColumn(d);
    TsColumn(df);
    forall j | 0 <= j < |d| ensures d[j].ts in TsSet(frame) && d[j] == Stamp(At(frame, d[j].ts), d[j].ts in marked + {df[k].ts}) {
      if j != k {
        assert df[j].ts != df[k].ts;
      }
    }
  }

  /** Dropping one row removes exactly its timestamp and keeps the other rows as they were. */
  lemma DropKeepsTracking(df: seq<Row>, frame: seq<Row>, marked: set<int>, k: nat)
    requires StrictlyIncreasing(df) && Tracks(df, frame, marked) && k < |df|
    ensures var d := df[..k] + df[k + 1..];
      StrictlyIncreasing(d) && TsSet(d) == TsSet(df) - {df[k].ts} && Tracks(d, frame, marked)
  {
    DropRow(df, k);
    var d := df[..k] + df[k + 1..];
    forall j | 0 <= j < |d| ensures d[j].ts in TsSet(frame) && d[j] == Stamp(At(frame, d[j].ts), d[j].ts in marked) {
      assert d[j] == df[if j < k then j else j + 1];
    }
  }

  /** A nearest entry of the frame that is not removable is the nearest grid entry. */
  lemma NearestKeptIsNearestOnGrid(df: seq<Row>, grid: seq<int>, rem: set<int>, t: int, tie: Tie)
    requires StrictlyIncreasing(df) && Increasing(grid) && |df| > 0
    requires TsSet(df) == Elems(grid) + rem
    requires Increasing(Ts(df)) && df[NearestIndex(Ts(df), t, tie)].ts !in rem
    ensures |grid| > 0 && df[NearestIndex(Ts(df), t, tie)].ts == NearestValue(grid, t, tie)
  {
    TsColumn(df);
    var k := NearestIndex(Ts(df), t, tie);
    var v := df[k].ts;
    assert Ts(df)[k] == v;
    assert v in Elems(grid);
    NearestSurvivesRemoval(v, TsSet(df), Elems(grid), t, tie);
    NearestIsUnique(v, NearestValue(grid, t, tie), Elems(grid), t, tie);
  }

  /** `df.drop(removables)` leaves exactly the grid, in order, each row as tracked. */
  lemma FinalDrop(df: seq<Row>, frame: seq<Row>, marked: set<int>, grid: seq<int>, rem: set<int>)
    requires StrictlyIncreasing(df) && Tracks(df, frame, marked) && Increasing(grid)
    requires TsSet(df) == Elems(grid) + rem && rem !! Elems(grid) && Elems(grid) <= TsSet(frame)
    ensures var out := Filter(df, (r: Row) => r.ts !in rem);
      && Ts(out) == grid
      && forall k :: 0 <= k < |grid| ==> out[k] == Stamp(At(frame, grid[k]), grid[k] in marked)
  {
    var out := Filter(df, (r: Row) => r.ts !in rem);
    FilterKeepsOrder(df, (r: Row) => r.ts !in rem);
    TsColumn(out);
    assert TsSet(out) == Elems(grid) by {
      forall t ensures t in TsSet(out) <==> t in Elems(grid) {
        if t in Elems(grid) {
          var r :| r in df && r.ts == t;
          assert r in out;
        }
      }
    }
    IncreasingIsDeterminedByElems(Ts(out), grid);
    forall k | 0 <= k < |grid| ensures out[k] == Stamp(At(frame, grid[k]), grid[k] in marked) {
      assert out[k] in df;
      var j :| 0 <= j < |df| && df[j] == out[k];
      assert out[k].ts == Ts(out)[k];
    }
  }

  lemma EmptyFrameHasEmptyGrid(df: seq<Row>, grid: seq<int>, rem: set<int>)
    requires |df| == 0 && TsSet(df) == Elems(grid) + rem
    ensures |grid| == 0
  {
    ElemsOfEmpty(grid);
  }

  /** The frame's index is the grid plus the removables still in it. */
  predicate Indexed(df: seq<Row>, grid: seq<int>, rem: set<int>) {
    StrictlyIncreasing(df) && TsSet(df) == Elems(grid) + rem && rem !! Elems(grid)
  }

  /**
   * One lookup for the incident at `t`: the nearest timestamp still in the
   * frame either is removable, and is dropped from both the frame and the
   * removables, or is on the grid, and its row gets incident 1.0.
   */
  method LookupNearest(frame: seq<Row>, grid: seq<int>, t: int, tie: Tie,
                       df0: seq<Row>, rem0: set<int>, marked: set<int>)
    returns (placed: bool, df: seq<Row>, rem: set<int>)
    requires Increasing(grid) && Indexed(df0, grid, rem0) && Tracks(df0, frame, marked) && |df0| > 0
    ensures Indexed(df, grid, rem)
    ensures placed ==> |grid| > 0 && rem == rem0 && Tracks(df, frame, marked + {NearestValue(grid, t, tie)})
    ensures !placed ==> rem <= rem0 && |rem| < |rem0| && Tracks(df, frame, marked)
    ensures exists x ::
      && IsNearest(x, TsSet(df0), t, tie)
      && (placed <==> x !in rem0)
      && (placed ==> TsSet(df) == TsSet(df0) && |df| == |df0|)
      && (!placed ==> rem == rem0 - {x} && TsSet(df) == TsSet(df0) - {x} && |df| == |df0| - 1)
  {
    TsColumn(df0);
    var k := NearestIndex(Ts(df0), t, tie);
    var idx := df0[k].ts;
    assert idx == Ts(df0)[k];
    assert IsNearest(idx, TsSet(df0), t, tie);
    if idx !in rem0 {
      NearestKeptIsNearestOnGrid(df0, grid, rem0, t, tie);
      MarkKeepsTracking(df0, frame, marked, k);
      placed, df, rem := true, df0[k := Stamp(df0[k], true)], rem0;
    } else {
      DropKeepsTracking(df0, frame, marked, k);
      placed, df, rem := false, df0[..k] + df0[k + 1..], rem0 - {idx};
    }
  }

  /**
   * The `while not found` loop for the incident at `t`, repeating the lookup
   * until it lands on the grid. `placed` is false when the frame ran empty
   * (the lookup then raises).
   */
  method PlaceIncident(frame: seq<Row>, grid: seq<int>, t: int, tie: Tie,
                       df0: seq<Row>, rem0: set<int>, marked: set<int>)
    returns (placed: bool, df: seq<Row>, rem: set<int>)
    requires Increasing(grid) && Indexed(df0, grid, rem0) && Tracks(df0, frame, marked)
    ensures placed <==> |grid| > 0
    ensures Indexed(df, grid, rem) && rem <= rem0
    ensures placed ==> Tracks(df, frame, marked + {NearestValue(grid, t, tie)})
  {
    df, rem := df0, rem0;
    placed := false;
    while !placed
      invariant Indexed(df, grid, rem) && rem <= rem0
      invariant placed ==> |grid| > 0 && Tracks(df, frame, marked + {NearestValue(grid, t, tie)})
      invariant !placed ==> Tracks(df, frame, marked)
      decreases |rem|, if placed then 0 else 1
    {
      if |df| == 0 {
        // Only removables are ever dropped, so an exhausted frame means an empty grid.
        EmptyFrameHasEmptyGrid(df, grid, rem);
        return;
      }
      placed, df, rem := LookupNearest(frame, grid, t, tie, df, rem, marked);
    }
  }

  /** One more incident: its nearest grid timestamp joins the assigned ones. */
  lemma AssignedStep(grid: seq<int>, incidents: seq<int>, tie: Tie, i: nat)
    requires Increasing(grid) && |grid| > 0 && i < |incidents|
    ensures Assigned(grid, incidents[..i + 1], tie) ==
            Assigned(grid, incidents[..i], tie) + {NearestValue(grid, incidents[i], tie)}
  {
    assert incidents[..i + 1][..i] == incidents[..i];
  }

  /**
   * The `for` loop over the incidents: each is placed on its nearest grid
   * timestamp. `ok` is false when some lookup found the frame empty.
   */
  method PlaceIncidents(frame: seq<Row>, grid: seq<int>, removables: set<int>, incidents: seq<int>, tie: Tie)
    returns (ok: bool, df: seq<Row>, rem: set<int>)
    requires StrictlyIncreasing(frame) && Increasing(grid)
    requires TsSet(frame) == Elems(grid) + removables && removables !! Elems(grid)
    ensures ok <==> |grid| > 0 || |incidents| == 0
    ensures Indexed(df, grid, rem)
    ensures ok ==> Tracks(df, frame, Assigned(grid, incidents, tie))
  {
    df, rem := frame, removables;
    var marked: set<int> := {};
    TracksInitially(frame);
    for i := 0 to |incidents|
      invariant Indexed(df, grid, rem)
      invariant Tracks(df, frame, marked)
      invariant i == 0 || |grid| > 0
      invariant marked == Assigned(grid, incidents[..i], tie)
    {
      var placed;
      placed, df, rem := PlaceIncident(frame, grid, incidents[i], tie, df, rem, marked);
      if !placed {
        return false, df, rem;
      }
      AssignedStep(grid, incidents, tie, i);
      marked := marked + {NearestValue(grid, incidents[i], tie)};
    }
    assert incidents[..|incidents|] == incidents;
    ok := true;
  }

  /**
   * The incident loop: every incident is placed on its nearest grid
   * timestamp, then the remaining removables are dropped.
   */
  method AssignIncidents(frame: seq<Row>, grid: seq<int>, removables: set<int>, incidents: seq<int>, tie: Tie)
    returns (res: Result<seq<Row>, InterpolationError>)
    requires StrictlyIncreasing(frame) && Increasing(grid)
    requires TsSet(frame) == Elems(grid) + removables && removables !! Elems(grid)
    ensures res.Err? <==> |grid| == 0 && |incidents| > 0
    ensures res.Err? ==> res.error == EmptyIndex
    ensures res.Ok? ==> Ts(res.value) == grid
    ensures res.Ok? ==> forall k :: 0 <= k < |grid| ==>
      res.value[k] == Stamp(At(frame, grid[k]), grid[k] in Assigned(grid, incidents, tie))
  {
    var ok, df, rem := PlaceIncidents(frame, grid, removables, incidents, tie);
    if !ok {
      return Err(EmptyIndex);
    }
    FinalDrop(df, frame, Assigned(grid, incidents, tie), grid, rem);
    return Ok(Filter(df, (r: Row) => r.ts !in rem));
  }

  // ---------------------------------------------------------------------
  // equidistant_interpolate as a whole
  // ---------------------------------------------------------------------

  /** The frame the incident loop starts from: merged with the net-new grid rows, lat/lon backfilled. */
  function Frame(rows: seq<Row>, grid: seq<int>): (f: seq<Row>)
  {
    BackfillLatLon(Merge(rows, grid))
  }

  lemma FrameIndex(rows: seq<Row>, grid: seq<int>)
    ensures StrictlyIncreasing(Frame(rows, grid))
    ensures TsSet(Frame(rows, grid)) == TsSet(rows) + Elems(grid)
  {
    MergeSpec(rows, grid);
    SameTsSameIndex(Frame(rows, grid), Merge(rows, grid));
  }

  /** The frame's index splits into the grid and the removables, as the incident loop expects. */
  lemma FrameIsGridPlusRemovables(rows: seq<Row>, grid: seq<int>)
    ensures StrictlyIncreasing(Frame(rows, grid))
    ensures TsSet(Frame(rows, grid)) == Elems(grid) + Removables(rows, grid)
    ensures Removables(rows, grid) !! Elems(grid)
  {
    FrameIndex(rows, grid);
  }

  predicate IsIncident(r: Row) {
    r.incident.Some? && r.incident.value > 0.0
  }

  /** `df.loc[df['incident'] > 0]['timeStamp']`, in frame order. */
  function IncidentTimestamps(frame: seq<Row>): (ts: seq<int>)
    ensures forall t :: t in ts ==> t in TsSet(frame)
    ensures forall r :: r in frame && IsIncident(r) ==> r.ts in ts
    ensures forall t :: t in ts ==> exists r :: r in frame && IsIncident(r) && r.ts == t
  {
    var f := Filter(frame, IsIncident);
    forall t | t in Ts(f) ensures t in TsSet(frame) && exists r :: r in frame && IsIncident(r) && r.ts == t {
      var i :| 0 <= i < |f| && Ts(f)[i] == t;
      assert f[i] in frame && IsIncident(f[i]);
    }
    forall r | r in frame && IsIncident(r) ensures r.ts in Ts(f) {
      var i :| 0 <= i < |f| && f[i] == r;
      assert Ts(f)[i] == r.ts;
    }
    Ts(f)
  }

  /** `df['incident'].fillna(0)` on one row. */
  function FillIncident(r: Row): (o: Row)
    ensures o.(incident := r.incident) == r
    ensures o.incident.Some? && (r.incident.Some? ==> o.incident == r.incident)
  {
    r.(incident := Some(r.incident.GetOr(0.0)))
  }

  /** `df['incident'].fillna(0)` on a table. */
  function FillIncidents(rows: seq<Row>): (o: seq<Row>)
    ensures |o| == |rows| && Ts(o) == Ts(rows)
    ensures forall i :: 0 <= i < |rows| ==> o[i] == FillIncident(rows[i])
  {
    var o := seq(|rows|, i requires 0 <= i < |rows| => FillIncident(rows[i]));
    assert Ts(o) == Ts(rows);
    o
  }

  /** Filling the labels of the stamped grid rows gives the resampled rows. */
  lemma FilledRowsAreResampled(frame: seq<Row>, grid: seq<int>, incidents: seq<int>, tie: Tie, stamped: seq<Row>)
    requires Increasing(grid) && (|incidents| == 0 || |grid| > 0)
    requires Ts(stamped) == grid
    requires forall k :: 0 <= k < |grid| ==> stamped[k] == Stamp(At(frame, grid[k]), grid[k] in Assigned(grid, incidents, tie))
    ensures Ts(FillIncidents(stamped)) == grid
    ensures forall k :: 0 <= k < |grid| ==> FillIncidents(stamped)[k] == ResampledRow(frame, grid, incidents, tie, grid[k])
  {
    assert |stamped| == |Ts(stamped)|;
  }

  /** The output row at grid timestamp `t`. */
  function ResampledRow(frame: seq<Row>, grid: seq<int>, incidents: seq<int>, tie: Tie, t: int): Row
    requires Increasing(grid) && (|incidents| == 0 || |grid| > 0)
  {
    FillIncident(Stamp(At(frame, t), t in Assigned(grid, incidents, tie)))
  }

  /**
   * equidistant_interpolate: resample onto the grid, move each incident to
   * its nearest grid timestamp and drop the original rows that are not on
   * the grid.
   */
  method EquidistantInterpolate(ride: Ride, iv: nat, tie: Tie) returns (res: Result<Ride, InterpolationError>)
    ensures |ride.rows| == 0 ==> res == Err(EmptyRide)
    ensures |ride.rows| > 0 && iv == 0 ==> res == Err(ZeroInterval)
    ensures |ride.rows| > 0 && iv > 0 ==>
      var grid := RideGrid(ride.rows, iv);
      var frame := Frame(ride.rows, grid);
      var incidents := IncidentTimestamps(frame);
      && (res.Err? <==> |grid| == 0 && |incidents| > 0)
      && (res.Err? ==> res.error == EmptyIndex)
      && (res.Ok? ==>
            && res.value.schema == ride.schema
            && Ts(res.value.rows) == grid
            && forall k :: 0 <= k < |grid| ==> res.value.rows[k] == ResampledRow(frame, grid, incidents, tie, grid[k]))
  {
    if |ride.rows| == 0 {
      return Err(EmptyRide);
    }
    if iv == 0 {
      return Err(ZeroInterval);
    }
    var grid := RideGrid(ride.rows, iv);
    var removables := Removables(ride.rows, grid);
    var frame := Frame(ride.rows, grid);
    FrameIsGridPlusRemovables(ride.rows, grid);
    var incidents := IncidentTimestamps(frame);
    var stamped := AssignIncidents(frame, grid, removables, incidents, tie);
    if stamped.Err? {
      return Err(stamped.error);
    }
    var rows := FillIncidents(stamped.value);
    FilledRowsAreResampled(frame, grid, incidents, tie, stamped.value);
    return Ok(ride.(rows := rows));
  }

  /**
   * Every output row carries an incident value; it is positive exactly at the
   * grid timestamps some incident was moved to, and there it is 1.0. All other
   * columns are those of the frame row at that timestamp.
   */
  lemma IncidentFlagMarksAssignedTimestamps(rows: seq<Row>, grid: seq<int>, tie: Tie, t: int)
    requires Increasing(grid) && t in grid
    ensures var (frame, incidents) := (Frame(rows, grid), IncidentTimestamps(Frame(rows, grid)));
      var o := ResampledRow(frame, grid, incidents, tie, t);
      && o.ts == t
      && o.(incident := At(frame, t).incident) == At(frame, t)
      && o.incident.Some?
      && (o.incident.value > 0.0 <==> t in Assigned(grid, incidents, tie))
      && (t in Assigned(grid, incidents, tie) ==> o.incident == Some(1.0))
  {
    var frame := Frame(rows, grid);
    var incidents := IncidentTimestamps(frame);
    FrameIndex(rows, grid);
    var r := At(frame, t);
    if IsIncident(r) {
      assert r.ts in incidents;
      var j :| 0 <= j < |incidents| && incidents[j] == t;
      ExactMatchIsNearest(Elems(grid), t, tie);
      NearestIsUnique(t, NearestValue(grid, t, tie), Elems(grid), t, tie);
      AssignedCoversIncidents(grid, incidents, tie, j);
    }
  }

  /**
   * Every grid timestamp that receives an incident is the grid timestamp
   * nearest to some incident of the frame; none of them is a removable row.
   */
  lemma AssignedTimestampsAreNearestGridPoints(rows: seq<Row>, grid: seq<int>, tie: Tie, v: int)
    requires Increasing(grid)
    requires var incidents := IncidentTimestamps(Frame(rows, grid));
      (|incidents| == 0 || |grid| > 0) && v in Assigned(grid, incidents, tie)
    ensures v in grid && v !in Removables(rows, grid)
    ensures var incidents := IncidentTimestamps(Frame(rows, grid));
      exists j :: 0 <= j < |incidents| && IsNearest(v, Elems(grid), incidents[j], tie)
  {
    AssignedIsNearestGridPoint(grid, IncidentTimestamps(Frame(rows, grid)), tie, v);
  }

  /** What `interpolation_type` selects. */
  method Interpolate(kind: string, iv: nat, tie: Tie, ride: Ride) returns (res: Result<Outcome, InterpolationError>)
    ensures kind == "linear" ==> res == Ok(Rewrite(LinearInterpolate(ride)))
    ensures kind == "equidistant" && res.Ok? ==>
      && |ride.rows| > 0 && iv > 0 && res.value.Rewrite?
      && res.value.ride.schema == ride.schema
      && Ts(res.value.ride.rows) == RideGrid(ride.rows, iv)
    ensures kind == "equidistant" && |ride.rows| > 0 && iv > 0 && |RideGrid(ride.rows, iv)| > 0 ==> res.Ok?
    ensures kind == "equidistant" && |ride.rows| == 0 ==> res == Err(EmptyRide)
    ensures kind == "equidistant" && |ride.rows| > 0 && iv == 0 ==> res == Err(ZeroInterval)
    ensures kind == "equidistant" && |ride.rows| > 0 && iv > 0 ==>
      var grid := RideGrid(ride.rows, iv);
      var frame := Frame(ride.rows, grid);
      var incidents := IncidentTimestamps(frame);
      && (res.Err? <==> |grid| == 0 && |incidents| > 0)
      && (res.Err? ==> res.error == EmptyIndex)
      && (res.Ok? ==>
            && res.value.Rewrite?
            && forall k :: 0 <= k < |grid| ==> res.value.ride.rows[k] == ResampledRow(frame, grid, incidents, tie, grid[k]))
    ensures kind != "linear" && kind != "equidistant" ==> res == Ok(Untouched)
  {
    if kind == "linear" {
      return Ok(Rewrite(LinearInterpolate(ride)));
    } else if kind == "equidistant" {
      var r := EquidistantInterpolate(ride, iv, tie);
      if r.Err? {
        return Err(r.error);
      }
      return Ok(Rewrite(r.value));
    } else {
      return Ok(Untouched);
    }
  }
}
