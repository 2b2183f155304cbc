/**
 * The velocity estimator: absolute GPS latitude/longitude become per-second
 * deltas by finite differences over the rows that carry a GPS position.
 */
module Velocity {
  import opened Wrappers
  import opened Rides

  /** lat and lon are both present (the timestamp always is): the row survives `dropna()` on the three columns. */
  predicate HasFix(r: Row) {
    r.lat.Some? && r.lon.Some?
  }

  /** Index of the last row before `i` that has a GPS fix, or -1 when there is none. */
  function PrevFix(rows: seq<Row>, i: nat): (j: int)
    requires i <= |rows|
    ensures -1 <= j < i
    ensures j >= 0 ==> HasFix(rows[j])
    ensures forall k :: j < k < i ==> !HasFix(rows[k])
  {
    if i == 0 then -1
    else if HasFix(rows[i - 1]) then i - 1
    else PrevFix(rows, i - 1)
  }

  /** The row holding the previous GPS fix, if any. */
  function LastFixBefore(rows: seq<Row>, i: nat): Option<Row>
    requires i <= |rows|
  {
    var j := PrevFix(rows, i);
    if j >= 0 then Some(rows[j]) else None
  }

  /** Change per second: Δ·1000 / Δt with Δt in milliseconds. */
  function PerSecond(cur: real, prev: real, dt: int): real
    requires dt > 0
  {
    (cur - prev) * 1000.0 / dt as real
  }

  /**
   * One differenced row: a fix whose predecessor fix is strictly earlier gets
   * lat and lon per second since that fix; every other row gets empty lat/lon.
   */
  function Differenced(cur: Row, prev: Option<Row>): (d: Row)
    ensures d.(lat := cur.lat, lon := cur.lon) == cur
    ensures d.lat.Some? <==> d.lon.Some?
    ensures d.lat.Some? <==> HasFix(cur) && prev.Some? && HasFix(prev.value) && prev.value.ts < cur.ts
  {
    if HasFix(cur) && prev.Some? && HasFix(prev.value) && prev.value.ts < cur.ts then
      var dt := cur.ts - prev.value.ts;
      cur.(lat := Some(PerSecond(cur.lat.value, prev.value.lat.value, dt)),
           lon := Some(PerSecond(cur.lon.value, prev.value.lon.value, dt)))
    else cur.(lat := None, lon := None)
  }

  /**
   * Differencing over the rows from `k` on, carrying the last fix seen so far
   * (the diff over the rows left after dropna).
   */
  function DeltasFrom(rows: seq<Row>, k: nat, prev: Option<Row>): (o: seq<Row>)
    requires k <= |rows|
    ensures |o| == |rows| - k
    decreases |rows| - k
  {
    if k == |rows| then []
    else
      var next := if HasFix(rows[k]) then Some(rows[k]) else prev;
      [Differenced(rows[k], prev)] + DeltasFrom(rows, k + 1, next)
  }

  /** calc_vel_delta_inner: lat and lon are replaced by their per-second deltas. */
  function CalcVelDelta(ride: Ride): (o: Ride)
    ensures o.schema == ride.schema && |o.rows| == |ride.rows|
    ensures forall i :: 0 <= i < |o.rows| ==> o.rows[i].(lat := ride.rows[i].lat, lon := ride.rows[i].lon) == ride.rows[i]
  {
    var o := ride.(rows := DeltasFrom(ride.rows, 0, None));
    forall i | 0 <= i < |o.rows|
      ensures o.rows[i].(lat := ride.rows[i].lat, lon := ride.rows[i].lon) == ride.rows[i]
    {
      VelDeltaUsesPreviousFix(ride, i);
    }
    o
  }

  /** The carried fix after row k: row k itself when it has a fix, the earlier one otherwise. */
  lemma LastFixStep(rows: seq<Row>, k: nat)
    requires k < |rows|
    ensures LastFixBefore(rows, k + 1) == if HasFix(rows[k]) then Some(rows[k]) else LastFixBefore(rows, k)
  {
  }

  /** Past its first row, the differenced suffix from k is the one from k + 1. */
  lemma DeltasFromShift(rows: seq<Row>, k: nat, prev: Option<Row>, j: nat)
    requires k < |rows| && 0 < j < |rows| - k
    ensures DeltasFrom(rows, k, prev)[j] ==
      DeltasFrom(rows, k + 1, if HasFix(rows[k]) then Some(rows[k]) else prev)[j - 1]
  {
  }

  lemma {:induction false} DeltasFromAt(rows: seq<Row>, k: nat, i: nat)
    requires k <= i < |rows|
    ensures DeltasFrom(rows, k, LastFixBefore(rows, k))[i - k] == Differenced(rows[i], LastFixBefore(rows, i))
    decreases i - k
  {
    if i > k {
      LastFixStep(rows, k);
      DeltasFromShift(rows, k, LastFixBefore(rows, k), i - k);
      DeltasFromAt(rows, k + 1, i);
    }
  }

  /**
   * Row i of the result is row i differenced against the last row before it
   * that has a GPS fix: the carried state of the recursion is exactly that row.
   */
  lemma VelDeltaUsesPreviousFix(ride: Ride, i: nat)
    requires i < |ride.rows|
    ensures DeltasFrom(ride.rows, 0, None)[i] == Differenced(ride.rows[i], LastFixBefore(ride.rows, i))
  {
    DeltasFromAt(ride.rows, 0, i);
  }

  /** The first GPS fix of a ride has no predecessor and gets empty lat/lon. */
  lemma FirstFixHasNoVelocity(ride: Ride, i: nat)
    requires i < |ride.rows| && HasFix(ride.rows[i])
    requires forall k :: 0 <= k < i ==> !HasFix(ride.rows[k])
    ensures CalcVelDelta(ride).rows[i].lat.None? && CalcVelDelta(ride).rows[i].lon.None?
  {
    VelDeltaUsesPreviousFix(ride, i);
  }

  /**
   * A fix with an earlier fix before it gets the change of lat and lon per
   * second since the nearest such fix.
   */
  lemma VelocityIsChangeSincePreviousFix(ride: Ride, i: nat, j: nat)
    requires i < |ride.rows| && HasFix(ride.rows[i])
    requires j < i && HasFix(ride.rows[j]) && ride.rows[j].ts < ride.rows[i].ts
    requires forall k :: j < k < i ==> !HasFix(ride.rows[k])
    ensures CalcVelDelta(ride).rows[i].lat
      == Some(PerSecond(ride.rows[i].lat.value, ride.rows[j].lat.value, ride.rows[i].ts - ride.rows[j].ts))
    ensures CalcVelDelta(ride).rows[i].lon
      == Some(PerSecond(ride.rows[i].lon.value, ride.rows[j].lon.value, ride.rows[i].ts - ride.rows[j].ts))
  {
    VelDeltaUsesPreviousFix(ride, i);
  }
}
