/**
 * The two IQR-based outlier stages: GPS accuracy outliers (their position is
 * blanked) and velocity outliers (their row is removed). Both fit their bounds
 * on the training split only and apply them to every split.
 */
module Outliers {
  import opened Wrappers
  import opened Rides

  datatype Bounds = Bounds(lower: real, upper: real)

  /** Bounds for the two velocity columns, one pair per column. */
  datatype VelBounds = VelBounds(lat: Bounds, lon: Bounds)

  /** np.concatenate of an empty list raises; so does selecting acc in a file that has no such column. */
  datatype FitError = NoTrainingValues | MissingColumn(key: KeyError)

  /** A quantile estimator such as np.percentile: sample and percentage to value. */
  type Percentile = (seq<real>, real) -> real

  /** Multiplier of the interquartile range for GPS accuracy outliers. */
  const AccFactor: real := 1.5
  /** Multiplier of the interquartile range for velocity outliers (velocity is noisier). */
  const VelFactor: real := 3.0

  /** lower = q25 - k·IQR and upper = q75 + k·IQR. */
  function IqrBounds(q25: real, q75: real, k: real): (bd: Bounds)
    ensures bd.lower + bd.upper == q25 + q75
    ensures bd.upper - bd.lower == (q75 - q25) * (1.0 + 2.0 * k)
  {
    var cutOff := (q75 - q25) * k;
    Bounds(q25 - cutOff, q75 + cutOff)
  }

  /** A value is an outlier only when present and strictly outside the bounds (NaN compares false). */
  predicate IsOutlier(v: Value, bd: Bounds) {
    v.Some? && (v.value < bd.lower || v.value > bd.upper)
  }

  lemma ProductIsNonNegative(a: real, b: real)
    requires 0.0 <= a && 0.0 <= b
    ensures 0.0 <= a * b
  {
  }

  lemma ProductIsMonotone(a: real, k1: real, k2: real)
    requires 0.0 <= a && k1 <= k2
    ensures a * k1 <= a * k2
  {
    ProductIsNonNegative(a, k2 - k1);
    assert a * (k2 - k1) == a * k2 - a * k1;
  }

  /** Every value between the quartiles is kept, whatever the (non-negative) factor. */
  lemma QuartileRangeIsNeverOutlier(q25: real, q75: real, k: real, v: real)
    requires q25 <= v <= q75 && k >= 0.0
    ensures !IsOutlier(Some(v), IqrBounds(q25, q75, k))
  {
    ProductIsNonNegative(q75 - q25, k);
  }

  /** A wider factor never flags more values: the velocity rule is looser than the accuracy rule on equal quartiles. */
  lemma WiderFactorFlagsFewer(q25: real, q75: real, k1: real, k2: real, v: Value)
    requires q25 <= q75 && 0.0 <= k1 <= k2
    ensures IsOutlier(v, IqrBounds(q25, q75, k2)) ==> IsOutlier(v, IqrBounds(q25, q75, k1))
  {
    ProductIsMonotone(q75 - q25, k1, k2);
  }

  // ---------------------------------------------------------------------
  // GPS accuracy
  // ---------------------------------------------------------------------

  predicate AccPresent(r: Row) {
    r.acc.Some?
  }

  /** The rows that survive `df[['acc']].dropna()`, in row order. */
  function AccRows(rows: seq<Row>): seq<Row> {
    Filter(rows, AccPresent)
  }

  /** The present acc values of a file: one per row with an acc value, in row order. */
  function PresentAcc(rows: seq<Row>): (vs: seq<real>)
    ensures |vs| == |AccRows(rows)|
    ensures forall i :: 0 <= i < |vs| ==> Some(vs[i]) == AccRows(rows)[i].acc
    ensures |vs| == 0 <==> forall r :: r in rows ==> r.acc.None?
  {
    if rows == [] then []
    else
      var rest := PresentAcc(rows[1..]);
      PresentAccStep(rows, rest);
      (if rows[0].acc.Some? then [rows[0].acc.value] else []) + rest
  }

  lemma PresentAccStep(rows: seq<Row>, rest: seq<real>)
    requires rows != []
    requires |rest| == |AccRows(rows[1..])|
    requires forall i :: 0 <= i < |rest| ==> Some(rest[i]) == AccRows(rows[1..])[i].acc
    ensures var vs := (if rows[0].acc.Some? then [rows[0].acc.value] else []) + rest;
      && |vs| == |AccRows(rows)|
      && (forall i :: 0 <= i < |vs| ==> Some(vs[i]) == AccRows(rows)[i].acc)
      && (|vs| == 0 <==> forall r :: r in rows ==> r.acc.None?)
  {
    SplitHead(rows, []);
    assert rows == [rows[0]] + rows[1..];
    FilterCons(rows[0], rows[1..], AccPresent);
    var k := AccRows(rows);
    if |k| > 0 {
      assert k[0] in k;
    }
  }

  /** The pooled training sample of GPS accuracies: the values of all training files, file by file. */
  function AccSample(train: seq<Ride>): (vs: seq<real>)
    ensures |vs| == 0 <==> forall i :: 0 <= i < |train| ==> forall r :: r in train[i].rows ==> r.acc.None?
  {
    if train == [] then []
    else
      var vs := AccSample(train[1..]);
      assert forall i :: 1 <= i < |train| ==> train[i] == train[1..][i - 1];
      PresentAcc(train[0].rows) + vs
  }

  lemma AccSampleCons(ride: Ride, rest: seq<Ride>)
    ensures AccSample([ride] + rest) == PresentAcc(ride.rows) + AccSample(rest)
  {
    var t := [ride] + rest;
    assert t[0] == ride && t[1..] == rest;
  }

  /**
   * The pooled sample is the files' samples one after another, in training
   * order (`np.concatenate(l)`): a single file contributes its present acc
   * values, and pooling two lists of files concatenates their samples.
   */
  lemma {:induction false} AccSampleAppend(a: seq<Ride>, b: seq<Ride>)
    ensures AccSample(a + b) == AccSample(a) + AccSample(b)
    ensures |a| == 1 ==> AccSample(a) == PresentAcc(a[0].rows)
  {
    if a == [] {
      assert a + b == b;
    } else {
      SplitHead(a, b);
      AccSampleAppend(a[1..], b);
      AccSampleCons(a[0], a[1..] + b);
      AccSampleCons(a[0], a[1..]);
      ConcatAssoc(PresentAcc(a[0].rows), AccSample(a[1..]), AccSample(b));
      if |a| == 1 {
        assert a[1..] == [];
        assert PresentAcc(a[0].rows) + [] == PresentAcc(a[0].rows);
      }
    }
  }

  /** A training file without any accuracy value is deleted before the bounds are fitted; one without the column raises. */
  function AccFitVerdict(ride: Ride): (o: Result<Outcome, KeyError>)
    ensures o.Err? <==> !ride.schema.hasAcc
    ensures o.Ok? ==> o.value.Delete? || o.value.Untouched?
    ensures o == Ok(Delete) <==> ride.schema.hasAcc && forall r :: r in ride.rows ==> r.acc.None?
  {
    if !ride.schema.hasAcc then Err(NoAccColumn)
    else if |PresentAcc(ride.rows)| == 0 then Ok(Delete) else Ok(Untouched)
  }

  /**
   * Accuracy bounds, from the training files alone: the quartiles of the
   * pooled sample widened by 1.5 interquartile ranges. A file without the acc
   * column raises; no value at all raises too.
   */
  function FitAccBounds(train: seq<Ride>, percentile: Percentile): (r: Result<Bounds, FitError>)
    ensures r == Err(MissingColumn(NoAccColumn)) <==> exists i :: 0 <= i < |train| && !train[i].schema.hasAcc
    ensures r == Err(NoTrainingValues) <==>
      && (forall i :: 0 <= i < |train| ==> train[i].schema.hasAcc)
      && (forall i :: 0 <= i < |train| ==> forall q :: q in train[i].rows ==> q.acc.None?)
    ensures r.Ok? ==>
      var sample := AccSample(train);
      r.value == IqrBounds(percentile(sample, 25.0), percentile(sample, 75.0), AccFactor)
  {
    var sample := AccSample(train);
    if exists i :: 0 <= i < |train| && !train[i].schema.hasAcc then Err(MissingColumn(NoAccColumn))
    else if |sample| == 0 then Err(NoTrainingValues)
    else Ok(IqrBounds(percentile(sample, 25.0), percentile(sample, 75.0), AccFactor))
  }

  /**
   * remove_acc_outliers_inner: rows whose accuracy is an outlier lose lat and
   * lon; every other cell is kept; the acc column is dropped from the file.
   * A file without the acc column raises.
   */
  function RemoveAccOutliers(ride: Ride, bd: Bounds): (o: Result<Ride, KeyError>)
    ensures o.Err? <==> !ride.schema.hasAcc
    ensures o.Ok? ==> o.value.schema == ride.schema.(hasAcc := false)
    ensures o.Ok? ==> |o.value.rows| == |ride.rows|
    ensures o.Ok? ==> forall i :: 0 <= i < |ride.rows| ==>
      var (r, q) := (ride.rows[i], o.value.rows[i]);
      && q.acc.None?
      && (IsOutlier(r.acc, bd) ==> q.lat.None? && q.lon.None?)
      && (!IsOutlier(r.acc, bd) ==> q.lat == r.lat && q.lon == r.lon)
      && q.(acc := r.acc, lat := r.lat, lon := r.lon) == r
  {
    var rows := ride.rows;
    if !ride.schema.hasAcc then Err(NoAccColumn)
    else Ok(Ride(ride.schema.(hasAcc := false), seq(|rows|, i requires 0 <= i < |rows| =>
      var r := rows[i];
      if IsOutlier(r.acc, bd) then r.(lat := None, lon := None, acc := None) else r.(acc := None))))
  }

  // ---------------------------------------------------------------------
  // Velocity
  // ---------------------------------------------------------------------

  /** lat or lon (now per-second deltas) is an outlier for its own column's bounds. */
  predicate IsVelOutlier(r: Row, vb: VelBounds) {
    IsOutlier(r.lat, vb.lat) || IsOutlier(r.lon, vb.lon)
  }

  /** The lat and lon deltas of the complete rows of a file, in row order. */
  function CompleteDeltas(ride: Ride): (d: (seq<real>, seq<real>))
    ensures |d.0| == |d.1| == |CompleteRows(ride)|
    ensures forall i :: 0 <= i < |d.0| ==>
      Some(d.0[i]) == CompleteRows(ride)[i].lat && Some(d.1[i]) == CompleteRows(ride)[i].lon
    ensures |d.0| == 0 <==> forall r :: r in ride.rows ==> !Complete(r, ride.schema)
  {
    var kept := CompleteRows(ride);
    CompleteRowsHaveFixes(ride);
    (seq(|kept|, i requires 0 <= i < |kept| => kept[i].lat.value),
     seq(|kept|, i requires 0 <= i < |kept| => kept[i].lon.value))
  }

  lemma CompleteRowsHaveFixes(ride: Ride)
    ensures forall i :: 0 <= i < |CompleteRows(ride)| ==>
      CompleteRows(ride)[i].lat.Some? && CompleteRows(ride)[i].lon.Some?
    ensures |CompleteRows(ride)| == 0 <==> forall r :: r in ride.rows ==> !Complete(r, ride.schema)
  {
    var kept := CompleteRows(ride);
    CompleteRowsKept(ride);
    forall i | 0 <= i < |kept| ensures kept[i].lat.Some? && kept[i].lon.Some? {
      assert kept[i] in kept;
    }
    if |kept| > 0 {
      assert kept[0] in kept;
    }
  }

  /** The pooled training sample of velocity deltas, per column. */
  function VelSample(train: seq<Ride>): (d: (seq<real>, seq<real>))
    ensures |d.0| == |d.1|
    ensures |d.0| == 0 <==> forall i :: 0 <= i < |train| ==> forall r :: r in train[i].rows ==> !Complete(r, train[i].schema)
  {
    if train == [] then ([], [])
    else
      var rest := VelSample(train[1..]);
      assert forall i :: 1 <= i < |train| ==> train[i] == train[1..][i - 1];
      var d := CompleteDeltas(train[0]);
      (d.0 + rest.0, d.1 + rest.1)
  }

  lemma VelSampleCons(ride: Ride, rest: seq<Ride>)
    ensures VelSample([ride] + rest).0 == CompleteDeltas(ride).0 + VelSample(rest).0
    ensures VelSample([ride] + rest).1 == CompleteDeltas(ride).1 + VelSample(rest).1
  {
    var t := [ride] + rest;
    assert t[0] == ride && t[1..] == rest;
  }

  /**
   * Each column of the pooled sample is the files' columns one after another,
   * in training order: a single file contributes its complete rows' deltas,
   * and pooling two lists of files concatenates their samples.
   */
  lemma {:induction false} VelSampleAppend(a: seq<Ride>, b: seq<Ride>)
    ensures VelSample(a + b).0 == VelSample(a).0 + VelSample(b).0
    ensures VelSample(a + b).1 == VelSample(a).1 + VelSample(b).1
    ensures |a| == 1 ==> VelSample(a) == CompleteDeltas(a[0])
  {
    if a == [] {
      assert a + b == b;
    } else {
      SplitHead(a, b);
      VelSampleAppend(a[1..], b);
      VelSampleCons(a[0], a[1..] + b);
      VelSampleCons(a[0], a[1..]);
      var d := CompleteDeltas(a[0]);
      ConcatAssoc(d.0, VelSample(a[1..]).0, VelSample(b).0);
      ConcatAssoc(d.1, VelSample(a[1..]).1, VelSample(b).1);
      if |a| == 1 {
        assert a[1..] == [];
        assert d.0 + [] == d.0 && d.1 + [] == d.1;
      }
    }
  }

  /** A training file without any complete row is deleted before the velocity bounds are fitted. */
  function VelFitVerdict(ride: Ride): (o: Outcome)
    ensures o.Delete? || o.Untouched?
    ensures o.Delete? <==> forall r :: r in ride.rows ==> !Complete(r, ride.schema)
  {
    if |CompleteDeltas(ride).0| == 0 then Delete else Untouched
  }

  /** Velocity bounds, from the training files alone: per-column quartiles widened by 3 interquartile ranges. */
  function FitVelBounds(train: seq<Ride>, percentile: Percentile): (r: Result<VelBounds, FitError>)
    ensures r.Err? <==> forall i :: 0 <= i < |train| ==> forall q :: q in train[i].rows ==> !Complete(q, train[i].schema)
    ensures r.Ok? ==>
      var (lats, lons) := VelSample(train);
      && r.value.lat == IqrBounds(percentile(lats, 25.0), percentile(lats, 75.0), VelFactor)
      && r.value.lon == IqrBounds(percentile(lons, 25.0), percentile(lons, 75.0), VelFactor)
  {
    var (lats, lons) := VelSample(train);
    if |lats| == 0 then Err(NoTrainingValues)
    else Ok(VelBounds(
      IqrBounds(percentile(lats, 25.0), percentile(lats, 75.0), VelFactor),
      IqrBounds(percentile(lons, 25.0), percentile(lons, 75.0), VelFactor)))
  }

  /** The rows without a velocity outlier, in row order. */
  function Inliers(ride: Ride, vb: VelBounds): seq<Row> {
    Filter(ride.rows, r => !IsVelOutlier(r, vb))
  }

  /**
   * remove_vel_outliers_inner: a file without outlier rows is left as it is;
   * otherwise it is rewritten with exactly its non-outlier rows, in order and
   * with their multiplicity.
   */
  function RemoveVelOutliers(ride: Ride, vb: VelBounds): (o: Outcome)
    ensures !o.Delete?
    ensures o.Untouched? <==> forall r :: r in ride.rows ==> !IsVelOutlier(r, vb)
    ensures o.Rewrite? ==>
      && o.ride.schema == ride.schema
      && o.ride.rows == Inliers(ride, vb)
      && |o.ride.rows| < |ride.rows|
      && (forall r :: r in o.ride.rows <==> r in ride.rows && !IsVelOutlier(r, vb))
      && (forall r :: multiset(o.ride.rows)[r] == if IsVelOutlier(r, vb) then 0 else multiset(ride.rows)[r])
      && (Sorted(ride.rows) ==> Sorted(o.ride.rows))
      && (StrictlyIncreasing(ride.rows) ==> StrictlyIncreasing(o.ride.rows))
  {
    var kept := Inliers(ride, vb);
    InliersKept(ride, vb);
    if |kept| == |ride.rows| then Untouched else Rewrite(ride.(rows := kept))
  }

  /** `df.drop(outlier_rows)` keeps exactly the other rows, each as often as it occurs, in table order. */
  lemma InliersKept(ride: Ride, vb: VelBounds)
    ensures forall r :: multiset(Inliers(ride, vb))[r] == if IsVelOutlier(r, vb) then 0 else multiset(ride.rows)[r]
    ensures Sorted(ride.rows) ==> Sorted(Inliers(ride, vb))
    ensures StrictlyIncreasing(ride.rows) ==> StrictlyIncreasing(Inliers(ride, vb))
  {
    FilterCounts(ride.rows, r => !IsVelOutlier(r, vb));
    FilterKeepsOrders(ride.rows, r => !IsVelOutlier(r, vb));
  }
}
