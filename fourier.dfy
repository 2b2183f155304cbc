/**
 * The optional Fourier stage: the non-GPS, non-label channels of each bucket
 * are replaced by the real and imaginary parts of their discrete Fourier
 * transform along the window axis; the two GPS channels and the label follow.
 * The transform itself is a parameter: only the channel layout is modelled.
 */
module Fourier {
  import opened Buckets
  import opened Scaling

  datatype Complex = Complex(re: real, im: real)

  /** `Dft(column, k)` is coefficient `k` of the transform of `column`. */
  type Dft = (seq<real>, nat) -> Complex

  /** Where a Python slice bound lands in a sequence of length `n`. */
  function Clamp(n: nat, i: int): (k: nat)
    ensures k <= n
  {
    if i < 0 then (if n + i < 0 then 0 else n + i) else if i > n then n else i
  }

  /** Python's `s[start:stop]`, negative bounds counting from the end. */
  function PySlice<T>(s: seq<T>, start: int, stop: int): (o: seq<T>)
    ensures |o| <= |s|
  {
    var a, b := Clamp(|s|, start), Clamp(|s|, stop);
    if a <= b then s[a..b] else []
  }

  /** `c[:-3]`: the channels that are transformed. */
  function Inertial<T>(c: seq<T>): seq<T> { PySlice(c, 0, -3) }

  /** `c[-3:-1]`: the GPS channels. */
  function Gps<T>(c: seq<T>): seq<T> { PySlice(c, -3, -1) }

  /** `c[-1:]`: the label channel. */
  function Label<T>(c: seq<T>): seq<T> { PySlice(c, -1, |c|) }

  /** The three parts cover the cell, in order, whatever its width. */
  lemma PartsCoverCell<T>(c: seq<T>)
    ensures Inertial(c) + Gps(c) + Label(c) == c
    ensures |Label(c)| == if |c| == 0 then 0 else 1
    ensures |Gps(c)| == if |c| >= 3 then 2 else if |c| == 0 then 0 else |c| - 1
  {
    if |c| >= 3 {
      assert c == c[..|c| - 3] + c[|c| - 3..|c| - 1] + c[|c| - 1..];
    } else if |c| > 0 {
      assert c == c[..|c| - 1] + c[|c| - 1..];
    }
  }

  /** Every cell of the bucket has `width` channels. */
  predicate Uniform(bk: Bucket, width: nat) {
    forall i, j :: 0 <= i < |bk| && 0 <= j < |bk[i]| ==> |bk[i][j]| == width
  }

  /** Every window position has the same number of slices. */
  predicate Rectangle(bk: Bucket) {
    forall i :: 0 <= i < |bk| ==> |bk[i]| == |bk[0]|
  }

  /** Channel `c` of slice `j` along the window axis. */
  function Column(bk: Bucket, j: nat, c: nat): (col: seq<real>)
    requires Rectangle(bk) && |bk| > 0 && j < |bk[0]|
    requires forall i :: 0 <= i < |bk| ==> c < |bk[i][j]|
    ensures |col| == |bk|
  {
    seq(|bk|, i requires 0 <= i < |bk| => bk[i][j][c])
  }

  predicate Shaped(bk: Bucket, width: nat) {
    |bk| > 0 && Rectangle(bk) && Uniform(bk, width)
  }

  /** The transformed cell at window position `i`, slice `j`. */
  function TransformCell(bk: Bucket, width: nat, dft: Dft, i: nat, j: nat): (o: seq<real>)
    requires Shaped(bk, width) && i < |bk| && j < |bk[0]|
  {
    var m := |Inertial(bk[i][j])|;
    seq(m, c requires 0 <= c < m => dft(Column(bk, j, c), i).re)
      + seq(m, c requires 0 <= c < m => dft(Column(bk, j, c), i).im)
      + Gps(bk[i][j]) + Label(bk[i][j])
  }

  /** One bucket of the keyed archive, transformed along its window axis. */
  function TransformBucket(bk: Bucket, width: nat, dft: Dft): (o: Bucket)
    requires Shaped(bk, width)
    ensures |o| == |bk| && forall i :: 0 <= i < |o| ==> |o[i]| == |bk[0]|
  {
    seq(|bk|, i requires 0 <= i < |bk| =>
      seq(|bk[0]|, j requires 0 <= j < |bk[0]| => TransformCell(bk, width, dft, i, j)))
  }

  /**
   * A transformed cell holds the real parts, then the imaginary parts of the
   * transformed channels, then the two GPS channels and the label unchanged.
   */
  lemma TransformedCellLayout(bk: Bucket, width: nat, dft: Dft, i: nat, j: nat)
    requires Shaped(bk, width) && width >= 3 && i < |bk| && j < |bk[0]|
    ensures var (o, c, m) := (TransformBucket(bk, width, dft)[i][j], bk[i][j], width - 3);
      |o| == 2 * m + 3
      && (forall k :: 0 <= k < m ==> o[k] == dft(Column(bk, j, k), i).re && o[m + k] == dft(Column(bk, j, k), i).im)
      && o[2 * m..2 * m + 2] == c[m..m + 2]
      && o[2 * m + 2] == c[width - 1]
  {
    var c := bk[i][j];
    PartsCoverCell(c);
  }

  /** The label channel passes through the transform unchanged. */
  lemma TransformKeepsLabel(bk: Bucket, width: nat, dft: Dft)
    requires Shaped(bk, width)
    ensures var o := TransformBucket(bk, width, dft);
      forall i, j :: 0 <= i < |bk| && 0 <= j < |bk[i]| ==> LabelOf(o[i][j]) == LabelOf(bk[i][j])
    ensures IsPositive(TransformBucket(bk, width, dft)) == IsPositive(bk)
  {
    var o := TransformBucket(bk, width, dft);
    forall i, j | 0 <= i < |bk| && 0 <= j < |bk[i]|
      ensures LabelOf(o[i][j]) == LabelOf(bk[i][j])
    {
      var c := bk[i][j];
      PartsCoverCell(c);
      if |c| > 0 {
        assert Label(c) == [c[|c| - 1]];
      }
    }
    if IsPositive(bk) {
      var i, j :| 0 <= i < |bk| && 0 <= j < |bk[i]| && LabelOf(bk[i][j]) != 0.0;
      assert LabelOf(o[i][j]) != 0.0;
    }
    if IsPositive(o) {
      var i, j :| 0 <= i < |o| && 0 <= j < |o[i]| && LabelOf(o[i][j]) != 0.0;
      assert LabelOf(bk[i][j]) != 0.0;
    }
  }

  predicate AllShaped(data: seq<Bucket>, width: nat) {
    forall n :: 0 <= n < |data| ==> Shaped(data[n], width)
  }

  /**
   * The in-memory archive transformed as one stacked array, along its
   * second axis (the window axis of every bucket).
   */
  function TransformStacked(data: seq<Bucket>, width: nat, dft: Dft): (o: seq<Bucket>)
    requires AllShaped(data, width)
    ensures |o| == |data|
  {
    seq(|data|, n requires 0 <= n < |data| =>
      seq(|data[n]|, i requires 0 <= i < |data[n]| =>
        seq(|data[n][0]|, j requires 0 <= j < |data[n][0]| => StackedTransformCell(data, width, dft, n, i, j))))
  }

  /** Cell `(n, i, j)` of the stacked transform: each inertial channel is transformed along axis 1. */
  function StackedTransformCell(data: seq<Bucket>, width: nat, dft: Dft, n: nat, i: nat, j: nat): seq<real>
    requires AllShaped(data, width) && n < |data| && i < |data[n]| && j < |data[n][0]|
  {
    assert Shaped(data[n], width);
    var cell, m := data[n][i][j], |Inertial(data[n][i][j])|;
    seq(m, c requires 0 <= c < m => dft(seq(|data[n]|, i' requires 0 <= i' < |data[n]| => data[n][i'][j][c]), i).re)
      + seq(m, c requires 0 <= c < m => dft(seq(|data[n]|, i' requires 0 <= i' < |data[n]| => data[n][i'][j][c]), i).im)
      + Gps(cell) + Label(cell)
  }

  /** The stacked transform and the per-bucket transform of the keyed path agree. */
  lemma StackedIsPerBucket(data: seq<Bucket>, width: nat, dft: Dft)
    requires AllShaped(data, width)
    ensures forall n :: 0 <= n < |data| ==> TransformStacked(data, width, dft)[n] == TransformBucket(data[n], width, dft)
  {
    forall n | 0 <= n < |data|
      ensures TransformStacked(data, width, dft)[n] == TransformBucket(data[n], width, dft)
    {
      StackedBucket(data, width, dft, n);
    }
  }

  lemma StackedBucket(data: seq<Bucket>, width: nat, dft: Dft, n: nat)
    requires AllShaped(data, width) && n < |data|
    ensures TransformStacked(data, width, dft)[n] == TransformBucket(data[n], width, dft)
  {
    var bk, s, t := data[n], TransformStacked(data, width, dft)[n], TransformBucket(data[n], width, dft);
    forall i | 0 <= i < |bk|
      ensures s[i] == t[i]
    {
      forall j | 0 <= j < |bk[0]|
        ensures s[i][j] == t[i][j]
      {
        StackedCellAgrees(data, width, dft, n, i, j);
      }
    }
  }

  lemma StackedCellAgrees(data: seq<Bucket>, width: nat, dft: Dft, n: nat, i: nat, j: nat)
    requires AllShaped(data, width) && n < |data| && i < |data[n]| && j < |data[n][0]|
    ensures TransformStacked(data, width, dft)[n][i][j] == TransformBucket(data[n], width, dft)[i][j]
  {
    var bk := data[n];
    var m := |Inertial(bk[i][j])|;
    forall c | 0 <= c < m
      ensures seq(|bk|, i' requires 0 <= i' < |bk| => bk[i'][j][c]) == Column(bk, j, c)
    {
    }
  }

  lemma {:induction false} SameClassesSameCount(a: seq<Bucket>, b: seq<Bucket>)
    requires |a| == |b| && forall n :: 0 <= n < |a| ==> IsPositive(a[n]) == IsPositive(b[n])
    ensures Positives(a) == Positives(b)
  {
    if a != [] {
      SameClassesSameCount(a[..|a| - 1], b[..|b| - 1]);
    }
  }

  /** The transform keeps every bucket's class, so the class counts stay valid. */
  lemma TransformKeepsClassCounts(data: seq<Bucket>, width: nat, dft: Dft)
    requires AllShaped(data, width)
    ensures Positives(TransformStacked(data, width, dft)) == Positives(data)
  {
    var o := TransformStacked(data, width, dft);
    StackedIsPerBucket(data, width, dft);
    forall n | 0 <= n < |data|
      ensures IsPositive(o[n]) == IsPositive(data[n])
    {
      TransformKeepsLabel(data[n], width, dft);
    }
    SameClassesSameCount(o, data);
  }

  function KeySet(files: seq<string>): set<string> {
    set k | 0 <= k < |files| :: files[k]
  }

  /** The keyed archive after the given keys were transformed. */
  function TransformedKeys(files: seq<string>, loaded: map<string, Bucket>, width: nat, dft: Dft): map<string, Bucket>
    requires forall key :: key in loaded ==> Shaped(loaded[key], width)
    requires KeySet(files) <= loaded.Keys
  {
    map key | key in KeySet(files) :: TransformBucket(loaded[key], width, dft)
  }

  /** One worker: transforms the buckets of its share of the keys. */
  method FourierWorker(loaded: map<string, Bucket>, width: nat, dft: Dft, files: seq<string>)
    returns (dict: map<string, Bucket>)
    requires forall key :: key in loaded ==> Shaped(loaded[key], width)
    requires KeySet(files) <= loaded.Keys
    ensures dict.Keys == KeySet(files)
    ensures forall key :: key in dict ==> dict[key] == TransformBucket(loaded[key], width, dft)
    ensures dict == TransformedKeys(files, loaded, width, dft)
  {
    dict := map[];
    for k := 0 to |files|
      invariant dict.Keys == KeySet(files[..k])
      invariant forall key :: key in dict ==> dict[key] == TransformBucket(loaded[key], width, dft)
    {
      assert files[k] in KeySet(files);
      assert KeySet(files[..k + 1]) == KeySet(files[..k]) + {files[k]} by {
        assert files[..k + 1][k] == files[k];
        forall key | key in KeySet(files[..k + 1]) ensures key in KeySet(files[..k]) + {files[k]} {
          var p :| 0 <= p < k + 1 && files[..k + 1][p] == key;
          if p < k { assert files[..k][p] == key; }
        }
        forall key | key in KeySet(files[..k]) ensures key in KeySet(files[..k + 1]) {
          var p :| 0 <= p < k && files[..k][p] == key;
          assert files[..k + 1][p] == key;
        }
      }
      dict := dict[files[k] := TransformBucket(loaded[files[k]], width, dft)];
    }
    assert files[..|files|] == files;
  }

  /** The keyed path: the workers' dictionaries merged into one archive with the same keys. */
  method FourierKeyed(loaded: map<string, Bucket>, width: nat, dft: Dft, shards: seq<seq<string>>)
    returns (dict: map<string, Bucket>)
    requires forall key :: key in loaded ==> Shaped(loaded[key], width)
    requires forall k :: 0 <= k < |shards| ==> KeySet(shards[k]) <= loaded.Keys
    ensures dict.Keys == set k, key | 0 <= k < |shards| && key in KeySet(shards[k]) :: key
    ensures forall key :: key in dict ==> dict[key] == TransformBucket(loaded[key], width, dft)
  {
    dict := map[];
    for k := 0 to |shards|
      invariant dict.Keys == set p, key | 0 <= p < k && key in KeySet(shards[p]) :: key
      invariant forall key :: key in dict ==> dict[key] == TransformBucket(loaded[key], width, dft)
    {
      var local := FourierWorker(loaded, width, dft, shards[k]);
      dict := dict + local;
    }
  }

  /**
   * In the scaled channel order, the GPS slice is [lat, lon], the label slice
   * is [incident], and every transformed channel is an inertial one.
   */
  lemma ScaledLayoutSplit(linAccFlag: bool)
    ensures Gps(Layout(linAccFlag)) == [Lat, Lon]
    ensures Label(Layout(linAccFlag)) == [Incident]
    ensures Inertial(Layout(linAccFlag)) == if linAccFlag then [X, Y, Z, A, B, C, XL, YL, ZL] else [X, Y, Z, A, B, C]
  {
    var l := Layout(linAccFlag);
    assert l[|l| - 3..] == [Lat, Lon, Incident];
    assert l[|l| - 3..|l| - 1] == [Lat, Lon];
    assert l[|l| - 1..] == [Incident];
  }
}
