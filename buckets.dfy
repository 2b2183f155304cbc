/**
 * Cutting the scaled ride files of one split into fixed-size buckets
 * (windows x slices x channels), labelling each bucket, and keeping the
 * positive / negative class counts.
 */
module Buckets {
  import opened Wrappers
  import opened BucketKeys

  /** A ride file as read back: one row per measurement, one column per channel, label last. */
  type Table = seq<seq<real>>

  /** A bucket: `bk[i][j]` is the channel vector at window position `i` and slice `j`. */
  type Bucket = seq<seq<seq<real>>>

  datatype RideFile = RideFile(stem: string, table: Table)

  datatype BucketError =
    | MalformedFile        // rows of different lengths: the reader refuses the file
    | NotEnoughDataPoints  // fewer than two rows or columns: the table is not two-dimensional
    | BadFile              // window size times slices is zero

  /** Rows dropped at each end of a ride. */
  const Margin: nat := 60

  predicate Rectangular(t: Table) {
    forall k :: 0 <= k < |t| ==> |t[k]| == |t[0]|
  }

  /** Why a file cannot be cut into buckets, if it cannot. */
  function FileError(t: Table, w: nat, s: nat): (e: Option<BucketError>)
    ensures e.None? <==> Rectangular(t) && |t| >= 2 && |t[0]| >= 2 && w * s > 0
  {
    if !Rectangular(t) then Some(MalformedFile)
    else if |t| < 2 || |t[0]| < 2 then Some(NotEnoughDataPoints)
    else if w * s == 0 then Some(BadFile)
    else None
  }

  predicate Readable(t: Table, w: nat, s: nat) {
    FileError(t, w, s).None?
  }

  /** The ride without its first and last `Margin` rows (empty when it is too short). */
  function Trimmed(t: Table): (o: Table)
    ensures |o| == if |t| > 2 * Margin then |t| - 2 * Margin else 0
    ensures forall k :: 0 <= k < |o| ==> o[k] == t[k + Margin]
  {
    if |t| > 2 * Margin then t[Margin..|t| - Margin] else []
  }

  /** Number of whole buckets; the rows after the last whole bucket are dropped. */
  function BucketCount(t: Table, w: nat, s: nat): nat
    requires w * s > 0
  {
    |Trimmed(t)| / (w * s)
  }

  /** Position in the trimmed ride of cell `(i, j)` of bucket `b`: slices are laid out one after another. */
  function Offset(w: nat, s: nat, b: nat, i: nat, j: nat): nat {
    b * (w * s) + j * w + i
  }

  lemma {:induction false} OffsetInRange(n: nat, w: nat, s: nat, b: nat, i: nat, j: nat)
    requires w * s > 0 && b < n / (w * s) && i < w && j < s
    ensures Offset(w, s, b, i, j) < (b + 1) * (w * s) <= n
  {
    var q := w * s;
    var k := n / q;
    ScaleLe(j, s - 1, w);
    assert (s - 1) * w == q - w;
    assert (b + 1) * q == b * q + q;
    ScaleLe(b + 1, k, q);
    assert n == k * q + n % q;
  }

  /** Multiplying by the same factor keeps the order. */
  lemma {:induction false} ScaleLe(a: nat, b: nat, c: nat)
    requires a <= b
    ensures a * c <= b * c
    decreases b - a
  {
    if a < b {
      ScaleLe(a, b - 1, c);
      assert b * c == (b - 1) * c + c;
    }
  }

  /** Channel vector of cell `(i, j)` of bucket `b`, before labelling. */
  function Raw(t: Table, w: nat, s: nat, b: nat, i: nat, j: nat): (c: seq<real>)
    requires Readable(t, w, s) && b < BucketCount(t, w, s) && i < w && j < s
    ensures |c| == |t[0]|
  {
    OffsetInRange(|Trimmed(t)|, w, s, b, i, j);
    Trimmed(t)[Offset(w, s, b, i, j)]
  }

  function RawBucket(t: Table, w: nat, s: nat, b: nat): (bk: Bucket)
    requires Readable(t, w, s) && b < BucketCount(t, w, s)
    ensures |bk| == w && forall i :: 0 <= i < w ==> |bk[i]| == s
  {
    seq(w, i requires 0 <= i < w => seq(s, j requires 0 <= j < s => Raw(t, w, s, b, i, j)))
  }

  /** The label channel of a cell (the last one). */
  function LabelOf(c: seq<real>): real {
    if |c| == 0 then 0.0 else c[|c| - 1]
  }

  /** A bucket is positive when any of its cells carries a nonzero label. */
  predicate IsPositive(bk: Bucket) {
    exists i, j :: 0 <= i < |bk| && 0 <= j < |bk[i]| && LabelOf(bk[i][j]) != 0.0
  }

  function Flag(b: bool): real {
    if b then 1.0 else 0.0
  }

  function SetLabel(c: seq<real>, positive: bool): (o: seq<real>)
    ensures |o| == |c|
    ensures |c| > 0 ==> o[..|c| - 1] == c[..|c| - 1] && LabelOf(o) == Flag(positive)
  {
    if |c| == 0 then c else c[..|c| - 1] + [Flag(positive)]
  }

  /** Every cell of the bucket gets the bucket's label. */
  function Stamp(bk: Bucket, positive: bool): (o: Bucket)
    ensures |o| == |bk| && forall i :: 0 <= i < |o| ==> |o[i]| == |bk[i]|
  {
    seq(|bk|, i requires 0 <= i < |bk| =>
      seq(|bk[i]|, j requires 0 <= j < |bk[i]| => SetLabel(bk[i][j], positive)))
  }

  predicate NoEmptyCell(bk: Bucket) {
    forall i, j :: 0 <= i < |bk| && 0 <= j < |bk[i]| ==> |bk[i][j]| > 0
  }

  /** After stamping, the bucket is positive exactly when its label says so. */
  lemma StampedBucketCarriesLabel(bk: Bucket, positive: bool)
    requires |bk| > 0 && |bk[0]| > 0 && NoEmptyCell(bk)
    ensures IsPositive(Stamp(bk, positive)) == positive
    ensures forall i, j :: 0 <= i < |bk| && 0 <= j < |bk[i]| ==>
      LabelOf(Stamp(bk, positive)[i][j]) == Flag(positive)
  {
    var o := Stamp(bk, positive);
    assert LabelOf(o[0][0]) == Flag(positive);
  }

  /** The finished buckets of one file. */
  function FileBuckets(t: Table, w: nat, s: nat): (bs: seq<Bucket>)
    requires Readable(t, w, s)
    ensures |bs| == BucketCount(t, w, s)
  {
    seq(BucketCount(t, w, s), b requires 0 <= b < BucketCount(t, w, s) =>
      Stamp(RawBucket(t, w, s, b), IsPositive(RawBucket(t, w, s, b))))
  }

  /** The labels of one file's buckets, computed before stamping. */
  function FileLabels(t: Table, w: nat, s: nat): (ls: seq<bool>)
    requires Readable(t, w, s)
    ensures |ls| == BucketCount(t, w, s)
  {
    seq(BucketCount(t, w, s), b requires 0 <= b < BucketCount(t, w, s) =>
      IsPositive(RawBucket(t, w, s, b)))
  }

  /**
   * Cell `(i, j)` of bucket `b` holds trimmed row `b*w*s + j*w + i`, with the
   * bucket's label in place of the row's own.
   */
  lemma BucketCellIsRideRow(t: Table, w: nat, s: nat, b: nat, i: nat, j: nat)
    requires Readable(t, w, s) && b < BucketCount(t, w, s) && i < w && j < s
    ensures Offset(w, s, b, i, j) + 2 * Margin < |t|
    ensures var c := FileBuckets(t, w, s)[b][i][j];
      var row := t[Margin + Offset(w, s, b, i, j)];
      |c| == |row| && c[..|c| - 1] == row[..|row| - 1]
      && LabelOf(c) == Flag(FileLabels(t, w, s)[b])
  {
    OffsetInRange(|Trimmed(t)|, w, s, b, i, j);
    var raw := RawBucket(t, w, s, b);
    StampedBucketCarriesLabel(raw, IsPositive(raw));
  }

  /** A bucket is labelled positive exactly when some row that went into it had a nonzero label. */
  lemma BucketLabelIsAnyRowLabel(t: Table, w: nat, s: nat, b: nat)
    requires Readable(t, w, s) && b < BucketCount(t, w, s)
    ensures FileLabels(t, w, s)[b] <==>
      exists i, j :: 0 <= i < w && 0 <= j < s && LabelOf(Raw(t, w, s, b, i, j)) != 0.0
  {
    var raw := RawBucket(t, w, s, b);
    assert FileLabels(t, w, s)[b] == IsPositive(raw);
    if IsPositive(raw) {
      var i, j :| 0 <= i < |raw| && 0 <= j < |raw[i]| && LabelOf(raw[i][j]) != 0.0;
      assert raw[i][j] == Raw(t, w, s, b, i, j);
    }
    if exists i, j :: 0 <= i < w && 0 <= j < s && LabelOf(Raw(t, w, s, b, i, j)) != 0.0 {
      var i, j :| 0 <= i < w && 0 <= j < s && LabelOf(Raw(t, w, s, b, i, j)) != 0.0;
      assert raw[i][j] == Raw(t, w, s, b, i, j);
    }
  }

  /** Every trimmed row before the dropped tail lands in exactly the cell its position says. */
  lemma RowLandsInBucket(t: Table, w: nat, s: nat, k: nat)
    requires Readable(t, w, s) && k < BucketCount(t, w, s) * (w * s)
    ensures var b, r := k / (w * s), k % (w * s);
      b < BucketCount(t, w, s) && r / w < s && r % w < w
      && Offset(w, s, b, r % w, r / w) == k
    ensures forall b': nat, i': nat, j': nat :: i' < w && j' < s && Offset(w, s, b', i', j') == k ==>
      b' == k / (w * s) && i' == (k % (w * s)) % w && j' == (k % (w * s)) / w
  {
    var n, d := BucketCount(t, w, s), w * s;
    var b, r := k / d, k % d;
    assert k == b * d + r && 0 <= r < d;
    if b >= n {
      assert b * d >= n * d by { MulMonotone(n, b, d); }
      assert false;
    }
    assert r == (r / w) * w + r % w;
    if r / w >= s {
      assert (r / w) * w >= s * w by { MulMonotone(s, r / w, w); }
      assert false;
    }
    OnlyCellOf(w, s, k);
  }

  /** At most one cell of a bucket layout sits at position `k`. */
  lemma OnlyCellOf(w: nat, s: nat, k: nat)
    requires w * s > 0
    ensures forall b: nat, i: nat, j: nat :: i < w && j < s && Offset(w, s, b, i, j) == k ==>
      b == k / (w * s) && i == (k % (w * s)) % w && j == (k % (w * s)) / w
  {
    forall b: nat, i: nat, j: nat | i < w && j < s && Offset(w, s, b, i, j) == k
      ensures b == k / (w * s) && i == (k % (w * s)) % w && j == (k % (w * s)) / w
    {
      CellOfOffset(w, s, b, i, j);
    }
  }

  /** The cell of a position is recovered from it: bucket, column and slice are quotients and remainders. */
  lemma CellOfOffset(w: nat, s: nat, b: nat, i: nat, j: nat)
    requires w * s > 0 && i < w && j < s
    ensures var r := j * w + i;
      && Offset(w, s, b, i, j) / (w * s) == b && Offset(w, s, b, i, j) % (w * s) == r
      && r % w == i && r / w == j
  {
    assert j * w + i < w * s by {
      MulMonotone(j + 1, s, w);
      assert (j + 1) * w == j * w + w;
    }
    DivModOfSum(b, w * s, j * w + i);
    DivModOfSum(j, w, i);
  }

  /** Quotient and remainder are unique: q·d + r with r < d has quotient q and remainder r. */
  lemma DivModOfSum(q: nat, d: nat, r: nat)
    requires r < d
    ensures (q * d + r) / d == q && (q * d + r) % d == r
  {
    var k := q * d + r;
    var q', r' := k / d, k % d;
    assert k == q' * d + r' && r' < d;
    if q' < q {
      MulMonotone(q' + 1, q, d);
      assert false;
    } else if q < q' {
      MulMonotone(q + 1, q', d);
      assert false;
    }
  }

  lemma {:induction false} MulMonotone(a: nat, b: nat, c: nat)
    requires a <= b
    ensures a * c <= b * c
  {
    if a < b {
      MulMonotone(a, b - 1, c);
      assert b * c == (b - 1) * c + c;
    }
  }

  function CountTrue(ls: seq<bool>): (n: nat)
    ensures n <= |ls|
  {
    if ls == [] then 0 else CountTrue(ls[..|ls| - 1]) + (if ls[|ls| - 1] then 1 else 0)
  }

  /** Number of positive buckets. */
  function Positives(bs: seq<Bucket>): (n: nat)
    ensures n <= |bs|
  {
    if bs == [] then 0 else Positives(bs[..|bs| - 1]) + (if IsPositive(bs[|bs| - 1]) then 1 else 0)
  }

  lemma {:induction false} PositivesAppend(a: seq<Bucket>, b: seq<Bucket>)
    ensures Positives(a + b) == Positives(a) + Positives(b)
  {
    if b != [] {
      assert (a + b)[..|a + b| - 1] == a + b[..|b| - 1];
      PositivesAppend(a, b[..|b| - 1]);
    } else {
      assert a + b == a;
    }
  }

  lemma {:induction false} CountTrueCountsPositives(ls: seq<bool>, bs: seq<Bucket>)
    requires |ls| == |bs| && forall k :: 0 <= k < |ls| ==> ls[k] == IsPositive(bs[k])
    ensures CountTrue(ls) == Positives(bs)
  {
    if ls != [] {
      CountTrueCountsPositives(ls[..|ls| - 1], bs[..|bs| - 1]);
    }
  }

  /** The labels counted for a file are the labels its buckets end up with. */
  lemma FileLabelsCountPositives(t: Table, w: nat, s: nat)
    requires Readable(t, w, s)
    ensures CountTrue(FileLabels(t, w, s)) == Positives(FileBuckets(t, w, s))
  {
    var ls, bs := FileLabels(t, w, s), FileBuckets(t, w, s);
    forall b | 0 <= b < |ls|
      ensures ls[b] == IsPositive(bs[b])
    {
      var raw := RawBucket(t, w, s, b);
      StampedBucketCarriesLabel(raw, IsPositive(raw));
    }
    CountTrueCountsPositives(ls, bs);
  }

  /** The archive key of bucket `b` of a file. */
  function KeyOf(f: RideFile, w: nat, s: nat, b: nat): string
    requires Readable(f.table, w, s) && b < BucketCount(f.table, w, s)
  {
    BucketKey(f.stem, b, FileLabels(f.table, w, s)[b])
  }

  /** The keyed archive after the first `n` buckets of a file were added. */
  function FileKeyed(f: RideFile, w: nat, s: nat, n: nat): map<string, Bucket>
    requires Readable(f.table, w, s) && n <= BucketCount(f.table, w, s)
  {
    if n == 0 then map[]
    else FileKeyed(f, w, s, n - 1)[KeyOf(f, w, s, n - 1) := FileBuckets(f.table, w, s)[n - 1]]
  }

  /** The archive keys of a file's buckets, in bucket order. */
  ghost function FileKeys(f: RideFile, w: nat, s: nat): (ks: seq<string>)
    requires Readable(f.table, w, s)
    ensures |ks| == BucketCount(f.table, w, s)
    ensures forall b :: 0 <= b < |ks| ==> ks[b] == KeyOf(f, w, s, b)
  {
    seq(BucketCount(f.table, w, s), b requires 0 <= b < BucketCount(f.table, w, s) => KeyOf(f, w, s, b))
  }

  /** The first `n` keys of `ks`, as a set. */
  ghost function PrefixSet(ks: seq<string>, n: nat): set<string>
    requires n <= |ks|
  {
    if n == 0 then {} else PrefixSet(ks, n - 1) + {ks[n - 1]}
  }

  lemma {:induction false} PrefixSetMembers(ks: seq<string>, n: nat)
    requires n <= |ks|
    ensures forall key :: key in PrefixSet(ks, n) <==> key in ks[..n]
  {
    if n > 0 {
      PrefixSetMembers(ks, n - 1);
      assert ks[..n] == ks[..n - 1] + [ks[n - 1]];
    }
  }

  lemma FileKeyedStep(f: RideFile, w: nat, s: nat, n: nat)
    requires Readable(f.table, w, s) && 0 < n <= BucketCount(f.table, w, s)
    ensures FileKeyed(f, w, s, n).Keys == FileKeyed(f, w, s, n - 1).Keys + {KeyOf(f, w, s, n - 1)}
  {
  }

  lemma {:induction false} FileKeyedKeysArePrefix(f: RideFile, w: nat, s: nat, n: nat)
    requires Readable(f.table, w, s) && n <= BucketCount(f.table, w, s)
    ensures FileKeyed(f, w, s, n).Keys == PrefixSet(FileKeys(f, w, s), n)
  {
    if n > 0 {
      FileKeyedKeysArePrefix(f, w, s, n - 1);
      FileKeyedStep(f, w, s, n);
      var ks := FileKeys(f, w, s);
      assert ks[n - 1] == KeyOf(f, w, s, n - 1);
      assert PrefixSet(ks, n) == PrefixSet(ks, n - 1) + {ks[n - 1]};
    }
  }

  /** The keys of a file's archive are exactly the keys of its first `n` buckets. */
  lemma FileKeyedKeys(f: RideFile, w: nat, s: nat, n: nat)
    requires Readable(f.table, w, s) && n <= BucketCount(f.table, w, s)
    ensures forall key :: key in FileKeyed(f, w, s, n) <==> key in FileKeys(f, w, s)[..n]
  {
    FileKeyedKeysArePrefix(f, w, s, n);
    PrefixSetMembers(FileKeys(f, w, s), n);
  }

  /** Each bucket of a file is stored under its own key. */
  lemma {:induction false} FileKeyedHoldsEveryBucket(f: RideFile, w: nat, s: nat, n: nat)
    requires Readable(f.table, w, s) && n <= BucketCount(f.table, w, s)
    ensures forall b :: 0 <= b < n ==> KeyOf(f, w, s, b) in FileKeyed(f, w, s, n)
    ensures forall b :: 0 <= b < n ==>
      FileKeyed(f, w, s, n)[KeyOf(f, w, s, b)] == FileBuckets(f.table, w, s)[b]
  {
    if n > 0 {
      FileKeyedHoldsEveryBucket(f, w, s, n - 1);
      KeysOfEarlierBucketsDiffer(f, w, s, n - 1);
      var m, last := FileKeyed(f, w, s, n - 1), KeyOf(f, w, s, n - 1);
      var bs := FileBuckets(f.table, w, s);
      assert FileKeyed(f, w, s, n) == m[last := bs[n - 1]];
      forall b | 0 <= b < n
        ensures KeyOf(f, w, s, b) in FileKeyed(f, w, s, n)
        ensures FileKeyed(f, w, s, n)[KeyOf(f, w, s, b)] == bs[b]
      {
        assert b < n - 1 ==> KeyOf(f, w, s, b) != last;
      }
    }
  }

  lemma KeysOfEarlierBucketsDiffer(f: RideFile, w: nat, s: nat, n: nat)
    requires Readable(f.table, w, s) && n < BucketCount(f.table, w, s)
    ensures forall b :: 0 <= b < n ==> KeyOf(f, w, s, b) != KeyOf(f, w, s, n)
  {
    var ls := FileLabels(f.table, w, s);
    forall b | 0 <= b < n
      ensures KeyOf(f, w, s, b) != KeyOf(f, w, s, n)
    {
      if KeyOf(f, w, s, b) == KeyOf(f, w, s, n) {
        BucketKeyIsInjective(f.stem, b, n, ls[b], ls[n]);
      }
    }
  }

  /** The key of bucket `n` is not yet stored when the first `n` buckets are. */
  lemma NextKeyIsFresh(f: RideFile, w: nat, s: nat, n: nat)
    requires Readable(f.table, w, s) && n < BucketCount(f.table, w, s)
    ensures KeyOf(f, w, s, n) !in FileKeyed(f, w, s, n)
  {
    FileKeyedKeys(f, w, s, n);
    KeysOfEarlierBucketsDiffer(f, w, s, n);
  }

  lemma FreshKeyGrowsMap(m: map<string, Bucket>, key: string, v: Bucket)
    requires key !in m
    ensures |m[key := v]| == |m| + 1
  {
    assert m[key := v].Keys == m.Keys + {key};
  }

  /** No two buckets of a file share a key: the archive holds as many entries as buckets. */
  lemma {:induction false} FileKeyedSize(f: RideFile, w: nat, s: nat, n: nat)
    requires Readable(f.table, w, s) && n <= BucketCount(f.table, w, s)
    ensures |FileKeyed(f, w, s, n)| == n
  {
    if n > 0 {
      FileKeyedSize(f, w, s, n - 1);
      NextKeyIsFresh(f, w, s, n - 1);
      FreshKeyGrowsMap(FileKeyed(f, w, s, n - 1), KeyOf(f, w, s, n - 1), FileBuckets(f.table, w, s)[n - 1]);
    }
  }

  /** Why the first unreadable file of a split cannot be cut, if any is. */
  function FirstError(files: seq<RideFile>, w: nat, s: nat): Option<BucketError> {
    if files == [] then None
    else
      var e := FirstError(files[..|files| - 1], w, s);
      if e.Some? then e else FileError(files[|files| - 1].table, w, s)
  }

  predicate AllReadable(files: seq<RideFile>, w: nat, s: nat) {
    forall k :: 0 <= k < |files| ==> Readable(files[k].table, w, s)
  }

  /** The first error is reported exactly when some file is unreadable, and it is that of the first such file. */
  lemma {:induction false} FirstErrorIsFirstUnreadable(files: seq<RideFile>, w: nat, s: nat)
    ensures FirstError(files, w, s).None? <==> AllReadable(files, w, s)
    ensures FirstError(files, w, s).Some? ==>
      exists k :: 0 <= k < |files| && AllReadable(files[..k], w, s)
        && FirstError(files, w, s) == FileError(files[k].table, w, s)
  {
    if files != [] {
      var init := files[..|files| - 1];
      FirstErrorIsFirstUnreadable(init, w, s);
      if FirstError(init, w, s).Some? {
        var k :| 0 <= k < |init| && AllReadable(init[..k], w, s)
          && FirstError(init, w, s) == FileError(init[k].table, w, s);
        assert init[..k] == files[..k];
      } else {
        assert files[..|files| - 1] == init;
      }
    }
  }

  lemma {:induction false} FirstErrorOfExtension(files: seq<RideFile>, f: nat, w: nat, s: nat)
    requires f < |files| && FirstError(files[..f + 1], w, s).Some?
    ensures FirstError(files, w, s) == FirstError(files[..f + 1], w, s)
  {
    if |files| > f + 1 {
      var init := files[..|files| - 1];
      assert init[..f + 1] == files[..f + 1];
      FirstErrorOfExtension(init, f, w, s);
    } else {
      assert files[..f + 1] == files;
    }
  }

  /** All buckets of a split, file after file, as the in-memory archive holds them. */
  function AllBuckets(files: seq<RideFile>, w: nat, s: nat): seq<Bucket>
    requires AllReadable(files, w, s)
  {
    if files == [] then []
    else AllBuckets(files[..|files| - 1], w, s) + FileBuckets(files[|files| - 1].table, w, s)
  }

  /** The keyed archive of a split; a later file overwrites an equal key of an earlier one. */
  function AllKeyed(files: seq<RideFile>, w: nat, s: nat): map<string, Bucket>
    requires AllReadable(files, w, s)
  {
    if files == [] then map[]
    else
      var f := files[|files| - 1];
      AllKeyed(files[..|files| - 1], w, s) + FileKeyed(f, w, s, BucketCount(f.table, w, s))
  }

  datatype Archive = Stacked(list: seq<Bucket>) | Keyed(dict: map<string, Bucket>)

  /** What one split produces: its archive and its positive and negative bucket counts. */
  datatype SplitBuckets = SplitBuckets(archive: Archive, pos: nat, neg: nat)

  lemma AllOfNextPrefix(files: seq<RideFile>, f: nat, w: nat, s: nat)
    requires f < |files| && AllReadable(files[..f], w, s) && Readable(files[f].table, w, s)
    ensures AllReadable(files[..f + 1], w, s)
    ensures AllBuckets(files[..f + 1], w, s) == AllBuckets(files[..f], w, s) + FileBuckets(files[f].table, w, s)
    ensures AllKeyed(files[..f + 1], w, s) ==
            AllKeyed(files[..f], w, s) + FileKeyed(files[f], w, s, BucketCount(files[f].table, w, s))
  {
    assert files[..f + 1][..f] == files[..f] && files[..f + 1][f] == files[f];
  }

  /** Appends one file's buckets to the in-memory list. */
  method AppendBuckets(list: seq<Bucket>, buckets: seq<Bucket>) returns (list': seq<Bucket>)
    ensures list' == list + buckets
  {
    list' := list;
    for b := 0 to |buckets|
      invariant list' == list + buckets[..b]
    {
      list' := list' + [buckets[b]];
    }
    assert buckets[..|buckets|] == buckets;
  }

  /** Stores one file's buckets under their keys. */
  method StoreBuckets(dict: map<string, Bucket>, file: RideFile, w: nat, s: nat) returns (dict': map<string, Bucket>)
    requires Readable(file.table, w, s)
    ensures dict' == dict + FileKeyed(file, w, s, BucketCount(file.table, w, s))
  {
    var labels := FileLabels(file.table, w, s);
    var buckets := FileBuckets(file.table, w, s);
    dict' := dict;
    for b := 0 to |buckets|
      invariant dict' == dict + FileKeyed(file, w, s, b)
    {
      assert FileKeyed(file, w, s, b + 1) == FileKeyed(file, w, s, b)[KeyOf(file, w, s, b) := buckets[b]];
      UpdateOfUnion(dict, FileKeyed(file, w, s, b), KeyOf(file, w, s, b), buckets[b]);
      dict' := dict'[BucketKey(file.stem, b, labels[b]) := buckets[b]];
    }
  }

  lemma UpdateOfUnion<K, V>(m: map<K, V>, n: map<K, V>, k: K, v: V)
    ensures (m + n)[k := v] == m + n[k := v]
  {
  }

  /** The first unreadable file, after readable ones, decides the error of the split. */
  lemma ErrorAtFile(files: seq<RideFile>, f: nat, w: nat, s: nat)
    requires f < |files| && AllReadable(files[..f], w, s) && FileError(files[f].table, w, s).Some?
    ensures FirstError(files, w, s) == FileError(files[f].table, w, s)
  {
    assert files[..f + 1][..f] == files[..f] && files[..f + 1][f] == files[f];
    FirstErrorIsFirstUnreadable(files[..f], w, s);
    FirstErrorOfExtension(files, f, w, s);
  }

  /** The class counts after one more readable file. */
  lemma CountsOfNextFile(files: seq<RideFile>, f: nat, w: nat, s: nat, pos: int, neg: int)
    requires f < |files| && AllReadable(files[..f], w, s) && Readable(files[f].table, w, s)
    requires pos == Positives(AllBuckets(files[..f], w, s)) && pos + neg == |AllBuckets(files[..f], w, s)|
    ensures AllReadable(files[..f + 1], w, s)
    ensures var ls := FileLabels(files[f].table, w, s);
      && pos + CountTrue(ls) == Positives(AllBuckets(files[..f + 1], w, s))
      && pos + CountTrue(ls) + (neg + (|ls| - CountTrue(ls))) == |AllBuckets(files[..f + 1], w, s)|
  {
    FileLabelsCountPositives(files[f].table, w, s);
    PositivesAppend(AllBuckets(files[..f], w, s), FileBuckets(files[f].table, w, s));
    AllOfNextPrefix(files, f, w, s);
  }

  /** Cuts every file of one split into buckets, stopping at the first file that cannot be cut. */
  method CreateBuckets(files: seq<RideFile>, w: nat, s: nat, inMemory: bool)
    returns (res: Result<SplitBuckets, BucketError>)
    ensures res.Err? <==> FirstError(files, w, s).Some?
    ensures res.Err? ==> res.error == FirstError(files, w, s).value
    ensures res.Ok? ==> AllReadable(files, w, s)
    ensures res.Ok? ==> res.value.pos == Positives(AllBuckets(files, w, s))
    ensures res.Ok? ==> res.value.pos + res.value.neg == |AllBuckets(files, w, s)|
    ensures res.Ok? ==> res.value.archive ==
                        if inMemory then Stacked(AllBuckets(files, w, s)) else Keyed(AllKeyed(files, w, s))
  {
    var list: seq<Bucket> := [];
    var dict: map<string, Bucket> := map[];
    var pos, neg := 0, 0;
    for f := 0 to |files|
      invariant AllReadable(files[..f], w, s)
      invariant pos == Positives(AllBuckets(files[..f], w, s))
      invariant pos + neg == |AllBuckets(files[..f], w, s)|
      invariant list == if inMemory then AllBuckets(files[..f], w, s) else []
      invariant dict == if inMemory then map[] else AllKeyed(files[..f], w, s)
    {
      var file := files[f];
      var e := FileError(file.table, w, s);
      if e.Some? {
        ErrorAtFile(files, f, w, s);
        return Err(e.value);
      }
      var labels := FileLabels(file.table, w, s);
      CountsOfNextFile(files, f, w, s, pos, neg);
      AllOfNextPrefix(files, f, w, s);
      pos := pos + CountTrue(labels);
      neg := neg + (|labels| - CountTrue(labels));
      if inMemory {
        list := AppendBuckets(list, FileBuckets(file.table, w, s));
      } else {
        dict := StoreBuckets(dict, file, w, s);
      }
    }
    assert files[..|files|] == files;
    FirstErrorIsFirstUnreadable(files, w, s);
    res := Ok(SplitBuckets(if inMemory then Stacked(list) else Keyed(dict), pos, neg));
  }
}
