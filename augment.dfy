/**
 * Data augmentation of the training split by rotation: every positive bucket
 * gets three copies rotated by 180 degrees about the X, Y and Z axes, and the
 * positive count grows by three per positive bucket.
 */
module Augment {
  import opened Wrappers
  import opened BucketKeys
  import opened Buckets

  type Matrix = seq<seq<real>>

  /** The 180-degree rotation about axis 0 (X), 1 (Y) or 2 (Z); no matrix for any other axis. */
  function RotationMatrix(axis: int): (m: Option<Matrix>)
    ensures m.Some? <==> 0 <= axis < 3
    ensures m.Some? ==> |m.value| == 3 && forall k :: 0 <= k < 3 ==> |m.value[k]| == 3
  {
    if axis == 0 then Some([[1.0, 0.0, 0.0], [0.0, -1.0, 0.0], [0.0, 0.0, -1.0]])
    else if axis == 1 then Some([[-1.0, 0.0, 0.0], [0.0, 1.0, 0.0], [0.0, 0.0, -1.0]])
    else if axis == 2 then Some([[-1.0, 0.0, 0.0], [0.0, -1.0, 0.0], [0.0, 0.0, 1.0]])
    else None
  }

  /** Row vector times matrix. */
  function Times(v: seq<real>, m: Matrix): (o: seq<real>)
    requires |v| == 3 && |m| == 3 && forall k :: 0 <= k < 3 ==> |m[k]| == 3
    ensures |o| == 3
  {
    seq(3, c requires 0 <= c < 3 => v[0] * m[0][c] + v[1] * m[1][c] + v[2] * m[2][c])
  }

  /** Every cell holds at least the acceleration and gyroscope triples. */
  predicate HasInertial(bk: Bucket) {
    forall i, j :: 0 <= i < |bk| && 0 <= j < |bk[i]| ==> |bk[i][j]| >= 6
  }

  /** Acceleration (channels 0-2) and gyroscope (3-5) rotated, the remaining channels kept. */
  function RotateCell(c: seq<real>, m: Matrix): (o: seq<real>)
    requires |c| >= 6 && |m| == 3 && forall k :: 0 <= k < 3 ==> |m[k]| == 3
    ensures |o| == |c|
  {
    Times(c[..3], m) + Times(c[3..6], m) + c[6..]
  }

  function Rotate(bk: Bucket, axis: int): (r: Option<Bucket>)
    requires HasInertial(bk)
    ensures r.Some? <==> 0 <= axis < 3
    ensures r.Some? ==> |r.value| == |bk|
    ensures r.Some? ==> forall i :: 0 <= i < |bk| ==> |r.value[i]| == |bk[i]|
    ensures r.Some? ==> forall i, j :: 0 <= i < |bk| && 0 <= j < |bk[i]| ==> |r.value[i][j]| == |bk[i][j]|
    ensures r.Some? ==> HasInertial(r.value)
  {
    match RotationMatrix(axis)
    case None => None
    case Some(m) =>
      Some(seq(|bk|, i requires 0 <= i < |bk| =>
        seq(|bk[i]|, j requires 0 <= j < |bk[i]| => RotateCell(bk[i][j], m))))
  }

  /** The factor a rotation about `axis` applies to channel `c`. */
  function Sign(axis: nat, c: nat): real {
    if c < 6 && c % 3 != axis then -1.0 else 1.0
  }

  /** On one triple, the rotation about `axis` keeps component `axis` and negates the other two. */
  lemma TimesFlipsSigns(v: seq<real>, axis: nat)
    requires |v| == 3 && axis < 3
    ensures forall c :: 0 <= c < 3 ==>
      Times(v, RotationMatrix(axis).value)[c] == (if c == axis then 1.0 else -1.0) * v[c]
  {
  }

  lemma RotateCellFlipsSigns(cell: seq<real>, axis: nat)
    requires |cell| >= 6 && axis < 3
    ensures forall c :: 0 <= c < |cell| ==>
      RotateCell(cell, RotationMatrix(axis).value)[c] == Sign(axis, c) * cell[c]
  {
    var m := RotationMatrix(axis).value;
    var acc, gyro := Times(cell[..3], m), Times(cell[3..6], m);
    var o := RotateCell(cell, m);
    assert o == acc + gyro + cell[6..];
    TimesFlipsSigns(cell[..3], axis);
    TimesFlipsSigns(cell[3..6], axis);
    forall c | 0 <= c < |cell|
      ensures o[c] == Sign(axis, c) * cell[c]
    {
      if c < 3 {
        assert o[c] == acc[c];
      } else if c < 6 {
        assert o[c] == gyro[c - 3];
        assert c % 3 == c - 3;
      } else {
        assert o[c] == cell[c];
      }
    }
  }

  /**
   * A rotation about axis `a` negates, in both the acceleration and the
   * gyroscope triple, the two components other than `a`, and keeps every
   * channel from 6 on.
   */
  lemma RotationFlipsSigns(bk: Bucket, axis: nat)
    requires HasInertial(bk) && axis < 3
    ensures var r := Rotate(bk, axis).value;
      forall i, j :: 0 <= i < |bk| && 0 <= j < |bk[i]| ==>
        |r[i][j]| == |bk[i][j]| && forall c :: 0 <= c < |bk[i][j]| ==> r[i][j][c] == Sign(axis, c) * bk[i][j][c]
  {
    forall i, j | 0 <= i < |bk| && 0 <= j < |bk[i]| {
      RotateCellFlipsSigns(bk[i][j], axis);
    }
  }

  /** Two buckets of the same shape whose cells agree channel by channel are equal. */
  lemma SameCellsSameBucket(p: Bucket, q: Bucket)
    requires |p| == |q| && forall i :: 0 <= i < |p| ==> |p[i]| == |q[i]|
    requires forall i, j :: 0 <= i < |p| && 0 <= j < |p[i]| ==> |p[i][j]| == |q[i][j]|
    requires forall i, j, c :: 0 <= i < |p| && 0 <= j < |p[i]| && 0 <= c < |p[i][j]| ==> p[i][j][c] == q[i][j][c]
    ensures p == q
  {
    forall i | 0 <= i < |p|
      ensures p[i] == q[i]
    {
      forall j | 0 <= j < |p[i]|
        ensures p[i][j] == q[i][j]
      {
      }
    }
  }

  /** Rotating twice about the same axis gives the bucket back. */
  lemma RotationIsInvolution(bk: Bucket, axis: nat)
    requires HasInertial(bk) && axis < 3
    ensures Rotate(Rotate(bk, axis).value, axis).value == bk
  {
    var r := Rotate(bk, axis).value;
    RotationFlipsSigns(bk, axis);
    RotationFlipsSigns(r, axis);
    var rr := Rotate(r, axis).value;
    forall i, j, c | 0 <= i < |rr| && 0 <= j < |rr[i]| && 0 <= c < |rr[i][j]|
      ensures rr[i][j][c] == bk[i][j][c]
    {
      assert Sign(axis, c) * Sign(axis, c) == 1.0;
    }
    SameCellsSameBucket(rr, bk);
  }

  /** Rotating about two different axes is the rotation about the third. */
  lemma TwoRotationsMakeTheThird(bk: Bucket, a: nat, b: nat)
    requires HasInertial(bk) && a < 3 && b < 3 && a != b
    ensures Rotate(Rotate(bk, a).value, b).value == Rotate(bk, 3 - a - b).value
  {
    var r := Rotate(bk, a).value;
    RotationFlipsSigns(bk, a);
    RotationFlipsSigns(r, b);
    RotationFlipsSigns(bk, 3 - a - b);
    var rr, third := Rotate(r, b).value, Rotate(bk, 3 - a - b).value;
    forall i, j, c | 0 <= i < |rr| && 0 <= j < |rr[i]| && 0 <= c < |rr[i][j]|
      ensures rr[i][j][c] == third[i][j][c]
    {
      assert Sign(b, c) * Sign(a, c) == Sign(3 - a - b, c);
    }
    SameCellsSameBucket(rr, third);
  }

  /** Cells wide enough to carry a label after the six inertial channels. */
  predicate HasLabel(bk: Bucket) {
    forall i, j :: 0 <= i < |bk| && 0 <= j < |bk[i]| ==> |bk[i][j]| >= 7
  }

  /** A rotated copy keeps every label, so it is positive exactly when the original is. */
  lemma RotationKeepsLabel(bk: Bucket, axis: nat)
    requires HasInertial(bk) && HasLabel(bk) && axis < 3
    ensures HasLabel(Rotate(bk, axis).value)
    ensures forall i, j :: 0 <= i < |bk| && 0 <= j < |bk[i]| ==>
      LabelOf(Rotate(bk, axis).value[i][j]) == LabelOf(bk[i][j])
    ensures IsPositive(Rotate(bk, axis).value) == IsPositive(bk)
  {
    var r := Rotate(bk, axis).value;
    RotationFlipsSigns(bk, axis);
    forall i, j | 0 <= i < |bk| && 0 <= j < |bk[i]|
      ensures LabelOf(r[i][j]) == LabelOf(bk[i][j])
    {
      assert Sign(axis, |bk[i][j]| - 1) == 1.0;
    }
    if IsPositive(bk) {
      var i, j :| 0 <= i < |bk| && 0 <= j < |bk[i]| && LabelOf(bk[i][j]) != 0.0;
      assert LabelOf(r[i][j]) != 0.0;
    }
    if IsPositive(r) {
      var i, j :| 0 <= i < |r| && 0 <= j < |r[i]| && LabelOf(r[i][j]) != 0.0;
      assert LabelOf(bk[i][j]) != 0.0;
    }
  }

  predicate AllLabelled(data: seq<Bucket>) {
    forall k :: 0 <= k < |data| ==> HasInertial(data[k]) && HasLabel(data[k])
  }

  /** The X, Y and Z copies of a bucket, in that order. */
  function RotatedCopies(bk: Bucket): (o: seq<Bucket>)
    requires HasInertial(bk)
    ensures |o| == 3
  {
    [Rotate(bk, 0).value, Rotate(bk, 1).value, Rotate(bk, 2).value]
  }

  /** The rotated copies of every positive bucket, in bucket order. */
  function PositiveCopies(data: seq<Bucket>): (o: seq<Bucket>)
    requires AllLabelled(data)
    ensures |o| == 3 * Positives(data)
  {
    if data == [] then []
    else
      var bk := data[|data| - 1];
      PositiveCopies(data[..|data| - 1]) + if IsPositive(bk) then RotatedCopies(bk) else []
  }

  lemma {:induction false} AllPositive(bs: seq<Bucket>)
    requires forall k :: 0 <= k < |bs| ==> IsPositive(bs[k])
    ensures Positives(bs) == |bs|
  {
    if bs != [] {
      AllPositive(bs[..|bs| - 1]);
    }
  }

  /** The three copies of a positive bucket are positive. */
  lemma RotatedCopiesArePositive(bk: Bucket)
    requires HasInertial(bk) && HasLabel(bk) && IsPositive(bk)
    ensures Positives(RotatedCopies(bk)) == 3
  {
    RotationKeepsLabel(bk, 0);
    RotationKeepsLabel(bk, 1);
    RotationKeepsLabel(bk, 2);
    AllPositive(RotatedCopies(bk));
  }

  /** Every rotated copy is positive. */
  lemma {:induction false} CopiesArePositive(data: seq<Bucket>)
    requires AllLabelled(data)
    ensures Positives(PositiveCopies(data)) == |PositiveCopies(data)|
  {
    if data != [] {
      var init, bk := data[..|data| - 1], data[|data| - 1];
      CopiesArePositive(init);
      var tail := if IsPositive(bk) then RotatedCopies(bk) else [];
      if IsPositive(bk) {
        RotatedCopiesArePositive(bk);
      }
      PositivesAppend(PositiveCopies(init), tail);
    }
  }

  /** One more bucket of the archive: its copies and its count come last. */
  lemma PrefixStep(data: seq<Bucket>, k: nat)
    requires AllLabelled(data) && k < |data|
    ensures AllLabelled(data[..k]) && AllLabelled(data[..k + 1])
    ensures PositiveCopies(data[..k + 1]) ==
            PositiveCopies(data[..k]) + if IsPositive(data[k]) then RotatedCopies(data[k]) else []
    ensures Positives(data[..k + 1]) == Positives(data[..k]) + if IsPositive(data[k]) then 1 else 0
  {
    assert data[..k + 1][..k] == data[..k] && data[..k + 1][k] == data[k];
  }

  /** Appends the X, Y and Z rotations of a bucket, one after the other. */
  method AppendRotations(images: seq<Bucket>, bk: Bucket) returns (images': seq<Bucket>)
    requires HasInertial(bk)
    ensures images' == images + RotatedCopies(bk)
  {
    images' := images + [Rotate(bk, 0).value];
    images' := images' + [Rotate(bk, 1).value];
    images' := images' + [Rotate(bk, 2).value];
  }

  /** The loop invariant of the in-memory rotation, one bucket further. */
  lemma InMemoryStep(data: seq<Bucket>, k: nat, images: seq<Bucket>, pos: int, count: int)
    requires AllLabelled(data) && k < |data|
    requires images == data + PositiveCopies(data[..k]) && count == pos + 3 * Positives(data[..k])
    ensures IsPositive(data[k]) ==>
      images + RotatedCopies(data[k]) == data + PositiveCopies(data[..k + 1]) &&
      count + 3 == pos + 3 * Positives(data[..k + 1])
    ensures !IsPositive(data[k]) ==>
      images == data + PositiveCopies(data[..k + 1]) && count == pos + 3 * Positives(data[..k + 1])
  {
    PrefixStep(data, k);
  }

  /**
   * The rotation branch of the in-memory path as written: the list with the
   * rotated copies is built, but the array that is saved is the original one,
   * while the positive count still grows by three per positive bucket.
   */
  method AugmentInMemoryAsWritten(data: seq<Bucket>, pos: int, neg: int)
    returns (saved: seq<Bucket>, pos': int, neg': int)
    requires AllLabelled(data)
    ensures saved == data
    ensures pos' == pos + 3 * Positives(data) && neg' == neg
  {
    var images := data;
    pos', neg' := pos, neg;
    for k := 0 to |data|
      invariant images == data + PositiveCopies(data[..k])
      invariant pos' == pos + 3 * Positives(data[..k])
    {
      InMemoryStep(data, k, images, pos, pos');
      if IsPositive(data[k]) {
        images := AppendRotations(images, data[k]);
        pos' := pos' + 3;
      }
    }
    assert data[..|data|] == data;
    saved := data;
  }

  /** The rotation branch of the in-memory path, saving the augmented list. */
  method AugmentInMemory(data: seq<Bucket>, pos: int, neg: int)
    returns (saved: seq<Bucket>, pos': int, neg': int)
    requires AllLabelled(data)
    ensures saved == data + PositiveCopies(data)
    ensures pos' == pos + 3 * Positives(data) && neg' == neg
  {
    saved := data;
    pos', neg' := pos, neg;
    for k := 0 to |data|
      invariant saved == data + PositiveCopies(data[..k])
      invariant pos' == pos + 3 * Positives(data[..k])
    {
      InMemoryStep(data, k, saved, pos, pos');
      if IsPositive(data[k]) {
        saved := AppendRotations(saved, data[k]);
        pos' := pos' + 3;
      }
    }
    assert data[..|data|] == data;
  }

  /** Whether the class counts describe an archive. */
  predicate CountsAgree(data: seq<Bucket>, pos: int, neg: int) {
    pos == Positives(data) && pos + neg == |data|
  }

  /** Saving the augmented list keeps the class counts in agreement with the archive. */
  lemma AugmentationKeepsCountsInAgreement(data: seq<Bucket>, pos: int, neg: int)
    requires AllLabelled(data) && CountsAgree(data, pos, neg)
    ensures CountsAgree(data + PositiveCopies(data), pos + 3 * Positives(data), neg)
  {
    CopiesArePositive(data);
    PositivesAppend(data, PositiveCopies(data));
  }

  /** As written, the counts no longer describe the saved archive once there is a positive bucket. */
  lemma AsWrittenCountsDisagree(data: seq<Bucket>, pos: int, neg: int)
    requires AllLabelled(data) && CountsAgree(data, pos, neg) && Positives(data) > 0
    ensures !CountsAgree(data, pos + 3 * Positives(data), neg)
  {
  }

  /** The loaded keyed archive: every bucket can be rotated and carries a label. */
  predicate Loadable(loaded: map<string, Bucket>) {
    forall key :: key in loaded ==> HasInertial(loaded[key]) && HasLabel(loaded[key])
  }

  predicate AllIn(files: seq<string>, loaded: map<string, Bucket>) {
    forall k :: 0 <= k < |files| ==> files[k] in loaded
  }

  /** Whether the bucket stored under `key` gets rotated copies. */
  predicate Rotates(rotation: bool, loaded: map<string, Bucket>, key: string)
    requires key in loaded
  {
    rotation && IsPositive(loaded[key])
  }

  /** One key of a worker's share: the bucket is copied, then its rotated copies if it is positive. */
  function AddBucket(d: map<string, Bucket>, rotation: bool, loaded: map<string, Bucket>, key: string): map<string, Bucket>
    requires Loadable(loaded) && key in loaded
  {
    var bk := loaded[key];
    if Rotates(rotation, loaded, key) then
      d[key := bk][RotatedKey(key, 'X') := Rotate(bk, 0).value]
                  [RotatedKey(key, 'Y') := Rotate(bk, 1).value]
                  [RotatedKey(key, 'Z') := Rotate(bk, 2).value]
    else d[key := bk]
  }

  /** The dictionary a worker builds from its share of the keys. */
  function WorkerDict(files: seq<string>, rotation: bool, loaded: map<string, Bucket>): map<string, Bucket>
    requires Loadable(loaded) && AllIn(files, loaded)
  {
    if files == [] then map[]
    else AddBucket(WorkerDict(files[..|files| - 1], rotation, loaded), rotation, loaded, files[|files| - 1])
  }

  /** How many of the keys get rotated copies. */
  function RotatedCount(files: seq<string>, rotation: bool, loaded: map<string, Bucket>): (n: nat)
    requires AllIn(files, loaded)
    ensures n <= |files|
  {
    if files == [] then 0
    else
      var here := if Rotates(rotation, loaded, files[|files| - 1]) then 1 else 0;
      RotatedCount(files[..|files| - 1], rotation, loaded) + here
  }

  lemma WorkerPrefixStep(files: seq<string>, k: nat, rotation: bool, loaded: map<string, Bucket>)
    requires Loadable(loaded) && AllIn(files, loaded) && k < |files|
    ensures AllIn(files[..k], loaded) && AllIn(files[..k + 1], loaded)
    ensures WorkerDict(files[..k + 1], rotation, loaded) ==
            AddBucket(WorkerDict(files[..k], rotation, loaded), rotation, loaded, files[k])
    ensures RotatedCount(files[..k + 1], rotation, loaded) ==
            RotatedCount(files[..k], rotation, loaded) + if Rotates(rotation, loaded, files[k]) then 1 else 0
  {
    assert files[..k + 1][..k] == files[..k] && files[..k + 1][k] == files[k];
  }

  /** One worker: copies its keys and adds the rotated copies of the positive buckets. */
  method AugmentWorker(loaded: map<string, Bucket>, rotation: bool, files: seq<string>)
    returns (dict: map<string, Bucket>, pos: nat)
    requires Loadable(loaded) && AllIn(files, loaded)
    ensures dict == WorkerDict(files, rotation, loaded)
    ensures pos == 3 * RotatedCount(files, rotation, loaded)
  {
    dict, pos := map[], 0;
    for k := 0 to |files|
      invariant dict == WorkerDict(files[..k], rotation, loaded)
      invariant pos == 3 * RotatedCount(files[..k], rotation, loaded)
    {
      WorkerPrefixStep(files, k, rotation, loaded);
      var key := files[k];
      var bk := loaded[key];
      dict := dict[key := bk];
      if rotation && IsPositive(bk) {
        dict := dict[RotatedKey(key, 'X') := Rotate(bk, 0).value];
        dict := dict[RotatedKey(key, 'Y') := Rotate(bk, 1).value];
        dict := dict[RotatedKey(key, 'Z') := Rotate(bk, 2).value];
        pos := pos + 3;
      }
    }
    assert files[..|files|] == files;
  }

  /** The keys one input key yields: itself, and its three rotated keys when its bucket is rotated. */
  function Produced(rotation: bool, loaded: map<string, Bucket>, key: string): set<string>
    requires key in loaded
  {
    {key} + if Rotates(rotation, loaded, key) then {RotatedKey(key, 'X'), RotatedKey(key, 'Y'), RotatedKey(key, 'Z')} else {}
  }

  lemma AddBucketKeys(d: map<string, Bucket>, rotation: bool, loaded: map<string, Bucket>, key: string)
    requires Loadable(loaded) && key in loaded
    ensures AddBucket(d, rotation, loaded, key).Keys == d.Keys + Produced(rotation, loaded, key)
  {
  }

  /**
   * The keys a worker produces: its own keys, and the three rotated keys of
   * every key whose bucket gets rotated.
   */
  lemma {:induction false} WorkerDictKeys(files: seq<string>, rotation: bool, loaded: map<string, Bucket>)
    requires Loadable(loaded) && AllIn(files, loaded)
    ensures forall key :: key in WorkerDict(files, rotation, loaded) <==>
      exists k :: 0 <= k < |files| && key in Produced(rotation, loaded, files[k])
  {
    if files != [] {
      var n := |files| - 1;
      var init := files[..n];
      WorkerDictKeys(init, rotation, loaded);
      AddBucketKeys(WorkerDict(init, rotation, loaded), rotation, loaded, files[n]);
      forall key
        ensures key in WorkerDict(files, rotation, loaded) <==>
          exists k :: 0 <= k < |files| && key in Produced(rotation, loaded, files[k])
      {
        if exists k :: 0 <= k < |files| && key in Produced(rotation, loaded, files[k]) {
          var k :| 0 <= k < |files| && key in Produced(rotation, loaded, files[k]);
          if k < n {
            assert init[k] == files[k];
          }
        }
        if key in WorkerDict(init, rotation, loaded) {
          var k :| 0 <= k < n && key in Produced(rotation, loaded, init[k]);
          assert files[k] == init[k];
        }
      }
    }
  }

  function Flatten(shards: seq<seq<string>>): seq<string> {
    if shards == [] then [] else Flatten(shards[..|shards| - 1]) + shards[|shards| - 1]
  }

  /** Merging the workers' dictionaries in order is the same as one worker taking all the keys. */
  lemma {:induction false} WorkerDictAppend(a: seq<string>, b: seq<string>, rotation: bool, loaded: map<string, Bucket>)
    requires Loadable(loaded) && AllIn(a, loaded) && AllIn(b, loaded)
    ensures AllIn(a + b, loaded)
    ensures WorkerDict(a + b, rotation, loaded) == WorkerDict(a, rotation, loaded) + WorkerDict(b, rotation, loaded)
    ensures RotatedCount(a + b, rotation, loaded) == RotatedCount(a, rotation, loaded) + RotatedCount(b, rotation, loaded)
  {
    if b == [] {
      assert a + b == a;
    } else {
      var init, last := b[..|b| - 1], b[|b| - 1];
      assert (a + b)[..|a + b| - 1] == a + init && (a + b)[|a + b| - 1] == last;
      WorkerDictAppend(a, init, rotation, loaded);
      var m, n := WorkerDict(a, rotation, loaded), WorkerDict(init, rotation, loaded);
      var bk := loaded[last];
      UpdateOfUnion(m, n, last, bk);
      if Rotates(rotation, loaded, last) {
        UpdateOfUnion(m, n[last := bk], RotatedKey(last, 'X'), Rotate(bk, 0).value);
        UpdateOfUnion(m, n[last := bk][RotatedKey(last, 'X') := Rotate(bk, 0).value], RotatedKey(last, 'Y'), Rotate(bk, 1).value);
        UpdateOfUnion(m, n[last := bk][RotatedKey(last, 'X') := Rotate(bk, 0).value][RotatedKey(last, 'Y') := Rotate(bk, 1).value],
          RotatedKey(last, 'Z'), Rotate(bk, 2).value);
      }
    }
  }

  lemma {:induction false} FlattenAllIn(shards: seq<seq<string>>, loaded: map<string, Bucket>)
    requires forall k :: 0 <= k < |shards| ==> AllIn(shards[k], loaded)
    ensures AllIn(Flatten(shards), loaded)
  {
    if shards != [] {
      FlattenAllIn(shards[..|shards| - 1], loaded);
    }
  }

  /**
   * The keyed path of the rotation augmentation: the workers' dictionaries
   * are merged in order and their positive counts added to the ledger; the
   * negative count is kept.
   */
  method AugmentKeyed(loaded: map<string, Bucket>, rotation: bool, shards: seq<seq<string>>, pos: int, neg: int)
    returns (dict: map<string, Bucket>, pos': int, neg': int)
    requires Loadable(loaded) && forall k :: 0 <= k < |shards| ==> AllIn(shards[k], loaded)
    ensures AllIn(Flatten(shards), loaded)
    ensures dict == WorkerDict(Flatten(shards), rotation, loaded)
    ensures pos' == pos + 3 * RotatedCount(Flatten(shards), rotation, loaded) && neg' == neg
  {
    FlattenAllIn(shards, loaded);
    dict, pos', neg' := map[], pos, neg;
    for k := 0 to |shards|
      invariant AllIn(Flatten(shards[..k]), loaded)
      invariant dict == WorkerDict(Flatten(shards[..k]), rotation, loaded)
      invariant pos' == pos + 3 * RotatedCount(Flatten(shards[..k]), rotation, loaded)
    {
      assert shards[..k + 1][..k] == shards[..k] && shards[..k + 1][k] == shards[k];
      var local, localPos := AugmentWorker(loaded, rotation, shards[k]);
      WorkerDictAppend(Flatten(shards[..k]), shards[k], rotation, loaded);
      dict := dict + local;
      pos' := pos' + localPos;
    }
    assert shards[..|shards|] == shards;
  }
}
