/**
 * scale_inner: the sensor and GPS columns go through the fitted max-abs
 * scaler, and the file is rewritten without its timestamp in a fixed column
 * order with the incident label last. The fitted scaler is a parameter: one
 * function per column, applied to present cells (a missing cell stays
 * missing).
 */
module Scaling {
  import opened Wrappers
  import opened Rides

  /** The columns of a scaled file. */
  datatype Channel = X | Y | Z | A | B | C | XL | YL | ZL | Lat | Lon | Incident

  /** The transform of a fitted scaler, column by column. */
  type Scaler = (Channel, real) -> real

  datatype ScaleError = MissingLinearColumns   // the XL/YL/ZL columns selected but absent from the file

  /** `['X','Y','Z','a','b','c', ('XL','YL','ZL',) 'lat','lon','incident']`. */
  function Layout(linAccFlag: bool): (l: seq<Channel>)
    ensures |l| == if linAccFlag then 12 else 9
    ensures l[..6] == [X, Y, Z, A, B, C]
    ensures l[|l| - 3..] == [Lat, Lon, Incident]
    ensures forall i, j :: 0 <= i < j < |l| ==> l[i] != l[j]
    ensures XL in l <==> linAccFlag
  {
    [X, Y, Z, A, B, C] + (if linAccFlag then [XL, YL, ZL] else []) + [Lat, Lon, Incident]
  }

  /** The cell of a row in a column (the timestamp is not a column of the output). */
  function Cell(r: Row, ch: Channel): Value {
    match ch
    case X => r.x  case Y => r.y  case Z => r.z
    case A => r.a  case B => r.b  case C => r.c
    case XL => r.xl  case YL => r.yl  case ZL => r.zl
    case Lat => r.lat  case Lon => r.lon
    case Incident => r.incident
  }

  /** One output cell: the label passes through, every other column is scaled. */
  function ScaledCell(r: Row, ch: Channel, scaler: Scaler): (v: Value)
    ensures v.Some? <==> Cell(r, ch).Some?
    ensures ch == Incident ==> v == r.incident
  {
    var c := Cell(r, ch);
    if ch == Incident || c.None? then c else Some(scaler(ch, c.value))
  }

  /** One output row, in the fixed column order. */
  function ScaledRow(r: Row, linAccFlag: bool, scaler: Scaler): (o: seq<Value>)
    ensures |o| == |Layout(linAccFlag)|
    ensures forall i :: 0 <= i < |o| ==> o[i] == ScaledCell(r, Layout(linAccFlag)[i], scaler)
  {
    var l := Layout(linAccFlag);
    seq(|l|, i requires 0 <= i < |l| => ScaledCell(r, l[i], scaler))
  }

  /** scale_inner: the rewritten file, or the error raised when XL/YL/ZL are selected but missing. */
  function ScaleRide(ride: Ride, linAccFlag: bool, scaler: Scaler): (o: Result<seq<seq<Value>>, ScaleError>)
    ensures o.Err? <==> linAccFlag && !ride.schema.linAcc
    ensures o.Ok? ==> |o.value| == |ride.rows|
    ensures o.Ok? ==> forall k :: 0 <= k < |o.value| ==> o.value[k] == ScaledRow(ride.rows[k], linAccFlag, scaler)
  {
    if linAccFlag && !ride.schema.linAcc then Err(MissingLinearColumns)
    else Ok(seq(|ride.rows|, k requires 0 <= k < |ride.rows| => ScaledRow(ride.rows[k], linAccFlag, scaler)))
  }

  /**
   * Column positions the later stages rely on: the accelerometer triple is
   * channels 0-2, the gyroscope triple 3-5, lat/lon the third- and
   * second-to-last channel, and the unscaled label the last one.
   */
  lemma ScaledLayout(r: Row, linAccFlag: bool, scaler: Scaler)
    ensures var (o, n) := (ScaledRow(r, linAccFlag, scaler), |Layout(linAccFlag)|);
      && o[0] == ScaledCell(r, X, scaler) && o[1] == ScaledCell(r, Y, scaler) && o[2] == ScaledCell(r, Z, scaler)
      && o[3] == ScaledCell(r, A, scaler) && o[4] == ScaledCell(r, B, scaler) && o[5] == ScaledCell(r, C, scaler)
      && o[n - 3] == ScaledCell(r, Lat, scaler) && o[n - 2] == ScaledCell(r, Lon, scaler)
      && o[n - 1] == r.incident
  {
    var l := Layout(linAccFlag);
    assert l[0] == X && l[1] == Y && l[2] == Z && l[3] == A && l[4] == B && l[5] == C by {
      assert l[..6] == [X, Y, Z, A, B, C];
    }
    assert l[|l| - 3] == Lat && l[|l| - 2] == Lon && l[|l| - 1] == Incident by {
      assert l[|l| - 3..] == [Lat, Lon, Incident];
    }
  }

  /** A row with every column of its file present scales to a row with every cell present. */
  lemma CompleteRowScalesToFullRow(r: Row, sch: Schema, linAccFlag: bool, scaler: Scaler)
    requires Complete(r, sch) && (linAccFlag ==> sch.linAcc)
    ensures forall i :: 0 <= i < |Layout(linAccFlag)| ==> ScaledRow(r, linAccFlag, scaler)[i].Some?
  {
    var l := Layout(linAccFlag);
    forall i | 0 <= i < |l| ensures Cell(r, l[i]).Some? {
      assert l[i] in [XL, YL, ZL] ==> linAccFlag;
    }
  }
}
