/** `reshape_bilinear(image, new_shape)`: resizing a picture by bilinear
    interpolation. Output pixel (i, j) is sampled at (i·h, j·w) of the
    input, where h and w are the ratios of input to output size; the
    sample is read from the two, or four, input pixels around that point.

    Every colour channel goes through the same arithmetic with the same
    weights, so one channel is modelled. Python's `int`, `math.floor`,
    `math.ceil` and numpy's indexing are written out; the final
    `astype(np.uint8)` is a truncation toward zero. */
module Bilinear {
  import opened Basics
  import opened Images

  /** One colour channel of a picture. */
  type Channel = Picture<real>

  /** `math.floor`. */
  function Floor(x: real): int {
    x.Floor
  }

  /** `math.ceil`: the least integer not below `x`. */
  function Ceil(x: real): (c: int)
    ensures x <= c as real < x + 1.0
    ensures c == Floor(x) || c == Floor(x) + 1
  {
    if x.Floor as real == x then x.Floor else x.Floor + 1
  }

  /** Python's `int(x)` on a float: truncation toward zero. */
  function Trunc(x: real): (t: int)
    ensures 0.0 <= x ==> t == Floor(x)
    ensures x < 0.0 ==> t == -Floor(-x)
  {
    if 0.0 <= x then x.Floor else -((-x).Floor)
  }

  function MinInt(a: int, b: int): int {
    if a <= b then a else b
  }

  /** Python's `a / b` on two sizes; `None` is the `ZeroDivisionError`. */
  function Ratio(a: nat, b: nat): (r: Option<real>)
    ensures r.Some? <==> b != 0
    ensures r.Some? ==> r.value * b as real == a as real
  {
    if b == 0 then None else Some(a as real / b as real)
  }

  /** The row and column scale factors as lines 36-37 compute them: the
      column factor `in_width / out_width` is guarded by `out_height != 0`
      and the row factor `in_height / out_height` by `out_width != 0`, so a
      zero output size raises when the other one is not zero. */
  function ScaleFactorsAsWritten(inH: nat, inW: nat, outH: nat, outW: nat): (r: Option<(real, real)>)
    ensures r.None? <==> (outH == 0) != (outW == 0)
  {
    var w := if outH != 0 then Ratio(inW, outW) else Some(0.0);
    var h := if outW != 0 then Ratio(inH, outH) else Some(0.0);
    if w.Some? && h.Some? then Some((h.value, w.value)) else None
  }

  /** The scale factors with each guard on its own divisor: the ratio of
      input to output size, or 0 for an empty output dimension. */
  function ScaleFactors(inH: nat, inW: nat, outH: nat, outW: nat): (r: (real, real))
    ensures 0.0 <= r.0 && 0.0 <= r.1
    ensures outH != 0 ==> r.0 * outH as real == inH as real
    ensures outW != 0 ==> r.1 * outW as real == inW as real
    ensures outH == 0 ==> r.0 == 0.0
    ensures outW == 0 ==> r.1 == 0.0
  {
    (if outH != 0 then Ratio(inH, outH).value else 0.0, if outW != 0 then Ratio(inW, outW).value else 0.0)
  }

  /** The sample point of one output pixel and the rows and columns around
      it (lines 42-49). */
  datatype Window = Window(x: real, y: real, xFloor: int, xCeil: int, yFloor: int, yCeil: int)

  /** The window of output pixel (i, j) for scale factors `s` on an input of
      `inH` rows and `inW` columns: the ceilings are clamped to the last
      row and column. */
  function WindowAt(inH: nat, inW: nat, s: (real, real), i: nat, j: nat): Window {
    var x := i as real * s.0;
    var y := j as real * s.1;
    Window(x, y, Floor(x), MinInt(inH - 1, Ceil(x)), Floor(y), MinInt(inW - 1, Ceil(y)))
  }

  /** `image[r, c]` with numpy's indexing; `None` is the `IndexError`. */
  function Read(img: Channel, r: int, c: int): (v: Option<real>)
    requires Rectangular(img)
    ensures 0 <= r < |img| && 0 <= c < Width(img) ==> v == Some(img[r][c])
  {
    match PyIndex(img, r)
    case None => None
    case Some(row) => PyIndex(row, c)
  }

  /** `q1 * wa + q2 * wb`, raising when either read raised. */
  function Blend(q1: Option<real>, q2: Option<real>, wa: real, wb: real): Option<real> {
    if q1.Some? && q2.Some? then Some(q1.value * wa + q2.value * wb) else None
  }

  /** The body of the inner loop (lines 51-69): the pixel itself when the
      window is a single point, a linear blend along the one open side, or
      the bilinear blend of the four corners. */
  function Interpolate(img: Channel, w: Window): Option<real>
    requires Rectangular(img)
  {
    if w.xCeil == w.xFloor && w.yCeil == w.yFloor then
      Read(img, Trunc(w.x), Trunc(w.y))
    else if w.xCeil == w.xFloor then
      Blend(Read(img, Trunc(w.x), w.yFloor), Read(img, Trunc(w.x), w.yCeil),
            w.yCeil as real - w.y, w.y - w.yFloor as real)
    else if w.yCeil == w.yFloor then
      Blend(Read(img, w.xFloor, Trunc(w.y)), Read(img, w.xCeil, Trunc(w.y)),
            w.xCeil as real - w.x, w.x - w.xFloor as real)
    else
      var q1 := Blend(Read(img, w.xFloor, w.yFloor), Read(img, w.xCeil, w.yFloor),
                      w.xCeil as real - w.x, w.x - w.xFloor as real);
      var q2 := Blend(Read(img, w.xFloor, w.yCeil), Read(img, w.xCeil, w.yCeil),
                      w.xCeil as real - w.x, w.x - w.xFloor as real);
      Blend(q1, q2, w.yCeil as real - w.y, w.y - w.yFloor as real)
  }

  /** Output pixel (i, j) before the cast. */
  function Sample(img: Channel, s: (real, real), i: nat, j: nat): Option<real>
    requires Rectangular(img)
  {
    Interpolate(img, WindowAt(|img|, Width(img), s, i, j))
  }

  /** The two loops: every output pixel, or the first exception. */
  function Resample(img: Channel, s: (real, real), outH: nat, outW: nat): (r: Option<Channel>)
    requires Rectangular(img)
    ensures r.Some? <==> forall i, j :: 0 <= i < outH && 0 <= j < outW ==> Sample(img, s, i, j).Some?
    ensures r.Some? ==> |r.value| == outH && forall i :: 0 <= i < outH ==> |r.value[i]| == outW
    ensures r.Some? ==> forall i, j :: 0 <= i < outH && 0 <= j < outW ==> Some(r.value[i][j]) == Sample(img, s, i, j)
  {
    if forall i, j :: 0 <= i < outH && 0 <= j < outW ==> Sample(img, s, i, j).Some? then
      Some(seq(outH, i requires 0 <= i < outH =>
        seq(outW, j requires 0 <= j < outW => Sample(img, s, i, j).value)))
    else None
  }

  /** `astype(np.uint8)` on every pixel: truncation toward zero. */
  function CastUint8(c: Channel): (r: Picture<int>)
    ensures |r| == |c| && forall i :: 0 <= i < |c| ==> |r[i]| == |c[i]|
    ensures forall i, j :: 0 <= i < |c| && 0 <= j < |c[i]| ==> r[i][j] == Trunc(c[i][j])
  {
    seq(|c|, i requires 0 <= i < |c| => seq(|c[i]|, j requires 0 <= j < |c[i]| => Trunc(c[i][j])))
  }

  /** `reshape_bilinear` as written. A negative size makes `np.zeros` raise.
      A zero output size beside a non-zero one raises `ZeroDivisionError`;
      on every other shape it is the corrected `ReshapeBilinear`. */
  function ReshapeBilinearAsWritten(img: Channel, outH: int, outW: int): (r: Option<Picture<int>>)
    requires Rectangular(img)
    ensures (outH == 0) != (outW == 0) ==> r.None?
    ensures (outH == 0) == (outW == 0) ==> r == ReshapeBilinear(img, outH, outW)
  {
    if outH < 0 || outW < 0 then None
    else
      assert (outH == 0) == (outW == 0) ==>
               ScaleFactorsAsWritten(|img|, Width(img), outH, outW) == Some(ScaleFactors(|img|, Width(img), outH, outW));
      match ScaleFactorsAsWritten(|img|, Width(img), outH, outW)
      case None => None
      case Some(s) =>
        match Resample(img, s, outH, outW)
        case None => None
        case Some(c) => Some(CastUint8(c))
  }

  /** `reshape_bilinear` with the scale-factor guards corrected. It fails
      only for a negative size, or for an empty input asked to produce a
      non-empty picture (every read then raises); otherwise the result
      has the requested shape. */
  function ReshapeBilinear(img: Channel, outH: int, outW: int): (r: Option<Picture<int>>)
    requires Rectangular(img)
    ensures r.Some? <==> 0 <= outH && 0 <= outW && (outH == 0 || outW == 0 || (1 <= |img| && 1 <= Width(img)))
    ensures r.Some? ==> |r.value| == outH && forall i :: 0 <= i < outH ==> |r.value[i]| == outW
  {
    if outH < 0 || outW < 0 then None
    else
      var s := ScaleFactors(|img|, Width(img), outH, outW);
      SamplesDefinedIff(img, outH, outW);
      match Resample(img, s, outH, outW)
      case None => None
      case Some(c) => Some(CastUint8(c))
  }

  // ---------------------------------------------------------------- the window

  /** `i · (n / m)` for a row `i < m` lies below `n`. */
  lemma ScaledBelow(i: nat, m: nat, n: nat, f: real)
    requires i < m && 1 <= n
    requires f * m as real == n as real
    ensures 0.0 <= i as real * f < n as real
  {
    assert 0.0 < f;
    assert i as real * f < m as real * f;
  }

  /** A real in [0, n) has its floor in 0 .. n - 1. */
  lemma FloorInRange(x: real, n: nat)
    requires 0.0 <= x < n as real
    ensures 0 <= Floor(x) <= n - 1
    ensures Floor(x) as real <= x < Floor(x) as real + 1.0
  {
  }

  /** Along an axis of `n` input pixels, the sample point `x` sits between
      `lo` and `hi`: both are pixels of the axis, at most one apart, `int`
      of `x` is `lo`, and when the two differ `x` lies between them. */
  predicate AxisFits(n: nat, x: real, lo: int, hi: int) {
    0 <= lo <= hi <= n - 1 && hi <= lo + 1 && Trunc(x) == lo &&
    lo as real <= x && (hi != lo ==> x <= hi as real)
  }

  /** Along one axis of `n >= 1` input pixels, the sample point of output
      pixel `i < m` fits between its floor and its clamped ceiling. */
  lemma AxisInside(n: nat, m: nat, i: nat, f: real)
    requires 1 <= n && i < m
    requires f * m as real == n as real
    ensures AxisFits(n, i as real * f, Floor(i as real * f), MinInt(n - 1, Ceil(i as real * f)))
  {
    ScaledBelow(i, m, n, f);
    FloorInRange(i as real * f, n);
  }

  /** For a non-empty input, every window of the output lies inside it. */
  lemma WindowInside(inH: nat, inW: nat, outH: nat, outW: nat, s: (real, real), i: nat, j: nat)
    requires 1 <= inH && 1 <= inW && i < outH && j < outW
    requires s.0 * outH as real == inH as real && s.1 * outW as real == inW as real
    ensures var w := WindowAt(inH, inW, s, i, j);
            AxisFits(inH, w.x, w.xFloor, w.xCeil) && AxisFits(inW, w.y, w.yFloor, w.yCeil)
  {
    RowsInside(inH, inW, outH, s, i, j);
    ColumnsInside(inH, inW, outW, s, i, j);
  }

  lemma RowsInside(inH: nat, inW: nat, outH: nat, s: (real, real), i: nat, j: nat)
    requires 1 <= inH && i < outH && s.0 * outH as real == inH as real
    ensures var w := WindowAt(inH, inW, s, i, j);
            AxisFits(inH, w.x, w.xFloor, w.xCeil)
  {
    AxisInside(inH, outH, i, s.0);
  }

  lemma ColumnsInside(inH: nat, inW: nat, outW: nat, s: (real, real), i: nat, j: nat)
    requires 1 <= inW && j < outW && s.1 * outW as real == inW as real
    ensures var w := WindowAt(inH, inW, s, i, j);
            AxisFits(inW, w.y, w.yFloor, w.yCeil)
  {
    AxisInside(inW, outW, j, s.1);
  }

  /** For a non-empty input every output pixel can be read. */
  lemma SampleDefined(img: Channel, outH: nat, outW: nat, i: nat, j: nat)
    requires Rectangular(img) && 1 <= |img| && 1 <= Width(img)
    requires i < outH && j < outW
    ensures Sample(img, ScaleFactors(|img|, Width(img), outH, outW), i, j).Some?
  {
    WindowInside(|img|, Width(img), outH, outW, ScaleFactors(|img|, Width(img), outH, outW), i, j);
  }

  /** For an empty input the first pixel cannot be read: with no rows the
      clamped row ceiling is -1, with rows but no columns the clamped
      column ceiling is. */
  lemma SampleOfEmptyRaises(img: Channel, s: (real, real))
    requires Rectangular(img) && (|img| == 0 || Width(img) == 0)
    ensures Sample(img, s, 0, 0).None?
  {
  }

  lemma SamplesDefinedIff(img: Channel, outH: nat, outW: nat)
    requires Rectangular(img)
    ensures (forall i, j :: 0 <= i < outH && 0 <= j < outW ==>
               Sample(img, ScaleFactors(|img|, Width(img), outH, outW), i, j).Some?) <==>
            (outH == 0 || outW == 0 || (1 <= |img| && 1 <= Width(img)))
  {
    var s := ScaleFactors(|img|, Width(img), outH, outW);
    if 1 <= |img| && 1 <= Width(img) {
      forall i, j | 0 <= i < outH && 0 <= j < outW
        ensures Sample(img, s, i, j).Some?
      {
        SampleDefined(img, outH, outW, i, j);
      }
    } else if outH != 0 && outW != 0 {
      SampleOfEmptyRaises(img, s);
    }
  }

  // ---------------------------------------------------------------- range

  /** All pixels lie in `[lo, hi]`. */
  predicate WithinRange(img: Channel, lo: real, hi: real) {
    forall i, j :: 0 <= i < |img| && 0 <= j < |img[i]| ==> lo <= img[i][j] <= hi
  }

  /** A convex combination of two values in `[lo, hi]` lies in `[lo, hi]`. */
  lemma ConvexWithin(a: real, b: real, lo: real, hi: real, t: real, u: real)
    requires lo <= a <= hi && lo <= b <= hi
    requires 0.0 <= t && 0.0 <= u && t + u == 1.0
    ensures lo <= a * t + b * u <= hi
  {
    NonNegProduct(a - lo, t);
    NonNegProduct(b - lo, u);
    NonNegProduct(hi - a, t);
    NonNegProduct(hi - b, u);
    assert a * t + b * u - lo == (a - lo) * t + (b - lo) * u;
    assert hi - (a * t + b * u) == (hi - a) * t + (hi - b) * u;
  }

  lemma NonNegProduct(x: real, y: real)
    requires 0.0 <= x && 0.0 <= y
    ensures 0.0 <= x * y
  {
  }

  /** A blend of two values in range, along a side `[f, f + 1]`. */
  lemma BlendWithin(q1: Option<real>, q2: Option<real>, lo: real, hi: real, x: real, f: int, c: int)
    requires q1.Some? && q2.Some? && lo <= q1.value <= hi && lo <= q2.value <= hi
    requires c == f + 1 && f as real <= x <= c as real
    ensures Blend(q1, q2, c as real - x, x - f as real).Some?
    ensures lo <= Blend(q1, q2, c as real - x, x - f as real).value <= hi
  {
    ConvexWithin(q1.value, q2.value, lo, hi, c as real - x, x - f as real);
  }

  /** Every output pixel before the cast lies between the smallest and the
      largest input value: bilinear interpolation never overshoots. */
  lemma SampleWithinRange(img: Channel, lo: real, hi: real, outH: nat, outW: nat, i: nat, j: nat)
    requires Rectangular(img) && 1 <= |img| && 1 <= Width(img)
    requires WithinRange(img, lo, hi)
    requires i < outH && j < outW
    ensures var v := Sample(img, ScaleFactors(|img|, Width(img), outH, outW), i, j);
            v.Some? && lo <= v.value <= hi
  {
    var s := ScaleFactors(|img|, Width(img), outH, outW);
    WindowInside(|img|, Width(img), outH, outW, s, i, j);
    WindowWithinRange(img, lo, hi, WindowAt(|img|, Width(img), s, i, j));
  }

  /** Interpolating in a window inside the picture reads only pixels of the
      picture and blends them convexly. */
  lemma WindowWithinRange(img: Channel, lo: real, hi: real, w: Window)
    requires Rectangular(img) && WithinRange(img, lo, hi)
    requires AxisFits(|img|, w.x, w.xFloor, w.xCeil) && AxisFits(Width(img), w.y, w.yFloor, w.yCeil)
    ensures Interpolate(img, w).Some? && lo <= Interpolate(img, w).value <= hi
  {
    if w.xCeil == w.xFloor && w.yCeil == w.yFloor {
    } else if w.xCeil == w.xFloor {
      BlendWithin(Read(img, w.xFloor, w.yFloor), Read(img, w.xFloor, w.yCeil), lo, hi, w.y, w.yFloor, w.yCeil);
    } else if w.yCeil == w.yFloor {
      BlendWithin(Read(img, w.xFloor, w.yFloor), Read(img, w.xCeil, w.yFloor), lo, hi, w.x, w.xFloor, w.xCeil);
    } else {
      var q1 := Blend(Read(img, w.xFloor, w.yFloor), Read(img, w.xCeil, w.yFloor),
                      w.xCeil as real - w.x, w.x - w.xFloor as real);
      var q2 := Blend(Read(img, w.xFloor, w.yCeil), Read(img, w.xCeil, w.yCeil),
                      w.xCeil as real - w.x, w.x - w.xFloor as real);
      BlendWithin(Read(img, w.xFloor, w.yFloor), Read(img, w.xCeil, w.yFloor), lo, hi, w.x, w.xFloor, w.xCeil);
      BlendWithin(Read(img, w.xFloor, w.yCeil), Read(img, w.xCeil, w.yCeil), lo, hi, w.x, w.xFloor, w.xCeil);
      BlendWithin(q1, q2, lo, hi, w.y, w.yFloor, w.yCeil);
    }
  }

  /** A picture of 8-bit values resizes to a picture of 8-bit values, so
      the final cast never wraps around. */
  lemma ResizedStaysEightBit(img: Channel, outH: int, outW: int)
    requires Rectangular(img) && WithinRange(img, 0.0, 255.0)
    requires ReshapeBilinear(img, outH, outW).Some?
    ensures forall i, j :: 0 <= i < outH && 0 <= j < outW ==> 0 <= ReshapeBilinear(img, outH, outW).value[i][j] <= 255
  {
    if 0 < outH && 0 < outW {
      var s := ScaleFactors(|img|, Width(img), outH, outW);
      var c := Resample(img, s, outH, outW).value;
      forall i, j | 0 <= i < outH && 0 <= j < outW
        ensures 0 <= Trunc(c[i][j]) <= 255
      {
        SampleWithinRange(img, 0.0, 255.0, outH, outW, i, j);
      }
    }
  }

  /** Resizing to the same shape keeps every pixel (up to the cast): the
      scale factors are 1 and every window is a single input pixel. */
  lemma SameShapeKeepsPicture(img: Channel)
    requires Rectangular(img)
    ensures ReshapeBilinear(img, |img|, Width(img)).Some?
    ensures forall i, j :: 0 <= i < |img| && 0 <= j < Width(img) ==>
              ReshapeBilinear(img, |img|, Width(img)).value[i][j] == Trunc(img[i][j])
  {
    var h, w := |img|, Width(img);
    if 0 < h && 0 < w {
      var s := ScaleFactors(h, w, h, w);
      UnitRatio(h, s.0);
      UnitRatio(w, s.1);
      forall i, j | 0 <= i < h && 0 <= j < w
        ensures Sample(img, s, i, j) == Some(img[i][j])
      {
        UnitSample(img, i, j);
      }
    }
  }

  lemma UnitRatio(n: nat, f: real)
    requires 1 <= n && f * n as real == n as real
    ensures f == 1.0
  {
  }

  /** With unit scale factors the window of (i, j) is the single pixel (i, j). */
  lemma UnitSample(img: Channel, i: nat, j: nat)
    requires Rectangular(img) && i < |img| && j < Width(img)
    ensures Sample(img, (1.0, 1.0), i, j) == Some(img[i][j])
  {
    assert WindowAt(|img|, Width(img), (1.0, 1.0), i, j) == Window(i as real, j as real, i, i, j, j);
  }

  // ---------------------------------------------------------------- the guards

  /** The crossed guards raise `ZeroDivisionError` for a non-empty height
      with a zero width (and the other way round), where the corrected
      guards give a picture of empty rows (or no rows). */
  lemma CrossedGuardsRaise(img: Channel, n: nat)
    requires Rectangular(img) && 1 <= n
    ensures ReshapeBilinearAsWritten(img, n, 0).None?
    ensures ReshapeBilinearAsWritten(img, 0, n).None?
    ensures ReshapeBilinear(img, n, 0) == Some(seq(n, i => []))
    ensures ReshapeBilinear(img, 0, n) == Some([])
  {
    var r := ReshapeBilinear(img, n, 0).value;
    var empty: seq<seq<int>> := seq(n, i => []);
    forall i | 0 <= i < n
      ensures r[i] == empty[i]
    {
      assert |r[i]| == 0;
    }
    assert r == empty;
  }

  /** When both output sizes are zero or both are non-zero the two versions
      agree. */
  lemma GuardsAgreeOtherwise(img: Channel, outH: int, outW: int)
    requires Rectangular(img)
    requires (outH == 0) == (outW == 0)
    ensures ReshapeBilinearAsWritten(img, outH, outW) == ReshapeBilinear(img, outH, outW)
  {
    if 0 <= outH && 0 <= outW {
      assert ScaleFactorsAsWritten(|img|, Width(img), outH, outW) == Some(ScaleFactors(|img|, Width(img), outH, outW));
    }
  }
}
