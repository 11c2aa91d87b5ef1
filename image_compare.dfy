/**
 * Cover-versus-stego image comparison: cropping two grayscale grids to their
 * common top-left region, and the zero-error branch of the peak
 * signal-to-noise ratio. The logarithmic formula and SSIM are not modelled.
 */
module ImageCompare {
  import opened Bits

  /** A grayscale image: its shape and its rows of samples. */
  datatype Grid = Grid(height: nat, width: nat, rows: seq<seq<int>>)

  predicate WellShaped(g: Grid)
  {
    |g.rows| == g.height && forall i :: 0 <= i < g.height ==> |g.rows[i]| == g.width
  }

  /** `g[:h, :w]`. */
  function Crop(g: Grid, h: nat, w: nat): (r: Grid)
    requires WellShaped(g) && h <= g.height && w <= g.width
    ensures WellShaped(r) && r.height == h && r.width == w
    ensures forall i, j :: 0 <= i < h && 0 <= j < w ==> r.rows[i][j] == g.rows[i][j]
  {
    Grid(h, w, seq(h, i requires 0 <= i < h => g.rows[i][..w]))
  }

  /** `crop_to_match`: both images cut to the top-left region they share. */
  function CropToMatch(a: Grid, b: Grid): (r: (Grid, Grid))
    requires WellShaped(a) && WellShaped(b)
    ensures WellShaped(r.0) && WellShaped(r.1)
    ensures r.0.height == r.1.height == Min(a.height, b.height)
    ensures r.0.width == r.1.width == Min(a.width, b.width)
    ensures forall i, j :: 0 <= i < r.0.height && 0 <= j < r.0.width ==>
      r.0.rows[i][j] == a.rows[i][j] && r.1.rows[i][j] == b.rows[i][j]
    ensures a.height == b.height && a.width == b.width ==> r == (a, b)
  {
    var height := Min(a.height, b.height);
    var width := Min(a.width, b.width);
    if a.height == b.height && a.width == b.width then
      CropWhole(a);
      CropWhole(b);
      (Crop(a, height, width), Crop(b, height, width))
    else
      (Crop(a, height, width), Crop(b, height, width))
  }

  /** Cropping to the image's own shape is the identity. */
  lemma CropWhole(g: Grid)
    requires WellShaped(g)
    ensures Crop(g, g.height, g.width) == g
  {
    var r := Crop(g, g.height, g.width);
    forall i | 0 <= i < g.height ensures r.rows[i] == g.rows[i] {
      assert g.rows[i][..g.width] == g.rows[i];
    }
  }

  /** How `(original - compressed) ** 2` is computed. */
  datatype Arithmetic =
    | Uint8   // on uint8 arrays: the difference and its square both wrap modulo 256
    | Exact   // on unbounded integers

  /**
   * One pixel's squared error. Exactly it is 0 only for equal samples; in
   * uint8 arithmetic it is the exact square modulo 256, which is 0 whenever
   * the samples differ by a multiple of 16.
   */
  function SquaredError(arith: Arithmetic, x: int, y: int): (r: nat)
    ensures arith.Exact? ==> (r == 0 <==> x == y)
    ensures arith.Uint8? ==> r < 256 && r == ((x - y) * (x - y)) % 256
    ensures arith.Uint8? ==> (r == 0 <==> (x - y) % 16 == 0)
  {
    match arith
    case Uint8 =>
      ModSquare(x - y);
      SquareWrapsToZero(x - y);
      var d := (x - y) % 256; (d * d) % 256
    case Exact => (x - y) * (x - y)
  }

  /** Wrapping the root modulo 256 before squaring does not change the square modulo 256. */
  lemma ModSquare(d: int)
    ensures ((d % 256) * (d % 256)) % 256 == (d * d) % 256
  {
    var q, m := d / 256, d % 256;
    assert d == 256 * q + m;
    SquareExpand(q, m);
    ModShift(256 * q * q + 2 * q * m, m * m);
  }

  lemma SquareExpand(q: int, m: int)
    ensures (256 * q + m) * (256 * q + m) == 256 * (256 * q * q + 2 * q * m) + m * m
  {
  }

  lemma ModShift(k: int, x: int)
    ensures (256 * k + x) % 256 == x % 256
  {
  }

  /** A square is even only when its root is. */
  lemma EvenSquare(e: int, n: int)
    requires e * e == 2 * n
    ensures e % 2 == 0
  {
    var k, m := e / 2, e % 2;
    assert e * e == 2 * (2 * k * k + 2 * k * m) + m * m;
  }

  /** Halving an even root quarters its square. */
  lemma HalfSquare(x: int, n: int)
    requires x % 2 == 0 && x * x == 4 * n
    ensures (x / 2) * (x / 2) == n
  {
    var y := x / 2;
    assert x * x == 4 * (y * y);
  }

  /** A square that is a multiple of 8 has an even root, whose half squares to a quarter of it. */
  lemma QuarterSquare(x: int, n: int)
    requires x * x == 8 * n
    ensures x % 2 == 0 && (x / 2) * (x / 2) == 2 * n
  {
    EvenSquare(x, 4 * n);
    HalfSquare(x, 2 * n);
  }

  /** A square that is a multiple of 256 has a root that is a multiple of 16. */
  lemma RootOfWrappedSquare(d: int, q: int)
    requires d * d == 256 * q
    ensures d % 16 == 0
  {
    QuarterSquare(d, 32 * q);
    RootOf64(d / 2, q);
  }

  lemma RootOf64(e: int, q: int)
    requires e * e == 64 * q
    ensures e % 8 == 0
  {
    QuarterSquare(e, 8 * q);
    RootOf16(e / 2, q);
  }

  lemma RootOf16(f: int, q: int)
    requires f * f == 16 * q
    ensures f % 4 == 0
  {
    QuarterSquare(f, 2 * q);
    EvenSquare(f / 2, 2 * q);
  }

  lemma SquareOfMultiple(d: int)
    requires d % 16 == 0
    ensures (d * d) % 256 == 0
  {
    var h := d / 16;
    assert d * d == 256 * (h * h);
  }

  /** A square wraps to 0 modulo 256 exactly when its root is a multiple of 16. */
  lemma SquareWrapsToZero(d: int)
    ensures (d * d) % 256 == 0 <==> d % 16 == 0
  {
    if d % 16 == 0 {
      SquareOfMultiple(d);
    } else if (d * d) % 256 == 0 {
      RootOfWrappedSquare(d, (d * d) / 256);
    }
  }

  function RowError(arith: Arithmetic, x: seq<int>, y: seq<int>): nat
    requires |x| == |y|
  {
    if x == [] then 0 else SquaredError(arith, x[0], y[0]) + RowError(arith, x[1..], y[1..])
  }

  predicate SameShape(a: Grid, b: Grid)
  {
    WellShaped(a) && WellShaped(b) && a.height == b.height && a.width == b.width
  }

  function GridError(arith: Arithmetic, a: seq<seq<int>>, b: seq<seq<int>>): nat
    requires |a| == |b| && forall i :: 0 <= i < |a| ==> |a[i]| == |b[i]|
  {
    if a == [] then 0 else RowError(arith, a[0], b[0]) + GridError(arith, a[1..], b[1..])
  }

  /** The outcome of `psnr`: the no-noise sentinel 100, the logarithmic formula of a nonzero MSE, or NaN for empty images. */
  datatype Psnr = NoNoise | FromMse(mse: real) | NotANumber

  function PsnrValue(arith: Arithmetic, a: Grid, b: Grid): (r: Psnr)
    requires SameShape(a, b)
    ensures r.NoNoise? <==> a.height * a.width > 0 && GridError(arith, a.rows, b.rows) == 0
    ensures r.NotANumber? <==> a.height * a.width == 0
  {
    var n := a.height * a.width;
    var total := GridError(arith, a.rows, b.rows);
    if n == 0 then NotANumber
    else if total == 0 then NoNoise
    else FromMse(total as real / n as real)
  }

  /**
   * `psnr` as written, on two uint8 images: the sentinel 100 comes back for
   * every pair of non-empty images whose samples all differ by multiples of 16.
   */
  function PsnrAsWritten(a: Grid, b: Grid): (r: Psnr)
    requires SameShape(a, b)
    ensures r.NotANumber? <==> a.height * a.width == 0
    ensures r.NoNoise? <==>
      && a.height * a.width > 0
      && forall i, j :: 0 <= i < a.height && 0 <= j < a.width ==> (a.rows[i][j] - b.rows[i][j]) % 16 == 0
  {
    GridErrorUint8Zero(a.rows, b.rows);
    PsnrValue(Uint8, a, b)
  }

  /** `psnr` with the squared error taken exactly: a noise figure comes from a positive MSE. */
  function PsnrExact(a: Grid, b: Grid): (r: Psnr)
    requires SameShape(a, b)
    ensures r.NotANumber? <==> a.height * a.width == 0
    ensures r.FromMse? ==> r.mse > 0.0
  {
    PsnrValue(Exact, a, b)
  }

  lemma {:induction false} RowErrorUint8Zero(x: seq<int>, y: seq<int>)
    requires |x| == |y|
    ensures RowError(Uint8, x, y) == 0 <==> forall j :: 0 <= j < |x| ==> (x[j] - y[j]) % 16 == 0
  {
    if x != [] {
      RowErrorUint8Zero(x[1..], y[1..]);
      assert forall j :: 1 <= j < |x| ==> x[1..][j - 1] == x[j] && y[1..][j - 1] == y[j];
    }
  }

  /** In uint8 arithmetic an image's squared error is 0 exactly when every sample differs by a multiple of 16. */
  lemma {:induction false} GridErrorUint8Zero(a: seq<seq<int>>, b: seq<seq<int>>)
    requires |a| == |b| && forall i :: 0 <= i < |a| ==> |a[i]| == |b[i]|
    ensures GridError(Uint8, a, b) == 0 <==>
      forall i, j :: 0 <= i < |a| && 0 <= j < |a[i]| ==> (a[i][j] - b[i][j]) % 16 == 0
  {
    if a != [] {
      RowErrorUint8Zero(a[0], b[0]);
      GridErrorUint8Zero(a[1..], b[1..]);
      assert forall i :: 1 <= i < |a| ==> a[1..][i - 1] == a[i] && b[1..][i - 1] == b[i];
    }
  }

  lemma {:induction false} RowErrorZero(x: seq<int>, y: seq<int>)
    requires |x| == |y|
    ensures RowError(Exact, x, y) == 0 <==> x == y
  {
    if x != [] {
      RowErrorZero(x[1..], y[1..]);
      assert x == [x[0]] + x[1..] && y == [y[0]] + y[1..];
    }
  }

  lemma {:induction false} GridErrorZero(a: seq<seq<int>>, b: seq<seq<int>>)
    requires |a| == |b| && forall i :: 0 <= i < |a| ==> |a[i]| == |b[i]|
    ensures GridError(Exact, a, b) == 0 <==> a == b
  {
    if a != [] {
      RowErrorZero(a[0], b[0]);
      GridErrorZero(a[1..], b[1..]);
      assert a == [a[0]] + a[1..] && b == [b[0]] + b[1..];
    }
  }

  /** With exact arithmetic the sentinel 100 means exactly that the non-empty images are equal. */
  lemma PsnrExactSentinelIffEqual(a: Grid, b: Grid)
    requires SameShape(a, b) && a.height * a.width > 0
    ensures PsnrExact(a, b) == NoNoise <==> a.rows == b.rows
  {
    GridErrorZero(a.rows, b.rows);
  }

  lemma {:induction false} RowErrorSelf(arith: Arithmetic, x: seq<int>)
    ensures RowError(arith, x, x) == 0
  {
    if x != [] {
      RowErrorSelf(arith, x[1..]);
    }
  }

  lemma {:induction false} GridErrorSelf(arith: Arithmetic, a: seq<seq<int>>)
    ensures GridError(arith, a, a) == 0
  {
    if a != [] {
      RowErrorSelf(arith, a[0]);
      GridErrorSelf(arith, a[1..]);
    }
  }

  /** As written, equal non-empty images do get the sentinel. */
  lemma PsnrAsWrittenOfEqualIsSentinel(a: Grid)
    requires WellShaped(a) && a.height * a.width > 0
    ensures PsnrAsWritten(a, a) == NoNoise
  {
    GridErrorSelf(Uint8, a.rows);
  }

  /**
   * As written, two differing images also get the sentinel: 16 - 0 = 16 and
   * 16 * 16 = 256, which wraps to 0 in uint8 arithmetic.
   */
  lemma PsnrAsWrittenMissesDifference()
    ensures var a, b := Grid(1, 1, [[16]]), Grid(1, 1, [[0]]);
      SameShape(a, b) && a.rows != b.rows && PsnrAsWritten(a, b) == NoNoise && PsnrExact(a, b) != NoNoise
  {
    var a, b := Grid(1, 1, [[16]]), Grid(1, 1, [[0]]);
    assert a.rows[0][0] != b.rows[0][0];
    assert GridError(Uint8, a.rows, b.rows) == 0;
    assert GridError(Exact, a.rows, b.rows) == 256;
  }
}
