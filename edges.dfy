/**
 * Sobel edge detection with a binary threshold.
 *
 * Every interior pixel of the source image is classified from the 3x3 window around it:
 * both Sobel kernels are applied to the channel sums r+g+b of the nine neighbours, the
 * gradient magnitude is truncated to an integer, and the cell becomes Black ("no edge")
 * when that magnitude is below the threshold and White ("edge") otherwise.
 */
module EdgeDetection {
  import opened Pixels

  /** Horizontal Sobel kernel, row-major over the 3x3 window. */
  const KernelX: seq<int> := [-1, 0, 1,
                              -2, 0, 2,
                              -1, 0, 1]

  /** Vertical Sobel kernel, row-major over the 3x3 window. */
  const KernelY: seq<int> := [ 1,  2,  1,
                               0,  0,  0,
                              -1, -2, -1]

  /** The largest value the truncated gradient magnitude can take on 8-bit channels. */
  const MaxMagnitude: int := 4327

  // ---------------------------------------------------------------------------
  // Convolution

  /** The weighted sum of the first n channel sums: sum of Intensity(pixels[i]) * kernel[i], i < n. */
  function WeightedSum(pixels: seq<Rgb>, kernel: seq<int>, n: nat): int
    requires n <= |pixels| && n <= |kernel|
  {
    if n == 0 then 0
    else WeightedSum(pixels, kernel, n - 1) + Intensity(pixels[n - 1]) * kernel[n - 1]
  }

  /** The sum of the first n kernel coefficients. */
  function KernelSum(kernel: seq<int>, n: nat): int
    requires n <= |kernel|
  {
    if n == 0 then 0 else KernelSum(kernel, n - 1) + kernel[n - 1]
  }

  /** The sum of the positive coefficients among the first n. */
  function PositiveMass(kernel: seq<int>, n: nat): nat
    requires n <= |kernel|
  {
    if n == 0 then 0
    else PositiveMass(kernel, n - 1) + (if kernel[n - 1] > 0 then kernel[n - 1] else 0)
  }

  /** The sum of the magnitudes of the negative coefficients among the first n. */
  function NegativeMass(kernel: seq<int>, n: nat): nat
    requires n <= |kernel|
  {
    if n == 0 then 0
    else NegativeMass(kernel, n - 1) + (if kernel[n - 1] < 0 then -kernel[n - 1] else 0)
  }

  /**
   * Applies a kernel to the first `size` pixels, channel by channel, accumulating
   * r*k + g*k + b*k for each position.
   */
  method Convolute(pixels: seq<Rgb>, size: nat, kernel: seq<int>) returns (result: int)
    requires size <= |pixels| && size <= |kernel|
    ensures result == WeightedSum(pixels, kernel, size)
  {
    result := 0;
    var i := 0;
    while i < size
      invariant 0 <= i <= size
      invariant result == WeightedSum(pixels, kernel, i)
    {
      var k := kernel[i];
      result := result + pixels[i].r as int * k;
      result := result + pixels[i].g as int * k;
      result := result + pixels[i].b as int * k;
      assert Intensity(pixels[i]) * k
          == pixels[i].r as int * k + pixels[i].g as int * k + pixels[i].b as int * k;
      i := i + 1;
    }
  }

  // ---------------------------------------------------------------------------
  // Integer square root (stands in for the truncated floating-point sqrt)

  /** The integer square root: the largest r with r*r <= n. */
  function ISqrt(n: nat): (r: nat)
    ensures r * r <= n < (r + 1) * (r + 1)
  {
    if n == 0 then 0
    else
      var s := ISqrt(n - 1);
      if (s + 1) * (s + 1) <= n then s + 1 else s
  }

  /**
   * The threshold test on the truncated magnitude needs no square root:
   * floor(sqrt(n)) < t holds exactly when t is positive and n < t*t.
   */
  lemma ISqrtBelow(n: nat, t: int)
    ensures ISqrt(n) < t <==> 0 < t && n < t * t
  {
    var r := ISqrt(n);
    if r < t {
      SquareMonotone(r + 1, t);
    }
    if 0 < t && n < t * t && t <= r {
      SquareMonotone(t, r);
    }
  }

  // ---------------------------------------------------------------------------
  // Per-pixel classification

  /** Cells that have a full 3x3 window inside the image. */
  predicate Interior(img: array2<Rgb>, row: int, col: int)
  {
    1 <= row < img.Length0 - 1 && 1 <= col < img.Length1 - 1
  }

  /** The 3x3 window around (row, col), in row-major order. */
  function Neighbors(img: array2<Rgb>, row: nat, col: nat): (ns: seq<Rgb>)
    requires Interior(img, row, col)
    reads img
    ensures |ns| == 9
    ensures forall i :: 0 <= i < 9 ==> ns[i] == img[row - 1 + i / 3, col - 1 + i % 3]
  {
    [img[row - 1, col - 1], img[row - 1, col], img[row - 1, col + 1],
     img[row,     col - 1], img[row,     col], img[row,     col + 1],
     img[row + 1, col - 1], img[row + 1, col], img[row + 1, col + 1]]
  }

  /** Horizontal gradient Gx at an interior cell. */
  function GradientX(img: array2<Rgb>, row: nat, col: nat): int
    requires Interior(img, row, col)
    reads img
  {
    WeightedSum(Neighbors(img, row, col), KernelX, 9)
  }

  /** Vertical gradient Gy at an interior cell. */
  function GradientY(img: array2<Rgb>, row: nat, col: nat): int
    requires Interior(img, row, col)
    reads img
  {
    WeightedSum(Neighbors(img, row, col), KernelY, 9)
  }

  /** Gx*Gx + Gy*Gy, the squared gradient magnitude. */
  function SquaredNorm(gx: int, gy: int): nat
  {
    gx * gx + gy * gy
  }

  /** The gradient magnitude, truncated to an integer: floor(sqrt(Gx*Gx + Gy*Gy)). */
  function Magnitude(img: array2<Rgb>, row: nat, col: nat): nat
    requires Interior(img, row, col)
    reads img
  {
    ISqrt(SquaredNorm(GradientX(img, row, col), GradientY(img, row, col)))
  }

  /** The edge-map value of an interior cell for a given threshold. */
  function EdgeCell(img: array2<Rgb>, row: nat, col: nat, threshold: int): Rgb
    requires Interior(img, row, col)
    reads img
  {
    if Magnitude(img, row, col) < threshold then Black else White
  }

  // ---------------------------------------------------------------------------
  // The detector

  /**
   * Classifies every interior cell of `source` into `out`. The one-pixel border of `out`
   * is never written: whatever the caller left there stays. The truncated-square-root test
   * G < threshold is decided on the squares, as EdgeCellBySquares allows, so no root is taken.
   */
  method DetectEdges(source: array2<Rgb>, out: array2<Rgb>, threshold: int)
    requires out.Length0 == source.Length0 && out.Length1 == source.Length1
    requires source != out
    modifies out
    ensures forall row, col :: Interior(source, row, col) ==>
              out[row, col] == EdgeCell(source, row, col, threshold)
    ensures forall row, col ::
              0 <= row < out.Length0 && 0 <= col < out.Length1 && !Interior(source, row, col) ==>
              out[row, col] == old(out[row, col])
  {
    var height, width := source.Length0, source.Length1;
    var row := 1;
    while row < height - 1
      invariant 1 <= row
      invariant forall r, c :: Interior(source, r, c) && r < row ==>
                  out[r, c] == EdgeCell(source, r, c, threshold)
      invariant forall r, c ::
                  0 <= r < height && 0 <= c < width && !(Interior(source, r, c) && r < row) ==>
                  out[r, c] == old(out[r, c])
    {
      var col := 1;
      while col < width - 1
        invariant 1 <= col
        invariant forall r, c :: Interior(source, r, c) && (r < row || (r == row && c < col)) ==>
                    out[r, c] == EdgeCell(source, r, c, threshold)
        invariant forall r, c ::
                    0 <= r < height && 0 <= c < width &&
                    !(Interior(source, r, c) && (r < row || (r == row && c < col))) ==>
                    out[r, c] == old(out[r, c])
      {
        var neighbors := Neighbors(source, row, col);
        var gx := Convolute(neighbors, 9, KernelX);
        var gy := Convolute(neighbors, 9, KernelY);
        EdgeCellBySquares(source, row, col, threshold);
        out[row, col] := if 0 < threshold && gx * gx + gy * gy < threshold * threshold then Black else White;
        col := col + 1;
      }
      row := row + 1;
    }
  }

  // ---------------------------------------------------------------------------
  // Properties of the classification

  /** Both Sobel kernels are balanced: coefficients sum to 0, with mass 4 on each side. */
  lemma KernelsBalanced()
    ensures KernelSum(KernelX, 9) == 0 && KernelSum(KernelY, 9) == 0
    ensures PositiveMass(KernelX, 9) == 4 && NegativeMass(KernelX, 9) == 4
    ensures PositiveMass(KernelY, 9) == 4 && NegativeMass(KernelY, 9) == 4
  {
  }

  /** On a window of identical pixels the weighted sum is that pixel's intensity times the kernel sum. */
  lemma {:induction false} WeightedSumUniform(pixels: seq<Rgb>, kernel: seq<int>, n: nat, c: Rgb)
    requires n <= |pixels| && n <= |kernel|
    requires forall i :: 0 <= i < n ==> pixels[i] == c
    ensures WeightedSum(pixels, kernel, n) == Intensity(c) * KernelSum(kernel, n)
  {
    if n > 0 {
      WeightedSumUniform(pixels, kernel, n - 1, c);
      calc {
        WeightedSum(pixels, kernel, n);
        Intensity(c) * KernelSum(kernel, n - 1) + Intensity(c) * kernel[n - 1];
        Intensity(c) * (KernelSum(kernel, n - 1) + kernel[n - 1]);
      }
    }
  }

  /** A weighted sum lies between -765 times the negative mass and 765 times the positive mass. */
  lemma {:induction false} WeightedSumBounds(pixels: seq<Rgb>, kernel: seq<int>, n: nat)
    requires n <= |pixels| && n <= |kernel|
    ensures -765 * NegativeMass(kernel, n) <= WeightedSum(pixels, kernel, n) <= 765 * PositiveMass(kernel, n)
  {
    if n > 0 {
      WeightedSumBounds(pixels, kernel, n - 1);
      var v, k := Intensity(pixels[n - 1]), kernel[n - 1];
      TermBounds(v, k);
    }
  }

  lemma TermBounds(v: int, k: int)
    requires 0 <= v <= 765
    ensures -765 * (if k < 0 then -k else 0) <= v * k <= 765 * (if k > 0 then k else 0)
  {
    if k >= 0 {
      MulLeft(k, 0, v);
      MulLeft(k, v, 765);
    } else {
      MulLeft(-k, 0, v);
      MulLeft(-k, v, 765);
    }
  }

  /** |Gx| and |Gy| never exceed 4 * 765, so the truncated magnitude never exceeds 4327. */
  lemma GradientBounds(img: array2<Rgb>, row: nat, col: nat)
    requires Interior(img, row, col)
    ensures -3060 <= GradientX(img, row, col) <= 3060
    ensures -3060 <= GradientY(img, row, col) <= 3060
    ensures Magnitude(img, row, col) <= MaxMagnitude
  {
    var ns := Neighbors(img, row, col);
    KernelsBalanced();
    WeightedSumBounds(ns, KernelX, 9);
    WeightedSumBounds(ns, KernelY, 9);
    var gx, gy := GradientX(img, row, col), GradientY(img, row, col);
    var n := gx * gx + gy * gy;
    SquareBound(gx, 3060);
    SquareBound(gy, 3060);
    assert n < (MaxMagnitude + 1) * (MaxMagnitude + 1);
    ISqrtBelow(n, MaxMagnitude + 1);
  }

  /** A window of nine identical pixels has no gradient: for any positive threshold it is Black. */
  lemma UniformWindowIsBlack(img: array2<Rgb>, row: nat, col: nat, threshold: int)
    requires Interior(img, row, col)
    requires forall i :: 0 <= i < 9 ==> img[row - 1 + i / 3, col - 1 + i % 3] == img[row, col]
    requires threshold > 0
    ensures GradientX(img, row, col) == 0 && GradientY(img, row, col) == 0
    ensures EdgeCell(img, row, col, threshold) == Black
  {
    var ns := Neighbors(img, row, col);
    KernelsBalanced();
    WeightedSumUniform(ns, KernelX, 9, img[row, col]);
    WeightedSumUniform(ns, KernelY, 9, img[row, col]);
    assert ISqrt(0) == 0;
  }

  /** A source image of one colour yields Black on every interior cell, for any positive threshold. */
  lemma UniformImageIsBlack(img: array2<Rgb>, threshold: int)
    requires forall row, col :: 0 <= row < img.Length0 && 0 <= col < img.Length1 ==>
               img[row, col] == img[0, 0]
    requires threshold > 0
    ensures forall row: nat, col: nat :: Interior(img, row, col) ==>
              EdgeCell(img, row, col, threshold) == Black
  {
    forall row: nat, col: nat | Interior(img, row, col)
      ensures EdgeCell(img, row, col, threshold) == Black
    {
      UniformWindowIsBlack(img, row, col, threshold);
    }
  }

  /** A threshold above the largest attainable magnitude makes every interior cell Black. */
  lemma HighThresholdIsBlack(img: array2<Rgb>, row: nat, col: nat, threshold: int)
    requires Interior(img, row, col)
    requires threshold > MaxMagnitude
    ensures EdgeCell(img, row, col, threshold) == Black
  {
    GradientBounds(img, row, col);
  }

  /** A threshold of zero or below makes every interior cell White. */
  lemma NonPositiveThresholdIsWhite(img: array2<Rgb>, row: nat, col: nat, threshold: int)
    requires Interior(img, row, col)
    requires threshold <= 0
    ensures EdgeCell(img, row, col, threshold) == White
  {
  }

  /** Raising the threshold can only turn White cells Black ("the higher it is, the less edges"). */
  lemma ThresholdMonotone(img: array2<Rgb>, row: nat, col: nat, lo: int, hi: int)
    requires Interior(img, row, col)
    requires lo <= hi
    ensures EdgeCell(img, row, col, lo) == Black ==> EdgeCell(img, row, col, hi) == Black
    ensures EdgeCell(img, row, col, hi) == White ==> EdgeCell(img, row, col, lo) == White
  {
  }

  /** The classification restated without a square root, on the squared gradient. */
  lemma EdgeCellBySquares(img: array2<Rgb>, row: nat, col: nat, threshold: int)
    requires Interior(img, row, col)
    ensures var gx, gy := GradientX(img, row, col), GradientY(img, row, col);
            EdgeCell(img, row, col, threshold) ==
              if 0 < threshold && gx * gx + gy * gy < threshold * threshold then Black else White
  {
    var gx, gy := GradientX(img, row, col), GradientY(img, row, col);
    ISqrtBelow(gx * gx + gy * gy, threshold);
  }
}
