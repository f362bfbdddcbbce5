/** The Gaussian smoothing helper: a (2r+1) x (2r+1) kernel of positive
    weights normalised to sum 1, convolved over the cells at least r away
    from every edge; the cells nearer an edge are 0. The weight function
    stands for exp(-(x*x + y*y) / (2 * sigma * sigma)) and is left abstract. */
module Gaussian {
  import opened Grid

  ghost predicate IsSquare(kernel: seq<seq<real>>) {
    IsRect(kernel, |kernel|, |kernel|)
  }

  /** The exponential is positive everywhere. */
  ghost predicate Positive(weight: (int, int) -> real) {
    forall a, b :: weight(a, b) > 0.0
  }

  /** Σ_{i < n} row[i] */
  function RowSum(row: seq<real>, n: nat): real
    requires n <= |row|
  {
    if n == 0 then 0.0 else RowSum(row, n - 1) + row[n - 1]
  }

  /** Σ_{j < m} of the sums of kernel rows j, in the row-major order of the source's loops. */
  function KernelSum(kernel: seq<seq<real>>, m: nat): real
    requires m <= |kernel|
  {
    if m == 0 then 0.0 else KernelSum(kernel, m - 1) + RowSum(kernel[m - 1], |kernel[m - 1]|)
  }

  /** kernel[y + r][x + r] = weight(x, y) for the column offset x and row offset y in [-r, r]. */
  function RawKernel(weight: (int, int) -> real, r: nat): (kernel: seq<seq<real>>)
    ensures IsRect(kernel, 2 * r + 1, 2 * r + 1)
  {
    seq(2 * r + 1, j requires 0 <= j < 2 * r + 1 => seq(2 * r + 1, i requires 0 <= i < 2 * r + 1 => weight(i - r, j - r)))
  }

  function Normalised(kernel: seq<seq<real>>, s: real): (nk: seq<seq<real>>)
    requires IsSquare(kernel) && s != 0.0
    ensures IsSquare(nk) && |nk| == |kernel|
  {
    seq(|kernel|, j requires 0 <= j < |kernel| => seq(|kernel|, i requires 0 <= i < |kernel| => kernel[j][i] / s))
  }

  lemma {:induction false} RowSumPositive(row: seq<real>, n: nat)
    requires 0 < n <= |row|
    requires forall i :: 0 <= i < |row| ==> row[i] > 0.0
    ensures RowSum(row, n) > 0.0
  {
    if n > 1 {
      RowSumPositive(row, n - 1);
    }
  }

  lemma {:induction false} KernelSumPositive(kernel: seq<seq<real>>, m: nat)
    requires IsSquare(kernel) && 0 < m <= |kernel|
    requires forall j, i :: 0 <= j < |kernel| && 0 <= i < |kernel| ==> kernel[j][i] > 0.0
    ensures KernelSum(kernel, m) > 0.0
  {
    RowSumPositive(kernel[m - 1], |kernel|);
    if m > 1 {
      KernelSumPositive(kernel, m - 1);
    }
  }

  lemma {:induction false} RowSumScaled(row: seq<real>, nrow: seq<real>, s: real, n: nat)
    requires n <= |row| == |nrow| && s != 0.0
    requires forall i :: 0 <= i < |row| ==> nrow[i] == row[i] / s
    ensures RowSum(nrow, n) == RowSum(row, n) / s
  {
    if n > 0 {
      RowSumScaled(row, nrow, s, n - 1);
    }
  }

  /** Dividing every weight by s divides the total by s. */
  lemma {:induction false} NormalisedSum(kernel: seq<seq<real>>, s: real, m: nat)
    requires IsSquare(kernel) && s != 0.0 && m <= |kernel|
    ensures KernelSum(Normalised(kernel, s), m) == KernelSum(kernel, m) / s
  {
    if m > 0 {
      var nk := Normalised(kernel, s);
      NormalisedSum(kernel, s, m - 1);
      RowSumScaled(kernel[m - 1], nk[m - 1], s, |kernel|);
    }
  }

  lemma RawKernelPositive(weight: (int, int) -> real, r: nat)
    requires Positive(weight)
    ensures forall j, i :: 0 <= j < 2 * r + 1 && 0 <= i < 2 * r + 1 ==> RawKernel(weight, r)[j][i] > 0.0
  {
  }

  lemma NormalisedPositive(kernel: seq<seq<real>>, s: real)
    requires IsSquare(kernel) && s > 0.0
    requires forall j, i :: 0 <= j < |kernel| && 0 <= i < |kernel| ==> kernel[j][i] > 0.0
    ensures forall j, i :: 0 <= j < |kernel| && 0 <= i < |kernel| ==> Normalised(kernel, s)[j][i] > 0.0
  {
    forall j, i | 0 <= j < |kernel| && 0 <= i < |kernel|
      ensures Normalised(kernel, s)[j][i] > 0.0
    {
      var a := kernel[j][i];
      assert a / s > 0.0;
    }
  }

  /** Line 221: the weight at column offset x and row offset y,
      exp(-(x*x + y*y) / (2 * sigma * sigma)), with the exponential left abstract. */
  function GaussWeight(exp: real -> real, sigma: nat): (int, int) -> real
    requires sigma > 0
  {
    (x: int, y: int) => exp(-((x * x + y * y) as real) / (2.0 * (sigma as real) * (sigma as real)))
  }

  lemma GaussWeightPositive(exp: real -> real, sigma: nat)
    requires sigma > 0 && forall t :: exp(t) > 0.0
    ensures Positive(GaussWeight(exp, sigma))
  {
  }

  /** The kernel `applyGaussianSmoothing` convolves with: the raw weights divided
      by their total, so its entries are positive and sum to 1. */
  function GaussianKernel(weight: (int, int) -> real, r: nat): (kernel: seq<seq<real>>)
    requires Positive(weight)
    ensures IsRect(kernel, 2 * r + 1, 2 * r + 1)
    ensures KernelSum(kernel, 2 * r + 1) == 1.0
    ensures forall j, i :: 0 <= j < 2 * r + 1 && 0 <= i < 2 * r + 1 ==> kernel[j][i] > 0.0
  {
    var raw := RawKernel(weight, r);
    RawKernelPositive(weight, r);
    KernelSumPositive(raw, 2 * r + 1);
    var s := KernelSum(raw, 2 * r + 1);
    NormalisedSum(raw, s, 2 * r + 1);
    NormalisedPositive(raw, s);
    assert s / s == 1.0;
    Normalised(raw, s)
  }

  /** Σ_{i < n} image[yy][x0 + i] * kernel[yy - y0][i]: the real-valued
      counterpart of Sobel.ConvRow, over a kernel of any odd side. */
  function ConvRow(image: seq<seq<real>>, kernel: seq<seq<real>>, y0: int, x0: int, yy: int, n: nat): real
    requires IsSquare(kernel) && y0 <= yy < y0 + |kernel| && 0 <= yy < |image|
    requires n <= |kernel| && 0 <= x0 && x0 + |kernel| <= |image[yy]|
  {
    if n == 0 then 0.0
    else ConvRow(image, kernel, y0, x0, yy, n - 1) + image[yy][x0 + n - 1] * kernel[yy - y0][n - 1]
  }

  /** The first m kernel rows laid over the image window whose top-left cell
      is (y0, x0); Sobel.Conv is the same sum over integer pixels and kernels. */
  function Conv(image: seq<seq<real>>, kernel: seq<seq<real>>, y0: int, x0: int, m: nat): real
    requires IsSquare(kernel) && IsImage(image) && m <= |kernel|
    requires 0 <= y0 && y0 + |kernel| <= |image| && 0 <= x0 && x0 + |kernel| <= |image[0]|
  {
    if m == 0 then 0.0
    else Conv(image, kernel, y0, x0, m - 1) + ConvRow(image, kernel, y0, x0, y0 + m - 1, |kernel|)
  }

  /** What `applyGaussianSmoothing` returns: the image's dimensions, 0 within r of
      any edge, the kernel-weighted window sum everywhere else. */
  function Smoothed(image: seq<seq<real>>, weight: (int, int) -> real, r: nat): (out: seq<seq<real>>)
    requires IsImage(image) && Positive(weight)
    ensures IsRect(out, |image|, |image[0]|)
    ensures forall y, x :: 0 <= y < |image| && 0 <= x < |image[0]| && !Inside(|image|, |image[0]|, r, y, x) ==> out[y][x] == 0.0
  {
    var h, w, k := |image|, |image[0]|, GaussianKernel(weight, r);
    seq(h, y requires 0 <= y < h => seq(w, x requires 0 <= x < w =>
      if Inside(h, w, r, y, x) then Conv(image, k, y - r, x - r, 2 * r + 1) else 0.0))
  }

  lemma SmoothedCell(image: seq<seq<real>>, weight: (int, int) -> real, r: nat, y: int, x: int)
    requires IsImage(image) && Positive(weight) && Inside(|image|, |image[0]|, r, y, x)
    ensures Smoothed(image, weight, r)[y][x] == Conv(image, GaussianKernel(weight, r), y - r, x - r, 2 * r + 1)
  {
  }

  lemma {:induction false} ConvRowConstant(image: seq<seq<real>>, kernel: seq<seq<real>>, y0: int, x0: int, yy: int, n: nat, c: real)
    requires IsSquare(kernel) && y0 <= yy < y0 + |kernel| && 0 <= yy < |image|
    requires n <= |kernel| && 0 <= x0 && x0 + |kernel| <= |image[yy]|
    requires forall xx :: 0 <= xx < |image[yy]| ==> image[yy][xx] == c
    ensures ConvRow(image, kernel, y0, x0, yy, n) == c * RowSum(kernel[yy - y0], n)
  {
    if n > 0 {
      ConvRowConstant(image, kernel, y0, x0, yy, n - 1, c);
    }
  }

  lemma {:induction false} ConvConstant(image: seq<seq<real>>, kernel: seq<seq<real>>, y0: int, x0: int, m: nat, c: real)
    requires IsSquare(kernel) && IsImage(image) && m <= |kernel|
    requires 0 <= y0 && y0 + |kernel| <= |image| && 0 <= x0 && x0 + |kernel| <= |image[0]|
    requires forall y, x :: 0 <= y < |image| && 0 <= x < |image[y]| ==> image[y][x] == c
    ensures Conv(image, kernel, y0, x0, m) == c * KernelSum(kernel, m)
  {
    if m > 0 {
      ConvConstant(image, kernel, y0, x0, m - 1, c);
      ConvRowConstant(image, kernel, y0, x0, y0 + m - 1, |kernel|, c);
      assert c * KernelSum(kernel, m - 1) + c * RowSum(kernel[m - 1], |kernel[m - 1]|)
             == c * (KernelSum(kernel, m - 1) + RowSum(kernel[m - 1], |kernel[m - 1]|));
    }
  }

  /** Because the kernel sums to 1, smoothing an image of one value c gives c
      at every cell at least r away from the edges. */
  lemma SmoothingKeepsConstant(image: seq<seq<real>>, weight: (int, int) -> real, r: nat, c: real)
    requires IsImage(image) && Positive(weight)
    requires forall y, x :: 0 <= y < |image| && 0 <= x < |image[y]| ==> image[y][x] == c
    ensures forall y, x :: Inside(|image|, |image[0]|, r, y, x) ==> Smoothed(image, weight, r)[y][x] == c
  {
    var k := GaussianKernel(weight, r);
    forall y, x | Inside(|image|, |image[0]|, r, y, x)
      ensures Smoothed(image, weight, r)[y][x] == c
    {
      ConvConstant(image, k, y - r, x - r, 2 * r + 1, c);
    }
  }

  /** Lines 218-225: fill the kernel with the raw weights and total them. */
  method BuildKernel(weight: (int, int) -> real, r: nat) returns (kernel: seq<seq<real>>, sum: real)
    ensures kernel == RawKernel(weight, r)
    ensures sum == KernelSum(kernel, 2 * r + 1)
  {
    var n := 2 * r + 1;
    ghost var raw := RawKernel(weight, r);
    var zeros := seq(n, _ => seq(n, _ => 0.0));
    kernel := zeros;
    sum := 0.0;
    FilledStart(zeros, raw, n, n, 0);
    var y: int := -(r as int);
    while y <= r
      invariant 0 <= y + r <= 2 * r + 1
      invariant FilledUpTo(kernel, zeros, raw, n, n, 0, y + r, 0)
      invariant sum == KernelSum(raw, y + r)
    {
      var x: int := -(r as int);
      while x <= r
        invariant 0 <= x + r <= 2 * r + 1
        invariant FilledUpTo(kernel, zeros, raw, n, n, 0, y + r, x + r)
        invariant sum == KernelSum(raw, y + r) + RowSum(raw[y + r], x + r)
      {
        var value := weight(x, y);
        FilledStep(kernel, zeros, raw, n, n, 0, y + r, x + r, value);
        kernel := kernel[y + r := kernel[y + r][x + r := value]];
        sum := sum + value;
        x := x + 1;
      }
      FilledRow(kernel, zeros, raw, n, n, 0, y + r, x + r);
      y := y + 1;
    }
    FilledDone(kernel, zeros, raw, n, n, 0, y + r);
    OverlayIsTop(zeros, raw, n, n, 0);
  }

  /** Lines 228-232: divide every entry by the total. */
  method NormaliseKernel(kernel: seq<seq<real>>, sum: real) returns (nk: seq<seq<real>>)
    requires IsSquare(kernel) && sum != 0.0
    ensures nk == Normalised(kernel, sum)
  {
    var n := |kernel|;
    ghost var target := Normalised(kernel, sum);
    nk := kernel;
    FilledStart(kernel, target, n, n, 0);
    var y := 0;
    while y < n
      invariant 0 <= y <= n
      invariant FilledUpTo(nk, kernel, target, n, n, 0, y, 0)
    {
      var x := 0;
      while x < n
        invariant 0 <= x <= n
        invariant FilledUpTo(nk, kernel, target, n, n, 0, y, x)
      {
        FilledStep(nk, kernel, target, n, n, 0, y, x, nk[y][x] / sum);
        nk := nk[y := nk[y][x := nk[y][x] / sum]];
        x := x + 1;
      }
      FilledRow(nk, kernel, target, n, n, 0, y, x);
      y := y + 1;
    }
    FilledDone(nk, kernel, target, n, n, 0, y);
    OverlayIsTop(kernel, target, n, n, 0);
  }

  /** Lines 237-242: the weighted sum over the window centred on (y, x). */
  method WindowSum(image: seq<seq<real>>, kernel: seq<seq<real>>, r: nat, y: int, x: int) returns (sum: real)
    requires IsImage(image) && IsRect(kernel, 2 * r + 1, 2 * r + 1)
    requires Inside(|image|, |image[0]|, r, y, x)
    ensures sum == Conv(image, kernel, y - r, x - r, 2 * r + 1)
  {
    sum := 0.0;
    var j: int := -(r as int);
    while j <= r
      invariant 0 <= j + r <= 2 * r + 1
      invariant sum == Conv(image, kernel, y - r, x - r, j + r)
    {
      var i: int := -(r as int);
      while i <= r
        invariant 0 <= i + r <= 2 * r + 1
        invariant sum == Conv(image, kernel, y - r, x - r, j + r) + ConvRow(image, kernel, y - r, x - r, y + j, i + r)
      {
        sum := sum + image[y + j][x + i] * kernel[j + r][i + r];
        i := i + 1;
      }
      j := j + 1;
    }
  }
}
