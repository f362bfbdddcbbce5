/** Sobel gradients: the 3x3 kernels, the per-pixel convolution loop of
    `computeGradients`, its closed form and the facts the detector relies on. */
module Sobel {
  import opened Grid

  const SOBEL_X: seq<seq<int>> := [[-1, 0, 1], [-2, 0, 2], [-1, 0, 1]]
  const SOBEL_Y: seq<seq<int>> := [[-1, -2, -1], [0, 0, 0], [1, 2, 1]]

  /** `std::numeric_limits<float>::min()`, the smallest positive normal float, 2^-126. */
  const FLOAT_MIN: real := 1.0 / 85070591730234615865843651857942052864.0


  /** Σ_{i < n} image[yy][x0 + i] * kernel[yy - y0][i]: one kernel row laid over the image. */
  function ConvRow(image: seq<seq<Pixel>>, kernel: seq<seq<int>>, y0: int, x0: int, yy: int, n: nat): int
    requires IsRect(kernel, 3, 3) && y0 <= yy < y0 + 3 && 0 <= yy < |image|
    requires n <= 3 && 0 <= x0 && x0 + 3 <= |image[yy]|
  {
    if n == 0 then 0 else ConvRow(image, kernel, y0, x0, yy, n - 1) + image[yy][x0 + n - 1] * kernel[yy - y0][n - 1]
  }

  /** The first m kernel rows laid over the image window whose top-left cell
      is (y0, x0), in exact integer arithmetic (Gaussian.Conv is the real-valued
      sum over a kernel of any odd side). */
  function Conv(image: seq<seq<Pixel>>, kernel: seq<seq<int>>, y0: int, x0: int, m: nat): int
    requires IsRect(kernel, 3, 3) && |image| > 0 && IsRect(image, |image|, |image[0]|)
    requires m <= 3 && 0 <= y0 && y0 + 3 <= |image| && 0 <= x0 && x0 + 3 <= |image[0]|
  {
    if m == 0 then 0 else Conv(image, kernel, y0, x0, m - 1) + ConvRow(image, kernel, y0, x0, y0 + m - 1, 3)
  }

  /** Horizontal Sobel response at interior pixel (y, x), written out. */
  function GradX(image: seq<seq<Pixel>>, y: int, x: int): (g: int)
    requires IsImage(image) && Inside(|image|, |image[0]|, 1, y, x)
    ensures -1020 <= g <= 1020
  {
    (image[y - 1][x + 1] as int - image[y - 1][x - 1])
    + 2 * (image[y][x + 1] as int - image[y][x - 1])
    + (image[y + 1][x + 1] as int - image[y + 1][x - 1])
  }

  /** Vertical Sobel response at interior pixel (y, x), written out. */
  function GradY(image: seq<seq<Pixel>>, y: int, x: int): (g: int)
    requires IsImage(image) && Inside(|image|, |image[0]|, 1, y, x)
    ensures -1020 <= g <= 1020
  {
    (image[y + 1][x - 1] as int - image[y - 1][x - 1])
    + 2 * (image[y + 1][x] as int - image[y - 1][x])
    + (image[y + 1][x + 1] as int - image[y - 1][x + 1])
  }

  lemma ConvRowExpand(image: seq<seq<Pixel>>, kernel: seq<seq<int>>, y0: int, x0: int, yy: int)
    requires IsRect(kernel, 3, 3) && y0 <= yy < y0 + 3 && 0 <= yy < |image|
    requires 0 <= x0 && x0 + 3 <= |image[yy]|
    ensures ConvRow(image, kernel, y0, x0, yy, 3)
            == image[yy][x0] * kernel[yy - y0][0] + image[yy][x0 + 1] * kernel[yy - y0][1]
               + image[yy][x0 + 2] * kernel[yy - y0][2]
  {
    assert ConvRow(image, kernel, y0, x0, yy, 1) == image[yy][x0] * kernel[yy - y0][0];
  }

  lemma ConvExpand(image: seq<seq<Pixel>>, kernel: seq<seq<int>>, y0: int, x0: int)
    requires IsRect(kernel, 3, 3) && |image| > 0 && IsRect(image, |image|, |image[0]|)
    requires 0 <= y0 && y0 + 3 <= |image| && 0 <= x0 && x0 + 3 <= |image[0]|
    ensures Conv(image, kernel, y0, x0, 3)
            == ConvRow(image, kernel, y0, x0, y0, 3) + ConvRow(image, kernel, y0, x0, y0 + 1, 3)
               + ConvRow(image, kernel, y0, x0, y0 + 2, 3)
  {
    assert Conv(image, kernel, y0, x0, 1) == ConvRow(image, kernel, y0, x0, y0, 3);
  }

  /** Laying either Sobel kernel over the 3x3 neighbourhood gives the closed forms. */
  lemma ConvIsGrad(image: seq<seq<Pixel>>, y: int, x: int)
    requires IsImage(image) && Inside(|image|, |image[0]|, 1, y, x)
    ensures Conv(image, SOBEL_X, y - 1, x - 1, 3) == GradX(image, y, x)
    ensures Conv(image, SOBEL_Y, y - 1, x - 1, 3) == GradY(image, y, x)
  {
    ConvXIsGradX(image, y, x);
    ConvYIsGradY(image, y, x);
  }

  lemma ConvXIsGradX(image: seq<seq<Pixel>>, y: int, x: int)
    requires IsImage(image) && Inside(|image|, |image[0]|, 1, y, x)
    ensures Conv(image, SOBEL_X, y - 1, x - 1, 3) == GradX(image, y, x)
  {
    var k := SOBEL_X;
    ConvExpand(image, k, y - 1, x - 1);
    assert ConvRow(image, k, y - 1, x - 1, y - 1, 3) == image[y - 1][x + 1] as int - image[y - 1][x - 1] by {
      assert k[0] == [-1, 0, 1];
      ConvRowExpand(image, k, y - 1, x - 1, y - 1);
    }
    assert ConvRow(image, k, y - 1, x - 1, y, 3) == 2 * (image[y][x + 1] as int - image[y][x - 1]) by {
      assert k[1] == [-2, 0, 2];
      ConvRowExpand(image, k, y - 1, x - 1, y);
    }
    assert ConvRow(image, k, y - 1, x - 1, y + 1, 3) == image[y + 1][x + 1] as int - image[y + 1][x - 1] by {
      assert k[2] == [-1, 0, 1];
      ConvRowExpand(image, k, y - 1, x - 1, y + 1);
    }
  }

  lemma ConvYIsGradY(image: seq<seq<Pixel>>, y: int, x: int)
    requires IsImage(image) && Inside(|image|, |image[0]|, 1, y, x)
    ensures Conv(image, SOBEL_Y, y - 1, x - 1, 3) == GradY(image, y, x)
  {
    var k := SOBEL_Y;
    ConvExpand(image, k, y - 1, x - 1);
    assert ConvRow(image, k, y - 1, x - 1, y - 1, 3)
           == -(image[y - 1][x - 1] as int) - 2 * (image[y - 1][x] as int) - image[y - 1][x + 1] by {
      assert k[0] == [-1, -2, -1];
      ConvRowExpand(image, k, y - 1, x - 1, y - 1);
    }
    assert ConvRow(image, k, y - 1, x - 1, y, 3) == 0 by {
      assert k[1] == [0, 0, 0];
      ConvRowExpand(image, k, y - 1, x - 1, y);
    }
    assert ConvRow(image, k, y - 1, x - 1, y + 1, 3)
           == image[y + 1][x - 1] as int + 2 * (image[y + 1][x] as int) + image[y + 1][x + 1] by {
      assert k[2] == [1, 2, 1];
      ConvRowExpand(image, k, y - 1, x - 1, y + 1);
    }
  }

  /** Lines 54-61 of `computeGradients`: both kernels over the 3x3 neighbourhood,
      accumulated together in one `j`, `i` loop. */
  method SobelSums(image: seq<seq<Pixel>>, y: int, x: int) returns (sumX: int, sumY: int)
    requires IsImage(image) && Inside(|image|, |image[0]|, 1, y, x)
    ensures sumX == GradX(image, y, x) && sumY == GradY(image, y, x)
  {
    sumX, sumY := 0, 0;
    var j := -1;
    while j <= 1
      invariant -1 <= j <= 2
      invariant sumX == Conv(image, SOBEL_X, y - 1, x - 1, j + 1)
      invariant sumY == Conv(image, SOBEL_Y, y - 1, x - 1, j + 1)
    {
      var i := -1;
      while i <= 1
        invariant -1 <= i <= 2
        invariant sumX == Conv(image, SOBEL_X, y - 1, x - 1, j + 1) + ConvRow(image, SOBEL_X, y - 1, x - 1, y + j, i + 1)
        invariant sumY == Conv(image, SOBEL_Y, y - 1, x - 1, j + 1) + ConvRow(image, SOBEL_Y, y - 1, x - 1, y + j, i + 1)
      {
        sumX := sumX + image[y + j][x + i] * SOBEL_X[j + 1][i + 1];
        sumY := sumY + image[y + j][x + i] * SOBEL_Y[j + 1][i + 1];
        i := i + 1;
      }
      j := j + 1;
    }
    ConvIsGrad(image, y, x);
  }

  /** `std::sqrt(sumX * sumX + sumY * sumY)` with the square root left abstract. */
  function Magnitude(sqrt: real -> real, sumX: int, sumY: int): real {
    sqrt((sumX * sumX + sumY * sumY) as real)
  }

  /** `std::atan(sumY / sumX)`, dividing by FLOAT_MIN instead when sumX is 0. */
  function Orientation(atan: real -> real, sumX: int, sumY: int): real {
    if sumX != 0 then atan(sumY as real / sumX as real) else atan(sumY as real / FLOAT_MIN)
  }

  /** The value `computeGradients` writes into each gradient grid: interior cells
      only; the border entries are placeholders that the stage never writes. */
  function GradXGrid(image: seq<seq<Pixel>>): (g: seq<seq<int>>)
    requires IsImage(image)
    ensures IsRect(g, |image|, |image[0]|)
  {
    var h, w := |image|, |image[0]|;
    seq(h, y requires 0 <= y < h => seq(w, x requires 0 <= x < w => if Inside(h, w, 1, y, x) then GradX(image, y, x) else 0))
  }

  function GradYGrid(image: seq<seq<Pixel>>): (g: seq<seq<int>>)
    requires IsImage(image)
    ensures IsRect(g, |image|, |image[0]|)
  {
    var h, w := |image|, |image[0]|;
    seq(h, y requires 0 <= y < h => seq(w, x requires 0 <= x < w => if Inside(h, w, 1, y, x) then GradY(image, y, x) else 0))
  }

  /** Lines 52-61: every interior cell of the gradient grids is the 3x3 window
      of the image weighted by the Sobel kernel. */
  lemma GradGridsAreConvolutions(image: seq<seq<Pixel>>)
    requires IsImage(image)
    ensures forall y, x :: Inside(|image|, |image[0]|, 1, y, x) ==>
              GradXGrid(image)[y][x] == Conv(image, SOBEL_X, y - 1, x - 1, 3)
              && GradYGrid(image)[y][x] == Conv(image, SOBEL_Y, y - 1, x - 1, 3)
  {
    forall y, x | Inside(|image|, |image[0]|, 1, y, x)
      ensures GradXGrid(image)[y][x] == Conv(image, SOBEL_X, y - 1, x - 1, 3)
      ensures GradYGrid(image)[y][x] == Conv(image, SOBEL_Y, y - 1, x - 1, 3)
    {
      ConvIsGrad(image, y, x);
    }
  }

  function MagnitudeGrid(image: seq<seq<Pixel>>, sqrt: real -> real): (g: seq<seq<real>>)
    requires IsImage(image)
    ensures IsRect(g, |image|, |image[0]|)
  {
    var h, w := |image|, |image[0]|;
    seq(h, y requires 0 <= y < h => seq(w, x requires 0 <= x < w =>
      if Inside(h, w, 1, y, x) then Magnitude(sqrt, GradX(image, y, x), GradY(image, y, x)) else 0.0))
  }

  function OrientationGrid(image: seq<seq<Pixel>>, atan: real -> real): (g: seq<seq<real>>)
    requires IsImage(image)
    ensures IsRect(g, |image|, |image[0]|)
  {
    var h, w := |image|, |image[0]|;
    seq(h, y requires 0 <= y < h => seq(w, x requires 0 <= x < w =>
      if Inside(h, w, 1, y, x) then Orientation(atan, GradX(image, y, x), GradY(image, y, x)) else 0.0))
  }

  /** The two gradient grids at an interior cell: the closed-form Sobel sums,
      each within [-1020, 1020]. */
  lemma GradGridsCell(image: seq<seq<Pixel>>, y: int, x: int)
    requires IsImage(image) && Inside(|image|, |image[0]|, 1, y, x)
    ensures GradXGrid(image)[y][x] == GradX(image, y, x) && GradYGrid(image)[y][x] == GradY(image, y, x)
    ensures -1020 <= GradXGrid(image)[y][x] <= 1020 && -1020 <= GradYGrid(image)[y][x] <= 1020
  {
  }

  lemma GradientGridsCell(image: seq<seq<Pixel>>, sqrt: real -> real, atan: real -> real, y: int, x: int)
    requires IsImage(image) && Inside(|image|, |image[0]|, 1, y, x)
    ensures GradXGrid(image)[y][x] == GradX(image, y, x) && GradYGrid(image)[y][x] == GradY(image, y, x)
    ensures MagnitudeGrid(image, sqrt)[y][x] == Magnitude(sqrt, GradX(image, y, x), GradY(image, y, x))
    ensures OrientationGrid(image, atan)[y][x] == Orientation(atan, GradX(image, y, x), GradY(image, y, x))
  {
  }

  /** An image of one intensity has no gradient anywhere in its interior. */
  lemma UniformImageHasNoGradient(image: seq<seq<Pixel>>, c: Pixel)
    requires IsImage(image)
    requires forall y, x :: 0 <= y < |image| && 0 <= x < |image[y]| ==> image[y][x] == c
    ensures forall y, x :: Inside(|image|, |image[0]|, 1, y, x) ==>
              GradXGrid(image)[y][x] == 0 && GradYGrid(image)[y][x] == 0
  {
    forall y, x | Inside(|image|, |image[0]|, 1, y, x)
      ensures GradXGrid(image)[y][x] == 0 && GradYGrid(image)[y][x] == 0
    {
      ConvIsGrad(image, y, x);
    }
  }

  function Transpose(image: seq<seq<Pixel>>): (t: seq<seq<Pixel>>)
    requires IsImage(image)
    ensures IsRect(t, |image[0]|, |image|)
    ensures forall x, y :: 0 <= x < |image[0]| && 0 <= y < |image| ==> t[x][y] == image[y][x]
  {
    seq(|image[0]|, x requires 0 <= x < |image[0]| => seq(|image|, y requires 0 <= y < |image| => image[y][x]))
  }

  /** SOBEL_Y is the transpose of SOBEL_X. */
  lemma KernelsTransposed()
    ensures forall j, i :: 0 <= j < 3 && 0 <= i < 3 ==> SOBEL_Y[j][i] == SOBEL_X[i][j]
  {
    assert SOBEL_X[0] == [-1, 0, 1] && SOBEL_X[1] == [-2, 0, 2] && SOBEL_X[2] == [-1, 0, 1];
    assert SOBEL_Y[0] == [-1, -2, -1] && SOBEL_Y[1] == [0, 0, 0] && SOBEL_Y[2] == [1, 2, 1];
  }

  /** Hence the vertical gradient of an image is the horizontal gradient of
      its transpose, with the coordinates swapped. */
  lemma GradYIsTransposedGradX(image: seq<seq<Pixel>>, y: int, x: int)
    requires IsImage(image) && Inside(|image|, |image[0]|, 1, y, x)
    ensures IsImage(Transpose(image)) && Inside(|image[0]|, |image|, 1, x, y)
    ensures Conv(image, SOBEL_Y, y - 1, x - 1, 3) == Conv(Transpose(image), SOBEL_X, x - 1, y - 1, 3)
  {
    var t := Transpose(image);
    ConvIsGrad(image, y, x);
    ConvIsGrad(t, x, y);
    assert GradX(t, x, y) == GradY(image, y, x);
  }
}
