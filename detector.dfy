/** The detector object: its grids are fields that each stage resizes and then
    overwrites cell by cell, exactly as the member functions of
    `HarrisChessCornersDetector` do. */
module Detector {
  import opened Grid
  import opened Sobel
  import opened Gaussian
  import opened Response
  import opened Threshold
  import opened Suppression

  /** Default arguments of the public stages (harrisdetector.hpp). */
  const DEFAULT_SIGMA: nat := 1
  const DEFAULT_K: real := 0.04
  const DEFAULT_THRESHOLD_PERCENT: real := 0.5
  const DEFAULT_WINDOW_OFFSET: nat := 1

  /** The response grid `cornerResponse_method1` computes from the magnitude
      and orientation grids: the smoothed cross term against the smoothed magnitude. */
  function Method1Target(mag: seq<seq<real>>, ori: seq<seq<real>>, h: nat, w: nat, sigma: nat, k: real,
                         exp: real -> real, cos: real -> real, sin: real -> real): (g: seq<seq<real>>)
    requires h > 0 && IsRect(mag, h, w) && IsRect(ori, h, w)
    requires sigma > 0 && forall t :: exp(t) > 0.0
    ensures IsRect(g, h, w)
  {
    GaussWeightPositive(exp, sigma);
    var weight := GaussWeight(exp, sigma);
    Method1Grid(Smoothed(CrossGrid(mag, ori, h, w, cos, sin), weight, sigma), Smoothed(mag, weight, sigma), h, w, k)
  }

  /** On a fresh detector (empty grids) `computeGradients` leaves grids of the
      image's size whose border rows and columns hold 0 and whose interior
      cells hold the integer Sobel sums, each within [-1020, 1020]. */
  lemma FreshGradients(image: seq<seq<Pixel>>)
    requires IsImage(image)
    ensures var h, w := |image|, |image[0]|;
            var gx := Overlay(Resized([], h, w, 0), GradXGrid(image), h, w, 1);
            var gy := Overlay(Resized([], h, w, 0), GradYGrid(image), h, w, 1);
            && IsRect(gx, h, w) && IsRect(gy, h, w)
            && (forall y, x :: 0 <= y < h && 0 <= x < w && !Inside(h, w, 1, y, x) ==> gx[y][x] == 0 && gy[y][x] == 0)
            && (forall y, x :: Inside(h, w, 1, y, x) ==>
                  gx[y][x] == Sobel.Conv(image, SOBEL_X, y - 1, x - 1, 3) && gy[y][x] == Sobel.Conv(image, SOBEL_Y, y - 1, x - 1, 3)
                  && -1020 <= gx[y][x] <= 1020 && -1020 <= gy[y][x] <= 1020)
  {
    var h, w := |image|, |image[0]|;
    GradGridsAreConvolutions(image);
    forall y, x | Inside(h, w, 1, y, x)
      ensures -1020 <= GradXGrid(image)[y][x] <= 1020 && -1020 <= GradYGrid(image)[y][x] <= 1020
    {
      GradGridsCell(image, y, x);
    }
  }

  /** Thresholding a fresh mask and then suppressing: a coordinate is reported
      exactly when it lies at least wo cells from every edge, its response is
      strictly above `percent * maxResponse`, and it is a non-negative maximum
      of its (2 wo + 1)-square window. */
  lemma FreshCorners(resp: seq<seq<real>>, percent: real, maxResponse: real, h: nat, w: nat, wo: nat, c: Coord)
    requires IsRect(resp, h, w)
    ensures var strong := Marked(resp, percent, maxResponse, Resized([], h, w, false), h, w);
            c in Corners(resp, strong, h, w, wo) <==>
              Inside(h, w, wo, c.y, c.x) && resp[c.y][c.x] > percent * maxResponse && LocalMax(resp, h, w, wo, c.y, c.x)
  {
    var base := Resized([], h, w, false);
    var strong := Marked(resp, percent, maxResponse, base, h, w);
    CornerMember(resp, strong, h, w, wo, c);
    if Inside(h, w, wo, c.y, c.x) {
      MarkedCell(resp, percent, maxResponse, base, h, w, c.y, c.x);
    }
  }

  class HarrisChessCornersDetector {
    var gradientX: seq<seq<int>>
    var gradientY: seq<seq<int>>
    var gradientMag: seq<seq<real>>
    var gradientOri: seq<seq<real>>
    var cornerResponseMap: seq<seq<real>>
    var strongCornersMap: seq<seq<bool>>
    var strongCornersMapNMS: seq<seq<bool>>
    var maxResponse: real
    /** x is the column, y the row. */
    var maxResponseLocation: Coord
    var cornersLocation: seq<Coord>

    /** All grids and the corner list start empty; the starting maximum is
        whatever the caller's initialisation left in the field. */
    constructor(initialMaxResponse: real)
      ensures gradientX == [] && gradientY == [] && gradientMag == [] && gradientOri == []
      ensures cornerResponseMap == [] && strongCornersMap == [] && strongCornersMapNMS == []
      ensures maxResponse == initialMaxResponse && maxResponseLocation == Coord(0, 0)
      ensures cornersLocation == []
    {
      gradientX, gradientY, gradientMag, gradientOri := [], [], [], [];
      cornerResponseMap, strongCornersMap, strongCornersMapNMS := [], [], [];
      maxResponse, maxResponseLocation := initialMaxResponse, Coord(0, 0);
      cornersLocation := [];
    }

    /** Resize the four gradient grids to the image, then write the Sobel sums,
        the magnitude and the orientation at every cell one away from each edge. */
    method ComputeGradients(image: seq<seq<Pixel>>, sqrt: real -> real, atan: real -> real)
      requires IsImage(image)
      modifies this`gradientX, this`gradientY, this`gradientMag, this`gradientOri
      ensures var h, w := |image|, |image[0]|;
              && gradientX == Overlay(Resized(old(gradientX), h, w, 0), GradXGrid(image), h, w, 1)
              && gradientY == Overlay(Resized(old(gradientY), h, w, 0), GradYGrid(image), h, w, 1)
              && gradientMag == Overlay(Resized(old(gradientMag), h, w, 0.0), MagnitudeGrid(image, sqrt), h, w, 1)
              && gradientOri == Overlay(Resized(old(gradientOri), h, w, 0.0), OrientationGrid(image, atan), h, w, 1)
    {
      var h, w := |image|, |image[0]|;
      gradientX := ResizeGrid(gradientX, h, w, 0);
      gradientY := ResizeGrid(gradientY, h, w, 0);
      gradientMag := ResizeGrid(gradientMag, h, w, 0.0);
      gradientOri := ResizeGrid(gradientOri, h, w, 0.0);
      ghost var baseX, baseY, baseMag, baseOri := gradientX, gradientY, gradientMag, gradientOri;
      ghost var targetX, targetY, targetMag, targetOri := GradXGrid(image), GradYGrid(image), MagnitudeGrid(image, sqrt), OrientationGrid(image, atan);
      FilledStart(baseX, targetX, h, w, 1);
      FilledStart(baseY, targetY, h, w, 1);
      FilledStart(baseMag, targetMag, h, w, 1);
      FilledStart(baseOri, targetOri, h, w, 1);
      var y: int := 1;
      while y < h - 1
        invariant 1 <= y && (y <= h - 1 || y == 1)
        invariant FilledUpTo(gradientX, baseX, targetX, h, w, 1, y, 1)
        invariant FilledUpTo(gradientY, baseY, targetY, h, w, 1, y, 1)
        invariant FilledUpTo(gradientMag, baseMag, targetMag, h, w, 1, y, 1)
        invariant FilledUpTo(gradientOri, baseOri, targetOri, h, w, 1, y, 1)
      {
        var x: int := 1;
        while x < w - 1
          invariant 1 <= x && (x <= w - 1 || x == 1)
          invariant FilledUpTo(gradientX, baseX, targetX, h, w, 1, y, x)
          invariant FilledUpTo(gradientY, baseY, targetY, h, w, 1, y, x)
          invariant FilledUpTo(gradientMag, baseMag, targetMag, h, w, 1, y, x)
          invariant FilledUpTo(gradientOri, baseOri, targetOri, h, w, 1, y, x)
        {
          var sumX, sumY := SobelSums(image, y, x);
          GradientGridsCell(image, sqrt, atan, y, x);
          var mag := Magnitude(sqrt, sumX, sumY);
          var ori := Orientation(atan, sumX, sumY);
          FilledStep(gradientX, baseX, targetX, h, w, 1, y, x, sumX);
          FilledStep(gradientY, baseY, targetY, h, w, 1, y, x, sumY);
          FilledStep(gradientMag, baseMag, targetMag, h, w, 1, y, x, mag);
          FilledStep(gradientOri, baseOri, targetOri, h, w, 1, y, x, ori);
          gradientX := gradientX[y := gradientX[y][x := sumX]];
          gradientY := gradientY[y := gradientY[y][x := sumY]];
          gradientMag := gradientMag[y := gradientMag[y][x := mag]];
          gradientOri := gradientOri[y := gradientOri[y][x := ori]];
          x := x + 1;
        }
        FilledRow(gradientX, baseX, targetX, h, w, 1, y, x);
        FilledRow(gradientY, baseY, targetY, h, w, 1, y, x);
        FilledRow(gradientMag, baseMag, targetMag, h, w, 1, y, x);
        FilledRow(gradientOri, baseOri, targetOri, h, w, 1, y, x);
        y := y + 1;
      }
      FilledDone(gradientX, baseX, targetX, h, w, 1, y);
      FilledDone(gradientY, baseY, targetY, h, w, 1, y);
      FilledDone(gradientMag, baseMag, targetMag, h, w, 1, y);
      FilledDone(gradientOri, baseOri, targetOri, h, w, 1, y);
    }

    /** Lines 92-99: M = (mag * cos(ori)) * (mag * sin(ori)) at interior cells of a zero grid. */
    static method CrossProducts(mag: seq<seq<real>>, ori: seq<seq<real>>, h: nat, w: nat,
                                cos: real -> real, sin: real -> real) returns (m: seq<seq<real>>)
      requires IsRect(mag, h, w) && IsRect(ori, h, w)
      ensures m == CrossGrid(mag, ori, h, w, cos, sin)
    {
      var zeros := seq(h, _ => seq(w, _ => 0.0));
      ghost var target := CrossGrid(mag, ori, h, w, cos, sin);
      m := zeros;
      FilledStart(zeros, target, h, w, 1);
      var y: int := 1;
      while y < h - 1
        invariant 1 <= y && (y <= h - 1 || y == 1)
        invariant FilledUpTo(m, zeros, target, h, w, 1, y, 1)
      {
        var x: int := 1;
        while x < w - 1
          invariant 1 <= x && (x <= w - 1 || x == 1)
          invariant FilledUpTo(m, zeros, target, h, w, 1, y, x)
        {
          var dx := mag[y][x] * cos(ori[y][x]);
          var dy := mag[y][x] * sin(ori[y][x]);
          CrossGridCell(mag, ori, h, w, cos, sin, y, x);
          assert target[y][x] == dx * dy;
          FilledStep(m, zeros, target, h, w, 1, y, x, dx * dy);
          m := m[y := m[y][x := dx * dy]];
          x := x + 1;
        }
        FilledRow(m, zeros, target, h, w, 1, y, x);
        y := y + 1;
      }
      FilledDone(m, zeros, target, h, w, 1, y);
      OverlayIsTop(zeros, target, h, w, 1);
    }

    /** Lines 209-247: build and normalise the kernel, then write the weighted
        window sum at every cell at least sigma away from each edge of a zero grid. */
    static method ApplyGaussianSmoothing(image: seq<seq<real>>, sigma: nat := DEFAULT_SIGMA, exp: real -> real) returns (output: seq<seq<real>>)
      requires IsImage(image) && sigma > 0 && forall t :: exp(t) > 0.0
      ensures Positive(GaussWeight(exp, sigma)) && output == Smoothed(image, GaussWeight(exp, sigma), sigma)
    {
      var h, w := |image|, |image[0]|;
      var weight := GaussWeight(exp, sigma);
      GaussWeightPositive(exp, sigma);
      var raw, sum := BuildKernel(weight, sigma);
      RawKernelPositive(weight, sigma);
      KernelSumPositive(raw, 2 * sigma + 1);
      var kernel := NormaliseKernel(raw, sum);
      assert kernel == GaussianKernel(weight, sigma);
      var zeros := seq(h, _ => seq(w, _ => 0.0));
      ghost var target := Smoothed(image, weight, sigma);
      output := zeros;
      FilledStart(zeros, target, h, w, sigma);
      var y: int := sigma;
      while y < h - sigma
        invariant sigma <= y && (y <= h - sigma || y == sigma)
        invariant FilledUpTo(output, zeros, target, h, w, sigma, y, sigma)
      {
        var x: int := sigma;
        while x < w - sigma
          invariant sigma <= x && (x <= w - sigma || x == sigma)
          invariant FilledUpTo(output, zeros, target, h, w, sigma, y, x)
        {
          var s := WindowSum(image, kernel, sigma, y, x);
          SmoothedCell(image, weight, sigma, y, x);
          FilledStep(output, zeros, target, h, w, sigma, y, x, s);
          output := output[y := output[y][x := s]];
          x := x + 1;
        }
        FilledRow(output, zeros, target, h, w, sigma, y, x);
        y := y + 1;
      }
      FilledDone(output, zeros, target, h, w, sigma, y);
      OverlayIsTop(zeros, target, h, w, sigma);
    }

    /** Resize the response grid to the magnitude grid, write the method-1
        response at every interior cell, and move the stored peak to each cell
        (row-major) whose response is strictly above the peak so far. */
    method CornerResponseMethod1(sigma: nat := DEFAULT_SIGMA, k: real := DEFAULT_K, exp: real -> real, cos: real -> real, sin: real -> real)
      requires |gradientMag| > 0 && IsRect(gradientMag, |gradientMag|, |gradientMag[0]|)
      requires IsRect(gradientOri, |gradientMag|, |gradientMag[0]|)
      requires sigma > 0 && forall t :: exp(t) > 0.0
      modifies this`cornerResponseMap, this`maxResponse, this`maxResponseLocation
      ensures var h, w := |gradientMag|, |gradientMag[0]|;
              var resp := Method1Target(gradientMag, gradientOri, h, w, sigma, k, exp, cos, sin);
              && cornerResponseMap == Overlay(Resized(old(cornerResponseMap), h, w, 0.0), resp, h, w, 1)
              && Peak(maxResponse, maxResponseLocation)
                 == ScanMax(resp, Cells(1, h - 1, 1, w - 1), Peak(old(maxResponse), old(maxResponseLocation)))
    {
      var h, w := |gradientMag|, |gradientMag[0]|;
      cornerResponseMap := ResizeGrid(cornerResponseMap, h, w, 0.0);
      var m := CrossProducts(gradientMag, gradientOri, h, w, cos, sin);
      var smoothedMagnitude := ApplyGaussianSmoothing(gradientMag, sigma, exp);
      var smoothedM := ApplyGaussianSmoothing(m, sigma, exp);
      ScoreMethod1(smoothedM, smoothedMagnitude, h, w, k);
      assert Method1Grid(smoothedM, smoothedMagnitude, h, w, k)
             == Method1Target(gradientMag, gradientOri, h, w, sigma, k, exp, cos, sin);
    }

    /** Lines 107-118: write the method-1 response at every interior cell, in
        row-major order, moving the stored peak to each cell whose response is
        strictly above the peak so far. */
    method ScoreMethod1(smoothedM: seq<seq<real>>, smoothedMagnitude: seq<seq<real>>, h: nat, w: nat, k: real)
      requires IsRect(cornerResponseMap, h, w) && IsRect(smoothedM, h, w) && IsRect(smoothedMagnitude, h, w)
      modifies this`cornerResponseMap, this`maxResponse, this`maxResponseLocation
      ensures var resp := Method1Grid(smoothedM, smoothedMagnitude, h, w, k);
              && cornerResponseMap == Overlay(old(cornerResponseMap), resp, h, w, 1)
              && Peak(maxResponse, maxResponseLocation)
                 == ScanMax(resp, Cells(1, h - 1, 1, w - 1), Peak(old(maxResponse), old(maxResponseLocation)))
    {
      ghost var base := cornerResponseMap;
      ghost var target := Method1Grid(smoothedM, smoothedMagnitude, h, w, k);
      ghost var start := Peak(maxResponse, maxResponseLocation);
      Method1GridScores(smoothedM, smoothedMagnitude, h, w, k);
      FilledStart(base, target, h, w, 1);
      var y: int := 1;
      while y < h - 1
        invariant 1 <= y && (y <= h - 1 || y == 1)
        invariant FilledUpTo(cornerResponseMap, base, target, h, w, 1, y, 1)
        invariant Peak(maxResponse, maxResponseLocation) == ScanMax(target, Visited(1, 1, w - 1, y, 1), start)
      {
        ScoreMethod1Row(smoothedM, smoothedMagnitude, h, w, k, y, base, target, start);
        y := y + 1;
      }
      VisitedDone(Visited(1, 1, w - 1, y, 1), 1, 1, w - 1, y, h - 1);
      FilledDone(cornerResponseMap, base, target, h, w, 1, y);
    }

    /** One row of the loop of lines 107-118. */
    method ScoreMethod1Row(smoothedM: seq<seq<real>>, smoothedMagnitude: seq<seq<real>>, h: nat, w: nat, k: real,
                           y: int, ghost base: seq<seq<real>>, ghost target: seq<seq<real>>, ghost start: Peak)
      requires IsRect(smoothedM, h, w) && IsRect(smoothedMagnitude, h, w) && 1 <= y < h - 1
      requires ScoresMethod1(target, smoothedM, smoothedMagnitude, h, w, k)
      requires FilledUpTo(cornerResponseMap, base, target, h, w, 1, y, 1)
      requires Peak(maxResponse, maxResponseLocation) == ScanMax(target, Visited(1, 1, w - 1, y, 1), start)
      modifies this`cornerResponseMap, this`maxResponse, this`maxResponseLocation
      ensures FilledUpTo(cornerResponseMap, base, target, h, w, 1, y + 1, 1)
      ensures Peak(maxResponse, maxResponseLocation) == ScanMax(target, Visited(1, 1, w - 1, y + 1, 1), start)
    {
      var x: int := 1;
      while x < w - 1
        invariant 1 <= x && (x <= w - 1 || x == 1)
        invariant FilledUpTo(cornerResponseMap, base, target, h, w, 1, y, x)
        invariant Peak(maxResponse, maxResponseLocation) == ScanMax(target, Visited(1, 1, w - 1, y, x), start)
      {
        ScoreCell(cornerResponseMap, base, target, smoothedM, smoothedMagnitude, h, w, k, y, x,
                  start, Peak(maxResponse, maxResponseLocation));
        cornerResponseMap := cornerResponseMap[y := cornerResponseMap[y][x := Method1Response(smoothedM[y][x], smoothedMagnitude[y][x], k)]];
        if cornerResponseMap[y][x] > maxResponse {
          maxResponse := cornerResponseMap[y][x];
          maxResponseLocation := Coord(x, y);
        }
        x := x + 1;
      }
      VisitedRow(Visited(1, 1, w - 1, y, x), 1, 1, w - 1, y, x);
      FilledRow(cornerResponseMap, base, target, h, w, 1, y, x);
    }

    /** Lines 132-141: the three gradient products at interior cells of zero grids. */
    static method Products(gx: seq<seq<int>>, gy: seq<seq<int>>, h: nat, w: nat)
      returns (dxdx: seq<seq<real>>, dxdy: seq<seq<real>>, dydy: seq<seq<real>>)
      requires IsRect(gx, h, w) && IsRect(gy, h, w)
      ensures dxdx == ProductGrid(gx, gx, h, w)
      ensures dxdy == ProductGrid(gx, gy, h, w)
      ensures dydy == ProductGrid(gy, gy, h, w)
    {
      var zeros := seq(h, _ => seq(w, _ => 0.0));
      ghost var txx, txy, tyy := ProductGrid(gx, gx, h, w), ProductGrid(gx, gy, h, w), ProductGrid(gy, gy, h, w);
      dxdx, dxdy, dydy := zeros, zeros, zeros;
      FilledStart(zeros, txx, h, w, 1);
      FilledStart(zeros, txy, h, w, 1);
      FilledStart(zeros, tyy, h, w, 1);
      var y: int := 1;
      while y < h - 1
        invariant 1 <= y && (y <= h - 1 || y == 1)
        invariant FilledUpTo(dxdx, zeros, txx, h, w, 1, y, 1)
        invariant FilledUpTo(dxdy, zeros, txy, h, w, 1, y, 1)
        invariant FilledUpTo(dydy, zeros, tyy, h, w, 1, y, 1)
      {
        var x: int := 1;
        while x < w - 1
          invariant 1 <= x && (x <= w - 1 || x == 1)
          invariant FilledUpTo(dxdx, zeros, txx, h, w, 1, y, x)
          invariant FilledUpTo(dxdy, zeros, txy, h, w, 1, y, x)
          invariant FilledUpTo(dydy, zeros, tyy, h, w, 1, y, x)
        {
          var u, v := gx[y][x] as real, gy[y][x] as real;
          ProductGridCell(gx, gx, h, w, y, x);
          ProductGridCell(gx, gy, h, w, y, x);
          ProductGridCell(gy, gy, h, w, y, x);
          assert txx[y][x] == u * u && txy[y][x] == u * v && tyy[y][x] == v * v;
          FilledStep(dxdx, zeros, txx, h, w, 1, y, x, u * u);
          FilledStep(dxdy, zeros, txy, h, w, 1, y, x, u * v);
          FilledStep(dydy, zeros, tyy, h, w, 1, y, x, v * v);
          dxdx := dxdx[y := dxdx[y][x := u * u]];
          dxdy := dxdy[y := dxdy[y][x := u * v]];
          dydy := dydy[y := dydy[y][x := v * v]];
          x := x + 1;
        }
        FilledRow(dxdx, zeros, txx, h, w, 1, y, x);
        FilledRow(dxdy, zeros, txy, h, w, 1, y, x);
        FilledRow(dydy, zeros, tyy, h, w, 1, y, x);
        y := y + 1;
      }
      FilledDone(dxdx, zeros, txx, h, w, 1, y);
      FilledDone(dxdy, zeros, txy, h, w, 1, y);
      FilledDone(dydy, zeros, tyy, h, w, 1, y);
      OverlayIsTop(zeros, txx, h, w, 1);
      OverlayIsTop(zeros, txy, h, w, 1);
      OverlayIsTop(zeros, tyy, h, w, 1);
    }

    /** Resize the response grid to the magnitude grid and write the method-2
        response at every interior cell. `sigma` and `windowOffset` are accepted
        and not used; the stored peak is left as it is. */
    method CornerResponseMethod2(sigma: real := DEFAULT_SIGMA as real, k: real := DEFAULT_K, windowOffset: int := DEFAULT_WINDOW_OFFSET)
      requires |gradientMag| > 0
      requires IsRect(gradientX, |gradientMag|, |gradientMag[0]|) && IsRect(gradientY, |gradientMag|, |gradientMag[0]|)
      modifies this`cornerResponseMap
      ensures var h, w := |gradientMag|, |gradientMag[0]|;
              cornerResponseMap == Overlay(Resized(old(cornerResponseMap), h, w, 0.0), Method2Grid(gradientX, gradientY, h, w, k), h, w, 1)
      ensures maxResponse == old(maxResponse) && maxResponseLocation == old(maxResponseLocation)
    {
      var h, w := |gradientMag|, |gradientMag[0]|;
      cornerResponseMap := ResizeGrid(cornerResponseMap, h, w, 0.0);
      var dxdx, dxdy, dydy := Products(gradientX, gradientY, h, w);
      ghost var base := cornerResponseMap;
      ghost var target := Method2Grid(gradientX, gradientY, h, w, k);
      FilledStart(base, target, h, w, 1);
      var y: int := 1;
      while y < h - 1
        invariant 1 <= y && (y <= h - 1 || y == 1)
        invariant FilledUpTo(cornerResponseMap, base, target, h, w, 1, y, 1)
      {
        var x: int := 1;
        while x < w - 1
          invariant 1 <= x && (x <= w - 1 || x == 1)
          invariant FilledUpTo(cornerResponseMap, base, target, h, w, 1, y, x)
        {
          var a, b, c := dxdx[y][x], dxdy[y][x], dydy[y][x];
          var r := Method2Response(a, b, c, k);
          ProductGridCell(gradientX, gradientX, h, w, y, x);
          ProductGridCell(gradientX, gradientY, h, w, y, x);
          ProductGridCell(gradientY, gradientY, h, w, y, x);
          Method2GridCell(gradientX, gradientY, h, w, k, y, x);
          ghost var u, v := gradientX[y][x] as real, gradientY[y][x] as real;
          assert a == u * u && b == u * v && c == v * v;
          assert r == Method2Response(u * u, u * v, v * v, k);
          assert r == PixelResponse(gradientX[y][x], gradientY[y][x], k);
          FilledStep(cornerResponseMap, base, target, h, w, 1, y, x, r);
          cornerResponseMap := cornerResponseMap[y := cornerResponseMap[y][x := r]];
          x := x + 1;
        }
        FilledRow(cornerResponseMap, base, target, h, w, 1, y, x);
        y := y + 1;
      }
      FilledDone(cornerResponseMap, base, target, h, w, 1, y);
    }

    /** Resize the candidate mask to the response grid and set every cell whose
        response is strictly above `thresholdPercent * maxResponse`. */
    method Thresholding(thresholdPercent: real := DEFAULT_THRESHOLD_PERCENT)
      requires |cornerResponseMap| > 0 && IsRect(cornerResponseMap, |cornerResponseMap|, |cornerResponseMap[0]|)
      modifies this`strongCornersMap
      ensures var h, w := |cornerResponseMap|, |cornerResponseMap[0]|;
              strongCornersMap == Marked(cornerResponseMap, thresholdPercent, maxResponse,
                                         Resized(old(strongCornersMap), h, w, false), h, w)
    {
      var h, w := |cornerResponseMap|, |cornerResponseMap[0]|;
      strongCornersMap := ResizeGrid(strongCornersMap, h, w, false);
      var threshold := thresholdPercent * maxResponse;
      ghost var base := strongCornersMap;
      ghost var target := Marked(cornerResponseMap, thresholdPercent, maxResponse, base, h, w);
      FilledStart(base, target, h, w, 0);
      var y := 0;
      while y < h
        invariant 0 <= y <= h
        invariant FilledUpTo(strongCornersMap, base, target, h, w, 0, y, 0)
      {
        var x := 0;
        while x < w
          invariant 0 <= x <= w
          invariant FilledUpTo(strongCornersMap, base, target, h, w, 0, y, x)
        {
          MarkedCell(cornerResponseMap, thresholdPercent, maxResponse, base, h, w, y, x);
          if cornerResponseMap[y][x] > threshold {
            FilledStep(strongCornersMap, base, target, h, w, 0, y, x, true);
            strongCornersMap := strongCornersMap[y := strongCornersMap[y][x := true]];
          } else {
            FilledSkip(strongCornersMap, base, target, h, w, 0, y, x);
          }
          x := x + 1;
        }
        FilledRow(strongCornersMap, base, target, h, w, 0, y, x);
        y := y + 1;
      }
      FilledDone(strongCornersMap, base, target, h, w, 0, y);
      OverlayIsTop(base, target, h, w, 0);
    }

    /** Resize the suppressed mask to the response grid; visit the cells at least
        `windowOffset` from each edge in row-major order and, for each candidate
        equal to its window maximum, set its cell and append it to the corner list. */
    method NonMaximalSuppression(windowOffset: nat := DEFAULT_WINDOW_OFFSET)
      requires |cornerResponseMap| > 0 && IsRect(cornerResponseMap, |cornerResponseMap|, |cornerResponseMap[0]|)
      requires IsRect(strongCornersMap, |cornerResponseMap|, |cornerResponseMap[0]|)
      modifies this`strongCornersMapNMS, this`cornersLocation
      ensures var h, w := |cornerResponseMap|, |cornerResponseMap[0]|;
              && strongCornersMapNMS == Suppressed(cornerResponseMap, strongCornersMap,
                                                   Resized(old(strongCornersMapNMS), h, w, false), h, w, windowOffset)
              && cornersLocation == old(cornersLocation) + Corners(cornerResponseMap, strongCornersMap, h, w, windowOffset)
    {
      var h, w := |cornerResponseMap|, |cornerResponseMap[0]|;
      var wo := windowOffset;
      strongCornersMapNMS := ResizeGrid(strongCornersMapNMS, h, w, false);
      ghost var base := strongCornersMapNMS;
      ghost var target := Suppressed(cornerResponseMap, strongCornersMap, base, h, w, wo);
      ghost var before := cornersLocation;
      SuppressedBorder(cornerResponseMap, strongCornersMap, base, h, w, wo);
      OverlayIsTop(base, target, h, w, wo);
      FilledStart(base, target, h, w, wo);
      SuppressedMarks(cornerResponseMap, strongCornersMap, base, h, w, wo);
      var y: int := wo;
      while y < h - wo
        invariant wo <= y && (y <= h - wo || y == wo)
        invariant FilledUpTo(strongCornersMapNMS, base, target, h, w, wo, y, wo)
        invariant cornersLocation == before + Emitted(cornerResponseMap, strongCornersMap, h, w, wo, Visited(wo, wo, w - wo, y, wo))
      {
        SuppressRow(wo, h, w, y, base, target, before);
        y := y + 1;
      }
      VisitedDone(Visited(wo, wo, w - wo, y, wo), wo, wo, w - wo, y, h - wo);
      FilledDone(strongCornersMapNMS, base, target, h, w, wo, y);
    }

    /** One row of the loop of lines 185-200. */
    method SuppressRow(wo: nat, h: nat, w: nat, y: int, ghost base: seq<seq<bool>>, ghost target: seq<seq<bool>>,
                       ghost before: seq<Coord>)
      requires IsRect(cornerResponseMap, h, w) && IsRect(strongCornersMap, h, w) && IsRect(base, h, w)
      requires wo <= y < h - wo
      requires MarksCorners(target, cornerResponseMap, strongCornersMap, base, h, w, wo)
      requires FilledUpTo(strongCornersMapNMS, base, target, h, w, wo, y, wo)
      requires cornersLocation == before + Emitted(cornerResponseMap, strongCornersMap, h, w, wo, Visited(wo, wo, w - wo, y, wo))
      modifies this`strongCornersMapNMS, this`cornersLocation
      ensures FilledUpTo(strongCornersMapNMS, base, target, h, w, wo, y + 1, wo)
      ensures cornersLocation == before + Emitted(cornerResponseMap, strongCornersMap, h, w, wo, Visited(wo, wo, w - wo, y + 1, wo))
    {
      var x: int := wo;
      while x < w - wo
        invariant wo <= x && (x <= w - wo || x == wo)
        invariant FilledUpTo(strongCornersMapNMS, base, target, h, w, wo, y, x)
        invariant cornersLocation == before + Emitted(cornerResponseMap, strongCornersMap, h, w, wo, Visited(wo, wo, w - wo, y, x))
      {
        SuppressAt(wo, h, w, y, x, base, target, before);
        x := x + 1;
      }
      SuppressRowEnd(strongCornersMapNMS, cornersLocation, cornerResponseMap, strongCornersMap, base, target, before,
                     h, w, wo, y, x);
    }

    /** One cell of the loop of lines 185-200: a candidate is looked at only when
        it is strong, and kept when it equals the maximum of its window. */
    method SuppressAt(wo: nat, h: nat, w: nat, y: int, x: int, ghost base: seq<seq<bool>>, ghost target: seq<seq<bool>>,
                      ghost before: seq<Coord>)
      requires IsRect(cornerResponseMap, h, w) && IsRect(strongCornersMap, h, w) && IsRect(base, h, w)
      requires Inside(h, w, wo, y, x)
      requires MarksCorners(target, cornerResponseMap, strongCornersMap, base, h, w, wo)
      requires FilledUpTo(strongCornersMapNMS, base, target, h, w, wo, y, x)
      requires cornersLocation == before + Emitted(cornerResponseMap, strongCornersMap, h, w, wo, Visited(wo, wo, w - wo, y, x))
      modifies this`strongCornersMapNMS, this`cornersLocation
      ensures FilledUpTo(strongCornersMapNMS, base, target, h, w, wo, y, x + 1)
      ensures cornersLocation == before + Emitted(cornerResponseMap, strongCornersMap, h, w, wo, Visited(wo, wo, w - wo, y, x + 1))
    {
      var keep := false;
      if strongCornersMap[y][x] {
        var maxR := WindowMaximum(cornerResponseMap, h, w, wo, y, x);
        keep := cornerResponseMap[y][x] == maxR;
      }
      SuppressCell(strongCornersMapNMS, cornersLocation, cornerResponseMap, strongCornersMap, base, target, before,
                   h, w, wo, y, x, keep);
      if keep {
        strongCornersMapNMS := strongCornersMapNMS[y := strongCornersMapNMS[y][x := true]];
        cornersLocation := cornersLocation + [Coord(x, y)];
      }
    }
  }
}
