/** Corner-response scoring: the two response formulas, the grids the two
    scoring methods write, and the strict-greater-than running maximum that
    `cornerResponse_method1` keeps while it writes. */
module Response {
  import opened Grid

  /** The maximum response seen so far and where it was seen. */
  datatype Peak = Peak(value: real, at: Coord)

  predicate InGrid<T>(g: seq<seq<T>>, c: Coord) {
    0 <= c.y < |g| && 0 <= c.x < |g[c.y]|
  }

  function Value(g: seq<seq<real>>, c: Coord): real
    requires InGrid(g, c)
  {
    g[c.y][c.x]
  }

  /** The running maximum after visiting `cs` in order, starting from `start`:
      a cell replaces the current peak only when strictly greater (coordinates
      outside `g` are passed over). */
  function ScanMax(g: seq<seq<real>>, cs: seq<Coord>, start: Peak): Peak
  {
    if cs == [] then start
    else
      var p := ScanMax(g, cs[..|cs| - 1], start);
      var c := cs[|cs| - 1];
      if InGrid(g, c) && Value(g, c) > p.value then Peak(Value(g, c), c) else p
  }

  /** The scan ends at the maximum of the start value and every visited value;
      when no visited value beats the start, the start is returned unchanged,
      location included. */
  lemma {:induction false} ScanMaxBounds(g: seq<seq<real>>, cs: seq<Coord>, start: Peak)
    requires forall c :: c in cs ==> InGrid(g, c)
    ensures ScanMax(g, cs, start).value >= start.value
    ensures forall i :: 0 <= i < |cs| ==> Value(g, cs[i]) <= ScanMax(g, cs, start).value
    ensures (forall i :: 0 <= i < |cs| ==> Value(g, cs[i]) <= start.value) ==> ScanMax(g, cs, start) == start
  {
    if cs != [] {
      var n := |cs|;
      var pre := cs[..n - 1];
      assert forall i :: 0 <= i < n - 1 ==> pre[i] == cs[i];
      ScanMaxBounds(g, pre, start);
    }
  }

  /** If some visited value beats the start, the peak sits on the earliest cell
      attaining the maximum (every cell before it is strictly smaller). */
  lemma {:induction false} ScanMaxLocation(g: seq<seq<real>>, cs: seq<Coord>, start: Peak)
    requires forall c :: c in cs ==> InGrid(g, c)
    ensures (exists i :: 0 <= i < |cs| && Value(g, cs[i]) > start.value) ==>
              exists k :: 0 <= k < |cs| && ScanMax(g, cs, start) == Peak(Value(g, cs[k]), cs[k])
                          && Value(g, cs[k]) > start.value
                          && forall i :: 0 <= i < k ==> Value(g, cs[i]) < Value(g, cs[k])
  {
    if cs != [] {
      var n := |cs|;
      var pre := cs[..n - 1];
      var last := cs[n - 1];
      assert forall i :: 0 <= i < n - 1 ==> pre[i] == cs[i];
      ScanMaxBounds(g, pre, start);
      ScanMaxLocation(g, pre, start);
      var q := ScanMax(g, pre, start);
      if Value(g, last) > q.value {
        assert ScanMax(g, cs, start) == Peak(Value(g, cs[n - 1]), cs[n - 1]);
      } else if exists i :: 0 <= i < n && Value(g, cs[i]) > start.value {
        var i :| 0 <= i < n && Value(g, cs[i]) > start.value;
        if i == n - 1 {
          assert q.value > start.value;
          assert exists i :: 0 <= i < n - 1 && Value(g, pre[i]) > start.value;
        } else {
          assert Value(g, pre[i]) > start.value;
        }
        var k :| 0 <= k < n - 1 && q == Peak(Value(g, pre[k]), pre[k]) && Value(g, pre[k]) > start.value
                 && forall i :: 0 <= i < k ==> Value(g, pre[i]) < Value(g, pre[k]);
        assert cs[k] == pre[k];
      }
    }
  }

  /** Visiting one more cell: it becomes the peak only when strictly greater. */
  lemma ScanMaxSnoc(g: seq<seq<real>>, cs: seq<Coord>, c: Coord, start: Peak)
    requires InGrid(g, c)
    ensures ScanMax(g, cs + [c], start)
            == if Value(g, c) > ScanMax(g, cs, start).value then Peak(Value(g, c), c) else ScanMax(g, cs, start)
  {
    assert (cs + [c])[..|cs|] == cs;
  }

  /** Every interior cell has a position in the interior enumeration. */
  lemma InteriorIndexed(h: nat, w: nat, y: int, x: int) returns (i: nat)
    requires Inside(h, w, 1, y, x)
    ensures i < |Cells(1, h - 1, 1, w - 1)| && Cells(1, h - 1, 1, w - 1)[i] == Coord(x, y)
  {
    CellsComplete(1, h - 1, 1, w - 1, Coord(x, y));
    i :| i < |Cells(1, h - 1, 1, w - 1)| && Cells(1, h - 1, 1, w - 1)[i] == Coord(x, y);
  }

  /** An interior cell before the k-th enumerated one sits at an index below k. */
  lemma EarlierIndexed(h: nat, w: nat, k: nat, y: int, x: int) returns (j: nat)
    requires k < |Cells(1, h - 1, 1, w - 1)| && Inside(h, w, 1, y, x)
    requires Before(y, x, Cells(1, h - 1, 1, w - 1)[k].y, Cells(1, h - 1, 1, w - 1)[k].x)
    ensures j < k && Cells(1, h - 1, 1, w - 1)[j] == Coord(x, y)
  {
    j := InteriorIndexed(h, w, y, x);
    CellsSorted(1, h - 1, 1, w - 1);
    SortedIndexOrder(Cells(1, h - 1, 1, w - 1), j, k);
  }

  /** The scan of lines 108-118 over the interior of an h-by-w grid ends at the
      larger of the start value and every interior response: it is at least each
      of them and is the start or some interior response. It keeps the start
      value and location when no interior response beats it. */
  lemma InteriorPeakBounds(g: seq<seq<real>>, h: nat, w: nat, start: Peak)
    requires IsRect(g, h, w)
    ensures var p := ScanMax(g, Cells(1, h - 1, 1, w - 1), start);
            && p.value >= start.value
            && (forall y, x :: Inside(h, w, 1, y, x) ==> g[y][x] <= p.value)
            && ((forall y, x :: Inside(h, w, 1, y, x) ==> g[y][x] <= start.value) ==> p == start)
            && (p == start || exists y, x :: Inside(h, w, 1, y, x) && g[y][x] == p.value)
  {
    var cs := Cells(1, h - 1, 1, w - 1);
    CellsBounds(1, h - 1, 1, w - 1);
    ScanMaxBounds(g, cs, start);
    InteriorPeakLocation(g, h, w, start);
    forall y, x | Inside(h, w, 1, y, x)
      ensures g[y][x] <= ScanMax(g, cs, start).value
    {
      var i := InteriorIndexed(h, w, y, x);
    }
    if forall y, x :: Inside(h, w, 1, y, x) ==> g[y][x] <= start.value {
      forall i | 0 <= i < |cs|
        ensures Value(g, cs[i]) <= start.value
      {
        assert cs[i] in cs;
      }
    }
  }

  /** When some interior response beats the start, the scan stops on the first
      interior cell in row-major order that holds the final maximum. */
  lemma InteriorPeakLocation(g: seq<seq<real>>, h: nat, w: nat, start: Peak)
    requires IsRect(g, h, w)
    ensures var p := ScanMax(g, Cells(1, h - 1, 1, w - 1), start);
            (exists y, x :: Inside(h, w, 1, y, x) && g[y][x] > start.value) ==>
              && Inside(h, w, 1, p.at.y, p.at.x) && g[p.at.y][p.at.x] == p.value && p.value > start.value
              && forall y, x :: Inside(h, w, 1, y, x) && Before(y, x, p.at.y, p.at.x) ==> g[y][x] < p.value
  {
    var cs := Cells(1, h - 1, 1, w - 1);
    var p := ScanMax(g, cs, start);
    CellsBounds(1, h - 1, 1, w - 1);
    if exists y, x :: Inside(h, w, 1, y, x) && g[y][x] > start.value {
      var y, x :| Inside(h, w, 1, y, x) && g[y][x] > start.value;
      var i := InteriorIndexed(h, w, y, x);
      assert Value(g, cs[i]) > start.value;
      ScanMaxLocation(g, cs, start);
      var k :| 0 <= k < |cs| && p == Peak(Value(g, cs[k]), cs[k]) && Value(g, cs[k]) > start.value
               && forall i :: 0 <= i < k ==> Value(g, cs[i]) < Value(g, cs[k]);
      assert cs[k] in cs;
      forall y', x' | Inside(h, w, 1, y', x') && Before(y', x', p.at.y, p.at.x)
        ensures g[y'][x'] < p.value
      {
        var j := EarlierIndexed(h, w, k, y', x');
      }
    }
  }

  // ---------------------------------------------------------------------------
  // cornerResponse_method2

  /** Line 148: a*c - b*b - k*(a + c)*(a + c) with a = gx*gx, b = gx*gy, c = gy*gy. */
  function Method2Response(a: real, b: real, c: real, k: real): real {
    a * c - b * b - k * (a + c) * (a + c)
  }

  /** Lines 143-148: the method-2 response of one pixel, from its own products only. */
  function PixelResponse(gx: int, gy: int, k: real): real {
    var u, v := gx as real, gy as real;
    Method2Response(u * u, u * v, v * v, k)
  }

  /** With a single-pixel window the determinant term a*c - b*b vanishes,
      so the response is -k times the squared trace: never positive when k >= 0. */
  lemma SingleWindowResponse(gx: int, gy: int, k: real)
    ensures var s := (gx * gx + gy * gy) as real;
            PixelResponse(gx, gy, k) == -k * s * s
    ensures k >= 0.0 ==> PixelResponse(gx, gy, k) <= 0.0
  {
    var x, y := gx as real, gy as real;
    var a, b, c := x * x, x * y, y * y;
    var s := (gx * gx + gy * gy) as real;
    assert (gx * gx) as real == x * x && (gy * gy) as real == y * y;
    assert a + c == s;
    assert a * c == b * b by {
      assert a * c == (x * x) * (y * y);
      assert b * b == (x * y) * (x * y);
    }
    assert Method2Response(a, b, c, k) == -k * s * s;
    if k >= 0.0 {
      assert s * s >= 0.0;
      assert k * s * s == k * (s * s);
      assert k * (s * s) >= 0.0;
    }
  }

  /** The product grid `dxdx`, `dxdy` or `dydy`: u*v at interior cells, 0 elsewhere. */
  function ProductGrid(u: seq<seq<int>>, v: seq<seq<int>>, h: nat, w: nat): (p: seq<seq<real>>)
    requires IsRect(u, h, w) && IsRect(v, h, w)
    ensures IsRect(p, h, w)
  {
    seq(h, y requires 0 <= y < h => seq(w, x requires 0 <= x < w =>
      if Inside(h, w, 1, y, x) then (u[y][x] as real) * (v[y][x] as real) else 0.0))
  }

  lemma ProductGridCell(u: seq<seq<int>>, v: seq<seq<int>>, h: nat, w: nat, y: int, x: int)
    requires IsRect(u, h, w) && IsRect(v, h, w) && Inside(h, w, 1, y, x)
    ensures ProductGrid(u, v, h, w)[y][x] == (u[y][x] as real) * (v[y][x] as real)
  {
  }

  /** The response grid method2 writes (interior cells; the border is not written). */
  function Method2Grid(gx: seq<seq<int>>, gy: seq<seq<int>>, h: nat, w: nat, k: real): (g: seq<seq<real>>)
    requires IsRect(gx, h, w) && IsRect(gy, h, w)
    ensures IsRect(g, h, w)
  {
    seq(h, y requires 0 <= y < h => seq(w, x requires 0 <= x < w =>
      if Inside(h, w, 1, y, x)
      then PixelResponse(gx[y][x], gy[y][x], k)
      else 0.0))
  }

  lemma Method2GridCell(gx: seq<seq<int>>, gy: seq<seq<int>>, h: nat, w: nat, k: real, y: int, x: int)
    requires IsRect(gx, h, w) && IsRect(gy, h, w) && Inside(h, w, 1, y, x)
    ensures Method2Grid(gx, gy, h, w, k)[y][x] == PixelResponse(gx[y][x], gy[y][x], k)
  {
  }

  /** Every response method2 writes equals -k (gx^2 + gy^2)^2, and is at most 0 when k >= 0. */
  lemma Method2GridNonPositive(gx: seq<seq<int>>, gy: seq<seq<int>>, h: nat, w: nat, k: real)
    requires IsRect(gx, h, w) && IsRect(gy, h, w)
    ensures forall y, x :: Inside(h, w, 1, y, x) ==>
              var s := (gx[y][x] * gx[y][x] + gy[y][x] * gy[y][x]) as real;
              Method2Grid(gx, gy, h, w, k)[y][x] == -k * s * s
    ensures k >= 0.0 ==> forall y, x :: Inside(h, w, 1, y, x) ==> Method2Grid(gx, gy, h, w, k)[y][x] <= 0.0
  {
    forall y, x | Inside(h, w, 1, y, x)
      ensures var s := (gx[y][x] * gx[y][x] + gy[y][x] * gy[y][x]) as real;
              Method2Grid(gx, gy, h, w, k)[y][x] == -k * s * s
      ensures k >= 0.0 ==> Method2Grid(gx, gy, h, w, k)[y][x] <= 0.0
    {
      var u, v := gx[y][x], gy[y][x];
      SingleWindowResponse(u, v, k);
      Method2GridCell(gx, gy, h, w, k, y, x);
    }
  }

  // ---------------------------------------------------------------------------
  // cornerResponse_method1

  /** Lines 95-97: dx = mag*cos(ori), dy = mag*sin(ori), M = dx*dy at interior cells. */
  function CrossGrid(mag: seq<seq<real>>, ori: seq<seq<real>>, h: nat, w: nat,
                     cos: real -> real, sin: real -> real): (m: seq<seq<real>>)
    requires IsRect(mag, h, w) && IsRect(ori, h, w)
    ensures IsRect(m, h, w)
  {
    seq(h, y requires 0 <= y < h => seq(w, x requires 0 <= x < w =>
      if Inside(h, w, 1, y, x) then (mag[y][x] * cos(ori[y][x])) * (mag[y][x] * sin(ori[y][x])) else 0.0))
  }

  lemma CrossGridCell(mag: seq<seq<real>>, ori: seq<seq<real>>, h: nat, w: nat,
                      cos: real -> real, sin: real -> real, y: int, x: int)
    requires IsRect(mag, h, w) && IsRect(ori, h, w) && Inside(h, w, 1, y, x)
    ensures CrossGrid(mag, ori, h, w, cos, sin)[y][x] == (mag[y][x] * cos(ori[y][x])) * (mag[y][x] * sin(ori[y][x]))
  {
  }

  /** Lines 110-112: det = sM - sMag, trace = sMag + sMag, response = det - k*(trace*trace). */
  function Method1Response(smoothedM: real, smoothedMag: real, k: real): real {
    var det := smoothedM - smoothedMag;
    var trace := smoothedMag + smoothedMag;
    det - k * (trace * trace)
  }

  function Method1Grid(smoothedM: seq<seq<real>>, smoothedMag: seq<seq<real>>, h: nat, w: nat, k: real): (g: seq<seq<real>>)
    requires IsRect(smoothedM, h, w) && IsRect(smoothedMag, h, w)
    ensures IsRect(g, h, w)
  {
    seq(h, y requires 0 <= y < h => seq(w, x requires 0 <= x < w =>
      if Inside(h, w, 1, y, x) then Method1Response(smoothedM[y][x], smoothedMag[y][x], k) else 0.0))
  }

  /** `g` holds the method-1 response at every interior cell. */
  ghost predicate ScoresMethod1(g: seq<seq<real>>, smoothedM: seq<seq<real>>, smoothedMag: seq<seq<real>>, h: nat, w: nat, k: real)
    requires IsRect(smoothedM, h, w) && IsRect(smoothedMag, h, w)
  {
    IsRect(g, h, w)
    && forall y, x :: Inside(h, w, 1, y, x) ==> g[y][x] == Method1Response(smoothedM[y][x], smoothedMag[y][x], k)
  }

  lemma Method1GridScores(smoothedM: seq<seq<real>>, smoothedMag: seq<seq<real>>, h: nat, w: nat, k: real)
    requires IsRect(smoothedM, h, w) && IsRect(smoothedMag, h, w)
    ensures ScoresMethod1(Method1Grid(smoothedM, smoothedMag, h, w, k), smoothedM, smoothedMag, h, w, k)
  {
    forall y, x | Inside(h, w, 1, y, x)
      ensures Method1Grid(smoothedM, smoothedMag, h, w, k)[y][x] == Method1Response(smoothedM[y][x], smoothedMag[y][x], k)
    {
      Method1GridCell(smoothedM, smoothedMag, h, w, k, y, x);
    }
  }

  /** One cell of the loop of lines 107-118: the response is written and the
      running maximum takes one more step. */
  lemma ScoreCell(g: seq<seq<real>>, base: seq<seq<real>>, target: seq<seq<real>>,
                  smoothedM: seq<seq<real>>, smoothedMag: seq<seq<real>>, h: nat, w: nat, k: real,
                  y: int, x: int, start: Peak, peak: Peak)
    requires IsRect(smoothedM, h, w) && IsRect(smoothedMag, h, w)
    requires ScoresMethod1(target, smoothedM, smoothedMag, h, w, k)
    requires FilledUpTo(g, base, target, h, w, 1, y, x) && Inside(h, w, 1, y, x)
    requires peak == ScanMax(target, Visited(1, 1, w - 1, y, x), start)
    ensures var r := Method1Response(smoothedM[y][x], smoothedMag[y][x], k);
            && FilledUpTo(g[y := g[y][x := r]], base, target, h, w, 1, y, x + 1)
            && ScanMax(target, Visited(1, 1, w - 1, y, x + 1), start) == if r > peak.value then Peak(r, Coord(x, y)) else peak
  {
    var seen := Visited(1, 1, w - 1, y, x);
    VisitedStep(seen, 1, 1, w - 1, y, x);
    ScanMaxSnoc(target, seen, Coord(x, y), start);
    FilledStep(g, base, target, h, w, 1, y, x, Method1Response(smoothedM[y][x], smoothedMag[y][x], k));
  }

  lemma Method1GridCell(smoothedM: seq<seq<real>>, smoothedMag: seq<seq<real>>, h: nat, w: nat, k: real, y: int, x: int)
    requires IsRect(smoothedM, h, w) && IsRect(smoothedMag, h, w) && Inside(h, w, 1, y, x)
    ensures Method1Grid(smoothedM, smoothedMag, h, w, k)[y][x] == Method1Response(smoothedM[y][x], smoothedMag[y][x], k)
  {
  }
}
