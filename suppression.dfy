/** Non-maximal suppression: the window maximum (accumulated from 0.0 with
    `std::max`), the corner test, and the row-major list of emitted corners. */
module Suppression {
  import opened Grid

  /** `std::max(a, b)`: b when a < b, otherwise a. */
  function StdMax(a: real, b: real): real {
    if a < b then b else a
  }

  /** The accumulator after folding g[yy][x0 .. x0+n-1] into `acc`, left to right. */
  function RowMax(g: seq<seq<real>>, yy: int, x0: int, n: nat, acc: real): real
    requires 0 <= yy < |g| && 0 <= x0 && x0 + n <= |g[yy]|
  {
    if n == 0 then acc else StdMax(RowMax(g, yy, x0, n - 1, acc), g[yy][x0 + n - 1])
  }

  /** The accumulator, started at 0.0, after the first m rows of the side-by-side window at (y0, x0). */
  function WindowRows(g: seq<seq<real>>, h: nat, w: nat, y0: int, x0: int, side: nat, m: nat): real
    requires IsRect(g, h, w) && 0 <= y0 && y0 + m <= h && 0 <= x0 && x0 + side <= w
  {
    if m == 0 then 0.0 else RowMax(g, y0 + m - 1, x0, side, WindowRows(g, h, w, y0, x0, side, m - 1))
  }

  /** Lines 188-193: the maximum over the (2*wo+1)-square window centred on (y, x), floored at 0.0. */
  function WindowMax(g: seq<seq<real>>, h: nat, w: nat, wo: nat, y: int, x: int): real
    requires IsRect(g, h, w) && Inside(h, w, wo, y, x)
  {
    WindowRows(g, h, w, y - wo, x - wo, 2 * wo + 1, 2 * wo + 1)
  }

  lemma {:induction false} RowMaxSpec(g: seq<seq<real>>, yy: int, x0: int, n: nat, acc: real)
    requires 0 <= yy < |g| && 0 <= x0 && x0 + n <= |g[yy]|
    ensures RowMax(g, yy, x0, n, acc) >= acc
    ensures forall xx :: x0 <= xx < x0 + n ==> g[yy][xx] <= RowMax(g, yy, x0, n, acc)
    ensures RowMax(g, yy, x0, n, acc) == acc || exists xx :: x0 <= xx < x0 + n && g[yy][xx] == RowMax(g, yy, x0, n, acc)
  {
    if n > 0 {
      RowMaxSpec(g, yy, x0, n - 1, acc);
    }
  }

  /** The window accumulator is at least 0.0 and at least every window cell,
      and it is either 0.0 or the value of some window cell. */
  lemma {:induction false} WindowRowsSpec(g: seq<seq<real>>, h: nat, w: nat, y0: int, x0: int, side: nat, m: nat)
    requires IsRect(g, h, w) && 0 <= y0 && y0 + m <= h && 0 <= x0 && x0 + side <= w
    ensures WindowRows(g, h, w, y0, x0, side, m) >= 0.0
    ensures forall yy, xx :: y0 <= yy < y0 + m && x0 <= xx < x0 + side ==> g[yy][xx] <= WindowRows(g, h, w, y0, x0, side, m)
    ensures WindowRows(g, h, w, y0, x0, side, m) == 0.0
            || exists yy, xx :: y0 <= yy < y0 + m && x0 <= xx < x0 + side && g[yy][xx] == WindowRows(g, h, w, y0, x0, side, m)
  {
    if m > 0 {
      WindowRowsSpec(g, h, w, y0, x0, side, m - 1);
      RowMaxSpec(g, y0 + m - 1, x0, side, WindowRows(g, h, w, y0, x0, side, m - 1));
    }
  }

  /** (y, x) holds a non-negative response at least every response of its window. */
  predicate LocalMax(g: seq<seq<real>>, h: nat, w: nat, wo: nat, y: int, x: int)
    requires IsRect(g, h, w) && Inside(h, w, wo, y, x)
  {
    g[y][x] >= 0.0 && forall yy, xx :: y - wo <= yy <= y + wo && x - wo <= xx <= x + wo ==> g[yy][xx] <= g[y][x]
  }

  /** A cell is kept exactly when its response is non-negative and at least
      every response in its window (ties survive: the comparison is equality). */
  lemma WindowMaxIff(g: seq<seq<real>>, h: nat, w: nat, wo: nat, y: int, x: int)
    requires IsRect(g, h, w) && Inside(h, w, wo, y, x)
    ensures g[y][x] == WindowMax(g, h, w, wo, y, x) <==>
            g[y][x] >= 0.0 && forall yy, xx :: y - wo <= yy <= y + wo && x - wo <= xx <= x + wo ==> g[yy][xx] <= g[y][x]
  {
    WindowRowsSpec(g, h, w, y - wo, x - wo, 2 * wo + 1, 2 * wo + 1);
  }

  /** Lines 186-196: a candidate, at least wo cells from every edge, that is a
      local maximum of the response (the code tests equality with its window
      maximum; WindowMaxIff shows the two agree). */
  predicate IsCorner(resp: seq<seq<real>>, strong: seq<seq<bool>>, h: nat, w: nat, wo: nat, c: Coord)
    requires IsRect(resp, h, w) && IsRect(strong, h, w)
  {
    Inside(h, w, wo, c.y, c.x) && strong[c.y][c.x] && LocalMax(resp, h, w, wo, c.y, c.x)
  }

  /** The corners among `cs`, in the order of `cs`. */
  function Emitted(resp: seq<seq<real>>, strong: seq<seq<bool>>, h: nat, w: nat, wo: nat, cs: seq<Coord>): seq<Coord>
    requires IsRect(resp, h, w) && IsRect(strong, h, w)
  {
    if cs == [] then []
    else
      var last := cs[|cs| - 1];
      Emitted(resp, strong, h, w, wo, cs[..|cs| - 1]) + if IsCorner(resp, strong, h, w, wo, last) then [last] else []
  }

  /** Considering one more coordinate appends it exactly when it is a corner. */
  lemma EmittedSnoc(resp: seq<seq<real>>, strong: seq<seq<bool>>, h: nat, w: nat, wo: nat, cs: seq<Coord>, c: Coord)
    requires IsRect(resp, h, w) && IsRect(strong, h, w)
    ensures Emitted(resp, strong, h, w, wo, cs + [c])
            == Emitted(resp, strong, h, w, wo, cs) + if IsCorner(resp, strong, h, w, wo, c) then [c] else []
  {
    assert (cs + [c])[..|cs|] == cs;
  }

  /** One step of the pass that appends corners to a list holding `before`
      followed by the corners among `seen`. */
  lemma EmittedStep(resp: seq<seq<real>>, strong: seq<seq<bool>>, h: nat, w: nat, wo: nat,
                    before: seq<Coord>, list: seq<Coord>, seen: seq<Coord>, c: Coord, next: seq<Coord>, keep: bool)
    requires IsRect(resp, h, w) && IsRect(strong, h, w)
    requires list == before + Emitted(resp, strong, h, w, wo, seen) && next == seen + [c]
    requires keep == IsCorner(resp, strong, h, w, wo, c)
    ensures keep ==> list + [c] == before + Emitted(resp, strong, h, w, wo, next)
    ensures !keep ==> list == before + Emitted(resp, strong, h, w, wo, next)
  {
    EmittedSnoc(resp, strong, h, w, wo, seen, c);
    if keep {
      assert list + [c] == before + (Emitted(resp, strong, h, w, wo, seen) + [c]);
    }
  }

  lemma {:induction false} EmittedSpec(resp: seq<seq<real>>, strong: seq<seq<bool>>, h: nat, w: nat, wo: nat, cs: seq<Coord>)
    requires IsRect(resp, h, w) && IsRect(strong, h, w)
    ensures forall c :: c in Emitted(resp, strong, h, w, wo, cs) <==> c in cs && IsCorner(resp, strong, h, w, wo, c)
    ensures StrictlyRowMajor(cs) ==> StrictlyRowMajor(Emitted(resp, strong, h, w, wo, cs))
  {
    if cs != [] {
      var n := |cs|;
      var pre, last := cs[..n - 1], cs[n - 1];
      assert cs == pre + [last];
      EmittedSpec(resp, strong, h, w, wo, pre);
      var e := Emitted(resp, strong, h, w, wo, pre);
      var es := Emitted(resp, strong, h, w, wo, cs);
      assert es == e + if IsCorner(resp, strong, h, w, wo, last) then [last] else [];
      if StrictlyRowMajor(cs) {
        assert StrictlyRowMajor(pre) by {
          forall i, j | 0 <= i < j < |pre| ensures RowMajorLess(pre[i], pre[j]) {
            assert pre[i] == cs[i] && pre[j] == cs[j];
          }
        }
        forall i, j | 0 <= i < j < |es| ensures RowMajorLess(es[i], es[j]) {
          if j < |e| {
            assert es[i] == e[i] && es[j] == e[j];
          } else {
            assert es[i] == e[i] && e[i] in e && es[j] == last;
            var k :| 0 <= k < |pre| && pre[k] == e[i];
            assert cs[k] == pre[k];
          }
        }
      }
    }
  }

  /** The coordinates one call of `nonMaximalSuppression` appends, in row-major order. */
  function Corners(resp: seq<seq<real>>, strong: seq<seq<bool>>, h: nat, w: nat, wo: nat): seq<Coord>
    requires IsRect(resp, h, w) && IsRect(strong, h, w)
  {
    Emitted(resp, strong, h, w, wo, Cells(wo, h - wo, wo, w - wo))
  }

  /** A coordinate is appended exactly when it lies at least wo cells from every
      edge, is a candidate, and is a local maximum of the response. */
  lemma CornerMember(resp: seq<seq<real>>, strong: seq<seq<bool>>, h: nat, w: nat, wo: nat, c: Coord)
    requires IsRect(resp, h, w) && IsRect(strong, h, w)
    ensures c in Corners(resp, strong, h, w, wo) <==>
              Inside(h, w, wo, c.y, c.x) && strong[c.y][c.x] && LocalMax(resp, h, w, wo, c.y, c.x)
  {
    var cs := Cells(wo, h - wo, wo, w - wo);
    EmittedSpec(resp, strong, h, w, wo, cs);
    CellsComplete(wo, h - wo, wo, w - wo, c);
  }

  /** Each coordinate is appended at most once, in row-major order. */
  lemma CornersSorted(resp: seq<seq<real>>, strong: seq<seq<bool>>, h: nat, w: nat, wo: nat)
    requires IsRect(resp, h, w) && IsRect(strong, h, w)
    ensures StrictlyRowMajor(Corners(resp, strong, h, w, wo))
  {
    var cs := Cells(wo, h - wo, wo, w - wo);
    EmittedSpec(resp, strong, h, w, wo, cs);
    CellsSorted(wo, h - wo, wo, w - wo);
  }

  /** The mask `nonMaximalSuppression` leaves: cells of `base` stay as they
      are, and the cell of each emitted corner is set. */
  function Suppressed(resp: seq<seq<real>>, strong: seq<seq<bool>>, base: seq<seq<bool>>, h: nat, w: nat, wo: nat): (m: seq<seq<bool>>)
    requires IsRect(resp, h, w) && IsRect(strong, h, w) && IsRect(base, h, w)
    ensures IsRect(m, h, w)
  {
    var corners := Corners(resp, strong, h, w, wo);
    seq(h, y requires 0 <= y < h => seq(w, x requires 0 <= x < w => base[y][x] || Coord(x, y) in corners))
  }

  /** A cell of the mask is set exactly when it was already set or it is a
      corner; cells closer than wo to an edge are never newly set. */
  lemma SuppressedCell(resp: seq<seq<real>>, strong: seq<seq<bool>>, base: seq<seq<bool>>, h: nat, w: nat, wo: nat,
                       y: int, x: int)
    requires IsRect(resp, h, w) && IsRect(strong, h, w) && IsRect(base, h, w) && 0 <= y < h && 0 <= x < w
    ensures Suppressed(resp, strong, base, h, w, wo)[y][x] == (base[y][x] || IsCorner(resp, strong, h, w, wo, Coord(x, y)))
  {
    CornerMember(resp, strong, h, w, wo, Coord(x, y));
  }

  /** Cells closer than wo to an edge keep their value, whatever the responses. */
  lemma SuppressedBorder(resp: seq<seq<real>>, strong: seq<seq<bool>>, base: seq<seq<bool>>, h: nat, w: nat, wo: nat)
    requires IsRect(resp, h, w) && IsRect(strong, h, w) && IsRect(base, h, w)
    ensures forall y, x :: 0 <= y < h && 0 <= x < w && !Inside(h, w, wo, y, x) ==>
              Suppressed(resp, strong, base, h, w, wo)[y][x] == base[y][x]
  {
    forall y, x | 0 <= y < h && 0 <= x < w && !Inside(h, w, wo, y, x)
      ensures Suppressed(resp, strong, base, h, w, wo)[y][x] == base[y][x]
    {
      SuppressedCell(resp, strong, base, h, w, wo, y, x);
    }
  }

  /** `m` holds, at every cell, its value in `base` or-ed with whether the cell is a corner. */
  ghost predicate MarksCorners(m: seq<seq<bool>>, resp: seq<seq<real>>, strong: seq<seq<bool>>, base: seq<seq<bool>>,
                               h: nat, w: nat, wo: nat)
    requires IsRect(resp, h, w) && IsRect(strong, h, w) && IsRect(base, h, w)
  {
    IsRect(m, h, w)
    && forall y, x {:trigger m[y][x]} :: 0 <= y < h && 0 <= x < w ==>
         m[y][x] == (base[y][x] || IsCorner(resp, strong, h, w, wo, Coord(x, y)))
  }

  lemma SuppressedMarks(resp: seq<seq<real>>, strong: seq<seq<bool>>, base: seq<seq<bool>>, h: nat, w: nat, wo: nat)
    requires IsRect(resp, h, w) && IsRect(strong, h, w) && IsRect(base, h, w)
    ensures MarksCorners(Suppressed(resp, strong, base, h, w, wo), resp, strong, base, h, w, wo)
  {
    forall y, x | 0 <= y < h && 0 <= x < w
      ensures Suppressed(resp, strong, base, h, w, wo)[y][x] == (base[y][x] || IsCorner(resp, strong, h, w, wo, Coord(x, y)))
    {
      SuppressedCell(resp, strong, base, h, w, wo, y, x);
    }
  }

  /** The mask half of one cell of the pass of lines 185-200. */
  lemma SuppressMaskCell(g: seq<seq<bool>>, resp: seq<seq<real>>, strong: seq<seq<bool>>,
                         base: seq<seq<bool>>, target: seq<seq<bool>>, h: nat, w: nat, wo: nat, y: int, x: int, keep: bool)
    requires IsRect(resp, h, w) && IsRect(strong, h, w) && IsRect(base, h, w)
    requires MarksCorners(target, resp, strong, base, h, w, wo)
    requires FilledUpTo(g, base, target, h, w, wo, y, x)
    requires Inside(h, w, wo, y, x) && keep == IsCorner(resp, strong, h, w, wo, Coord(x, y))
    ensures keep ==> FilledUpTo(g[y := g[y][x := true]], base, target, h, w, wo, y, x + 1)
    ensures !keep ==> FilledUpTo(g, base, target, h, w, wo, y, x + 1)
  {
    assert target[y][x] == (base[y][x] || keep);
    if keep {
      FilledStep(g, base, target, h, w, wo, y, x, true);
    } else {
      FilledSkip(g, base, target, h, w, wo, y, x);
    }
  }

  /** The corner-list half of one cell of the pass of lines 185-200. */
  lemma SuppressListCell(list: seq<Coord>, resp: seq<seq<real>>, strong: seq<seq<bool>>, before: seq<Coord>,
                         h: nat, w: nat, wo: nat, y: int, x: int, keep: bool)
    requires IsRect(resp, h, w) && IsRect(strong, h, w)
    requires list == before + Emitted(resp, strong, h, w, wo, Visited(wo, wo, w - wo, y, x))
    requires wo <= x && keep == IsCorner(resp, strong, h, w, wo, Coord(x, y))
    ensures keep ==> list + [Coord(x, y)] == before + Emitted(resp, strong, h, w, wo, Visited(wo, wo, w - wo, y, x + 1))
    ensures !keep ==> list == before + Emitted(resp, strong, h, w, wo, Visited(wo, wo, w - wo, y, x + 1))
  {
    var seen, next := Visited(wo, wo, w - wo, y, x), Visited(wo, wo, w - wo, y, x + 1);
    VisitedStep(seen, wo, wo, w - wo, y, x);
    EmittedStep(resp, strong, h, w, wo, before, list, seen, Coord(x, y), next, keep);
  }

  /** One cell of the row-major pass of lines 185-200: the mask is written and
      the corner list extended exactly when the candidate equals its window maximum. */
  lemma SuppressCell(g: seq<seq<bool>>, list: seq<Coord>, resp: seq<seq<real>>, strong: seq<seq<bool>>,
                     base: seq<seq<bool>>, target: seq<seq<bool>>, before: seq<Coord>,
                     h: nat, w: nat, wo: nat, y: int, x: int, keep: bool)
    requires IsRect(resp, h, w) && IsRect(strong, h, w) && IsRect(base, h, w)
    requires MarksCorners(target, resp, strong, base, h, w, wo)
    requires FilledUpTo(g, base, target, h, w, wo, y, x)
    requires list == before + Emitted(resp, strong, h, w, wo, Visited(wo, wo, w - wo, y, x))
    requires Inside(h, w, wo, y, x) && keep == (strong[y][x] && resp[y][x] == WindowMax(resp, h, w, wo, y, x))
    ensures keep ==> FilledUpTo(g[y := g[y][x := true]], base, target, h, w, wo, y, x + 1)
                     && list + [Coord(x, y)] == before + Emitted(resp, strong, h, w, wo, Visited(wo, wo, w - wo, y, x + 1))
    ensures !keep ==> FilledUpTo(g, base, target, h, w, wo, y, x + 1)
                      && list == before + Emitted(resp, strong, h, w, wo, Visited(wo, wo, w - wo, y, x + 1))
  {
    WindowMaxIff(resp, h, w, wo, y, x);
    SuppressMaskCell(g, resp, strong, base, target, h, w, wo, y, x, keep);
    SuppressListCell(list, resp, strong, before, h, w, wo, y, x, keep);
  }

  /** The end of one row of the pass of lines 185-200: what was established for
      the row's last column holds for the first column of the next row. */
  lemma SuppressRowEnd(g: seq<seq<bool>>, list: seq<Coord>, resp: seq<seq<real>>, strong: seq<seq<bool>>,
                       base: seq<seq<bool>>, target: seq<seq<bool>>, before: seq<Coord>,
                       h: nat, w: nat, wo: nat, y: int, x: int)
    requires IsRect(resp, h, w) && IsRect(strong, h, w)
    requires FilledUpTo(g, base, target, h, w, wo, y, x)
    requires list == before + Emitted(resp, strong, h, w, wo, Visited(wo, wo, w - wo, y, x))
    requires wo <= y && wo <= x && (x == w - wo || (x == wo && w - wo <= wo))
    ensures FilledUpTo(g, base, target, h, w, wo, y + 1, wo)
    ensures list == before + Emitted(resp, strong, h, w, wo, Visited(wo, wo, w - wo, y + 1, wo))
  {
    var seen, next := Visited(wo, wo, w - wo, y, x), Visited(wo, wo, w - wo, y + 1, wo);
    VisitedRow(seen, wo, wo, w - wo, y, x);
    assert seen == next;
    FilledRow(g, base, target, h, w, wo, y, x);
  }

  /** Lines 189-193: fold every window cell into an accumulator started at 0.0. */
  method WindowMaximum(resp: seq<seq<real>>, h: nat, w: nat, wo: nat, y: int, x: int) returns (maxResponse: real)
    requires IsRect(resp, h, w) && Inside(h, w, wo, y, x)
    ensures maxResponse == WindowMax(resp, h, w, wo, y, x)
  {
    maxResponse := 0.0;
    var j: int := -(wo as int);
    while j <= wo
      invariant 0 <= j + wo <= 2 * wo + 1
      invariant maxResponse == WindowRows(resp, h, w, y - wo, x - wo, 2 * wo + 1, j + wo)
    {
      var i: int := -(wo as int);
      while i <= wo
        invariant 0 <= i + wo <= 2 * wo + 1
        invariant maxResponse == RowMax(resp, y + j, x - wo, i + wo, WindowRows(resp, h, w, y - wo, x - wo, 2 * wo + 1, j + wo))
      {
        maxResponse := StdMax(maxResponse, resp[y + j][x + i]);
        i := i + 1;
      }
      j := j + 1;
    }
  }
}
