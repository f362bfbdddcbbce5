/** Grids as nested sequences (the detector's `std::vector<std::vector<T>>`),
    the `resize` behaviour of those vectors, row-major cell enumerations and
    the bookkeeping shared by every stage's nested loops. */
module Grid {

  /** An 8-bit grayscale intensity. */
  type Pixel = v: int | 0 <= v <= 255

  /** A pixel location: `x` is the column and `y` the row, like the
      detector's `std::pair<int, int>` (first = x, second = y). */
  datatype Coord = Coord(x: int, y: int)

  /** `g` has exactly `h` rows of exactly `w` cells each. */
  ghost predicate IsRect<T>(g: seq<seq<T>>, h: nat, w: nat) {
    |g| == h && forall y :: 0 <= y < h ==> |g[y]| == w
  }

  /** An image or derived grid (PixelGrid, FloatGrid): at least one row, all
      rows as wide as the first. */
  ghost predicate IsImage<T>(image: seq<seq<T>>) {
    |image| > 0 && IsRect(image, |image|, |image[0]|)
  }

  /** Cell (y, x) lies at least `m` cells away from every edge of an h-by-w grid. */
  predicate Inside(h: int, w: int, m: int, y: int, x: int) {
    m <= y < h - m && m <= x < w - m
  }

  /** (yy, xx) comes strictly before (y, x) in row-major order. */
  predicate Before(yy: int, xx: int, y: int, x: int) {
    yy < y || (yy == y && xx < x)
  }

  /** Strict row-major order on coordinates. */
  predicate RowMajorLess(a: Coord, b: Coord) {
    Before(a.y, a.x, b.y, b.x)
  }

  /** Every element precedes every later one in row-major order (so no coordinate repeats). */
  ghost predicate StrictlyRowMajor(cs: seq<Coord>) {
    forall i, j :: 0 <= i < j < |cs| ==> RowMajorLess(cs[i], cs[j])
  }

  // ---------------------------------------------------------------------------
  // std::vector::resize

  /** `row.resize(w, d)`: keeps the first min(|row|, w) cells and pads with `d`. */
  function ResizedRow<T>(row: seq<T>, w: nat, d: T): (r: seq<T>)
    ensures |r| == w
    ensures forall x :: 0 <= x < w ==> r[x] == if x < |row| then row[x] else d
  {
    if w <= |row| then row[..w] else row + seq(w - |row|, _ => d)
  }

  /** `g.resize(h)` (new rows are empty) followed by `row.resize(w, d)` on every row. */
  function Resized<T>(g: seq<seq<T>>, h: nat, w: nat, d: T): (r: seq<seq<T>>)
    ensures IsRect(r, h, w)
    ensures forall y, x :: 0 <= y < h && 0 <= x < w ==>
              r[y][x] == if y < |g| && x < |g[y]| then g[y][x] else d
  {
    seq(h, y requires 0 <= y < h => ResizedRow(if y < |g| then g[y] else [], w, d))
  }

  /** The resize loop every stage starts with:
      `grid.resize(height); for (auto& row : grid) row.resize(width, d);` */
  method ResizeGrid<T>(g: seq<seq<T>>, h: nat, w: nat, d: T) returns (r: seq<seq<T>>)
    ensures r == Resized(g, h, w, d)
  {
    r := if h <= |g| then g[..h] else g + seq(h - |g|, _ => []);
    var i := 0;
    while i < h
      invariant 0 <= i <= h && |r| == h
      invariant forall y :: 0 <= y < i ==> r[y] == ResizedRow(if y < |g| then g[y] else [], w, d)
      invariant forall y :: i <= y < h ==> r[y] == if y < |g| then g[y] else []
    {
      r := r[i := ResizedRow(r[i], w, d)];
      i := i + 1;
    }
    assert forall y :: 0 <= y < h ==> r[y] == Resized(g, h, w, d)[y];
  }

  /** Resizing keeps every cell that already existed and fills the others with
      `d`: it neither clears nor overwrites. On a grid with no cells, every cell becomes `d`. */
  lemma ResizeKeepsExisting<T>(g: seq<seq<T>>, h: nat, w: nat, d: T, y: nat, x: nat)
    requires y < h && x < w
    ensures y < |g| && x < |g[y]| ==> Resized(g, h, w, d)[y][x] == g[y][x]
    ensures !(y < |g| && x < |g[y]|) ==> Resized(g, h, w, d)[y][x] == d
    ensures g == [] ==> Resized(g, h, w, d)[y][x] == d
  {
  }

  // ---------------------------------------------------------------------------
  // A stage's result: cells at margin >= m come from `top`, the rest from `base`

  function Overlay<T>(base: seq<seq<T>>, top: seq<seq<T>>, h: nat, w: nat, m: nat): (r: seq<seq<T>>)
    requires IsRect(base, h, w) && IsRect(top, h, w)
    ensures IsRect(r, h, w)
    ensures forall y, x :: 0 <= y < h && 0 <= x < w ==>
              r[y][x] == if Inside(h, w, m, y, x) then top[y][x] else base[y][x]
  {
    seq(h, y requires 0 <= y < h =>
      seq(w, x requires 0 <= x < w => if Inside(h, w, m, y, x) then top[y][x] else base[y][x]))
  }

  /** A stage whose target already agrees with the base outside the margin yields the target. */
  lemma OverlayIsTop<T>(base: seq<seq<T>>, top: seq<seq<T>>, h: nat, w: nat, m: nat)
    requires IsRect(base, h, w) && IsRect(top, h, w)
    requires forall y, x :: 0 <= y < h && 0 <= x < w && !Inside(h, w, m, y, x) ==> top[y][x] == base[y][x]
    ensures Overlay(base, top, h, w, m) == top
  {
    var o := Overlay(base, top, h, w, m);
    assert forall y :: 0 <= y < h ==> o[y] == top[y];
  }

  /** The state of a grid part-way through a nested `for (y) for (x)` loop over
      the cells at margin >= m: the cells before (y, x) hold `target`, all others `base`. */
  ghost predicate FilledUpTo<T>(g: seq<seq<T>>, base: seq<seq<T>>, target: seq<seq<T>>,
                                h: nat, w: nat, m: nat, y: int, x: int)
  {
    && IsRect(g, h, w) && IsRect(base, h, w) && IsRect(target, h, w)
    && forall yy, xx {:trigger g[yy][xx]} :: 0 <= yy < h && 0 <= xx < w ==>
         g[yy][xx] == if Inside(h, w, m, yy, xx) && Before(yy, xx, y, x) then target[yy][xx] else base[yy][xx]
  }

  lemma FilledStart<T>(base: seq<seq<T>>, target: seq<seq<T>>, h: nat, w: nat, m: nat)
    requires IsRect(base, h, w) && IsRect(target, h, w)
    ensures FilledUpTo(base, base, target, h, w, m, m, m)
  {
  }

  lemma FilledStep<T>(g: seq<seq<T>>, base: seq<seq<T>>, target: seq<seq<T>>,
                      h: nat, w: nat, m: nat, y: int, x: int, v: T)
    requires FilledUpTo(g, base, target, h, w, m, y, x)
    requires Inside(h, w, m, y, x) && v == target[y][x]
    ensures FilledUpTo(g[y := g[y][x := v]], base, target, h, w, m, y, x + 1)
  {
  }

  /** A cell whose target is its base value needs no write. */
  lemma FilledSkip<T>(g: seq<seq<T>>, base: seq<seq<T>>, target: seq<seq<T>>,
                      h: nat, w: nat, m: nat, y: int, x: int)
    requires FilledUpTo(g, base, target, h, w, m, y, x)
    requires Inside(h, w, m, y, x) && base[y][x] == target[y][x]
    ensures FilledUpTo(g, base, target, h, w, m, y, x + 1)
  {
  }

  lemma FilledRow<T>(g: seq<seq<T>>, base: seq<seq<T>>, target: seq<seq<T>>,
                     h: nat, w: nat, m: nat, y: int, x: int)
    requires FilledUpTo(g, base, target, h, w, m, y, x)
    requires w - m <= x
    ensures FilledUpTo(g, base, target, h, w, m, y + 1, m)
  {
  }

  lemma FilledDone<T>(g: seq<seq<T>>, base: seq<seq<T>>, target: seq<seq<T>>,
                      h: nat, w: nat, m: nat, y: int)
    requires FilledUpTo(g, base, target, h, w, m, y, m)
    requires h - m <= y
    ensures g == Overlay(base, target, h, w, m)
  {
    var o := Overlay(base, target, h, w, m);
    assert forall yy :: 0 <= yy < h ==> g[yy] == o[yy];
  }

  // ---------------------------------------------------------------------------
  // Row-major enumeration of the cells a nested loop visits

  /** Row y, columns x0 .. x1-1, left to right. */
  function RowCells(y: int, x0: int, x1: int): seq<Coord>
    decreases x1 - x0
  {
    if x1 <= x0 then [] else RowCells(y, x0, x1 - 1) + [Coord(x1 - 1, y)]
  }

  /** Rows y0 .. y1-1, each over columns x0 .. x1-1, in row-major order. */
  function Cells(y0: int, y1: int, x0: int, x1: int): seq<Coord>
    decreases y1 - y0
  {
    if y1 <= y0 then [] else Cells(y0, y1 - 1, x0, x1) + RowCells(y1 - 1, x0, x1)
  }

  lemma {:induction false} RowCellsBounds(y: int, x0: int, x1: int)
    ensures forall c :: c in RowCells(y, x0, x1) ==> c.y == y && x0 <= c.x < x1
    decreases x1 - x0
  {
    if x0 < x1 {
      RowCellsBounds(y, x0, x1 - 1);
    }
  }

  /** Every enumerated cell lies in the rectangle. */
  lemma {:induction false} CellsBounds(y0: int, y1: int, x0: int, x1: int)
    ensures forall c :: c in Cells(y0, y1, x0, x1) ==> y0 <= c.y < y1 && x0 <= c.x < x1
    decreases y1 - y0
  {
    if y0 < y1 {
      CellsBounds(y0, y1 - 1, x0, x1);
      RowCellsBounds(y1 - 1, x0, x1);
    }
  }

  lemma {:induction false} RowCellsComplete(y: int, x0: int, x1: int, x: int)
    requires x0 <= x < x1
    ensures Coord(x, y) in RowCells(y, x0, x1)
    decreases x1 - x0
  {
    if x < x1 - 1 {
      RowCellsComplete(y, x0, x1 - 1, x);
    }
  }

  /** The enumeration visits exactly the cells of the rectangle. */
  lemma {:induction false} CellsComplete(y0: int, y1: int, x0: int, x1: int, c: Coord)
    ensures c in Cells(y0, y1, x0, x1) <==> y0 <= c.y < y1 && x0 <= c.x < x1
    decreases y1 - y0
  {
    CellsBounds(y0, y1, x0, x1);
    if y0 <= c.y < y1 && x0 <= c.x < x1 {
      if c.y == y1 - 1 {
        RowCellsComplete(c.y, x0, x1, c.x);
      } else {
        CellsComplete(y0, y1 - 1, x0, x1, c);
      }
    }
  }

  lemma {:induction false} RowCellsSorted(y: int, x0: int, x1: int)
    ensures StrictlyRowMajor(RowCells(y, x0, x1))
    decreases x1 - x0
  {
    if x0 < x1 {
      RowCellsSorted(y, x0, x1 - 1);
      RowCellsBounds(y, x0, x1 - 1);
      var cs := RowCells(y, x0, x1);
      var pre := RowCells(y, x0, x1 - 1);
      forall i, j | 0 <= i < j < |cs|
        ensures RowMajorLess(cs[i], cs[j])
      {
        if j < |pre| {
          assert cs[i] == pre[i] && cs[j] == pre[j];
        } else {
          assert cs[i] == pre[i] && pre[i] in pre;
        }
      }
    }
  }

  /** The enumeration is strictly increasing in row-major order: no cell is visited twice. */
  lemma {:induction false} CellsSorted(y0: int, y1: int, x0: int, x1: int)
    ensures StrictlyRowMajor(Cells(y0, y1, x0, x1))
    decreases y1 - y0
  {
    if y0 < y1 {
      CellsSorted(y0, y1 - 1, x0, x1);
      RowCellsSorted(y1 - 1, x0, x1);
      CellsBounds(y0, y1 - 1, x0, x1);
      RowCellsBounds(y1 - 1, x0, x1);
      var pre := Cells(y0, y1 - 1, x0, x1);
      var row := RowCells(y1 - 1, x0, x1);
      var cs := pre + row;
      forall i, j | 0 <= i < j < |cs|
        ensures RowMajorLess(cs[i], cs[j])
      {
        if j < |pre| {
          assert cs[i] == pre[i] && cs[j] == pre[j];
        } else if i >= |pre| {
          assert cs[i] == row[i - |pre|] && cs[j] == row[j - |pre|];
        } else {
          assert cs[i] == pre[i] && pre[i] in pre;
          assert cs[j] == row[j - |pre|] && row[j - |pre|] in row;
        }
      }
    }
  }

  /** In a strictly row-major sequence, an earlier cell sits at an earlier index. */
  lemma SortedIndexOrder(cs: seq<Coord>, i: int, j: int)
    requires StrictlyRowMajor(cs) && 0 <= i < |cs| && 0 <= j < |cs| && RowMajorLess(cs[i], cs[j])
    ensures i < j
  {
  }

  /** What a row-major loop has visited when it is about to process (y, x):
      full rows y0 .. y-1 and columns x0 .. x-1 of row y. */
  function Visited(y0: int, x0: int, x1: int, y: int, x: int): seq<Coord> {
    Cells(y0, y, x0, x1) + RowCells(y, x0, x)
  }

  /** Visiting (y, x) extends what has been visited by that one cell. */
  lemma VisitedStep(seen: seq<Coord>, y0: int, x0: int, x1: int, y: int, x: int)
    requires seen == Visited(y0, x0, x1, y, x) && x0 <= x
    ensures seen + [Coord(x, y)] == Visited(y0, x0, x1, y, x + 1)
  {
    assert RowCells(y, x0, x + 1) == RowCells(y, x0, x) + [Coord(x, y)];
  }

  /** At the end of a row, what has been visited is the full rows so far. */
  lemma VisitedRow(seen: seq<Coord>, y0: int, x0: int, x1: int, y: int, x: int)
    requires seen == Visited(y0, x0, x1, y, x)
    requires y0 <= y && x0 <= x && (x == x1 || (x == x0 && x1 <= x0))
    ensures seen == Visited(y0, x0, x1, y + 1, x0)
  {
    assert RowCells(y, x0, x) == RowCells(y, x0, x1);
    assert RowCells(y + 1, x0, x0) == [];
  }

  /** When the outer loop ends, every cell of the rectangle has been visited, in order. */
  lemma VisitedDone(seen: seq<Coord>, y0: int, x0: int, x1: int, y: int, y1: int)
    requires seen == Visited(y0, x0, x1, y, x0)
    requires y0 <= y && (y == y1 || (y == y0 && y1 <= y0))
    ensures seen == Cells(y0, y1, x0, x1)
  {
    assert RowCells(y, x0, x0) == [];
  }
}
