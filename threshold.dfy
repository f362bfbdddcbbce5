/** Thresholding of the response grid against a fraction of the stored maximum. */
module Threshold {
  import opened Grid

  /** The mask `thresholding` leaves: a cell of `base` is set when its response
      is strictly above `percent * maxResponse`; no cell is ever cleared. */
  function Marked(resp: seq<seq<real>>, percent: real, maxResponse: real, base: seq<seq<bool>>, h: nat, w: nat): (m: seq<seq<bool>>)
    requires IsRect(resp, h, w) && IsRect(base, h, w)
    ensures IsRect(m, h, w)
  {
    seq(h, y requires 0 <= y < h => seq(w, x requires 0 <= x < w => base[y][x] || resp[y][x] > percent * maxResponse))
  }

  lemma MarkedCell(resp: seq<seq<real>>, percent: real, maxResponse: real, base: seq<seq<bool>>, h: nat, w: nat, y: int, x: int)
    requires IsRect(resp, h, w) && IsRect(base, h, w) && 0 <= y < h && 0 <= x < w
    ensures Marked(resp, percent, maxResponse, base, h, w)[y][x] == (base[y][x] || resp[y][x] > percent * maxResponse)
  {
  }

  /** Every cell set in `a` is set in `b`. */
  ghost predicate Within(a: seq<seq<bool>>, b: seq<seq<bool>>, h: nat, w: nat)
    requires IsRect(a, h, w) && IsRect(b, h, w)
  {
    forall y, x :: 0 <= y < h && 0 <= x < w && a[y][x] ==> b[y][x]
  }

  /** On a mask with no cells yet (a fresh detector), the stage marks exactly
      the cells whose response is above the threshold; on any mask it keeps
      every cell that was already set. */
  lemma MarkedCells(resp: seq<seq<real>>, percent: real, maxResponse: real, prior: seq<seq<bool>>, h: nat, w: nat)
    requires IsRect(resp, h, w)
    ensures forall y, x :: 0 <= y < h && 0 <= x < w ==>
              (prior == [] ==> (Marked(resp, percent, maxResponse, Resized(prior, h, w, false), h, w)[y][x]
                               <==> resp[y][x] > percent * maxResponse))
              && (Resized(prior, h, w, false)[y][x] ==> Marked(resp, percent, maxResponse, Resized(prior, h, w, false), h, w)[y][x])
  {
  }

  /** The threshold is `percent * maxResponse`: a lower percentage marks a
      superset when the maximum is non-negative, and a subset when it is negative. */
  lemma LowerPercentage(resp: seq<seq<real>>, high: real, low: real, maxResponse: real, base: seq<seq<bool>>, h: nat, w: nat)
    requires IsRect(resp, h, w) && IsRect(base, h, w) && low <= high
    ensures maxResponse >= 0.0 ==>
              Within(Marked(resp, high, maxResponse, base, h, w), Marked(resp, low, maxResponse, base, h, w), h, w)
    ensures maxResponse < 0.0 ==>
              Within(Marked(resp, low, maxResponse, base, h, w), Marked(resp, high, maxResponse, base, h, w), h, w)
  {
    if maxResponse >= 0.0 {
      assert (high - low) * maxResponse >= 0.0;
    } else {
      assert (high - low) * maxResponse <= 0.0;
    }
    forall y, x | 0 <= y < h && 0 <= x < w
      ensures Marked(resp, high, maxResponse, base, h, w)[y][x] == (base[y][x] || resp[y][x] > high * maxResponse)
      ensures Marked(resp, low, maxResponse, base, h, w)[y][x] == (base[y][x] || resp[y][x] > low * maxResponse)
    {
      MarkedCell(resp, high, maxResponse, base, h, w, y, x);
      MarkedCell(resp, low, maxResponse, base, h, w, y, x);
    }
  }

  /** A cell whose response is 0 (every border cell of a fresh response grid)
      becomes set only when the maximum is negative. */
  lemma ZeroCellMarkedOnlyBelowZero(resp: seq<seq<real>>, percent: real, maxResponse: real,
                                    base: seq<seq<bool>>, h: nat, w: nat, y: nat, x: nat)
    requires IsRect(resp, h, w) && IsRect(base, h, w) && 0.0 < percent
    requires y < h && x < w && resp[y][x] == 0.0 && !base[y][x]
    ensures Marked(resp, percent, maxResponse, base, h, w)[y][x] <==> maxResponse < 0.0
  {
    if maxResponse < 0.0 {
      assert percent * maxResponse < 0.0;
    } else {
      assert percent * maxResponse >= 0.0;
    }
  }

  /** With a percentage below 1, a cell holding a positive maximum is always marked. */
  lemma PeakIsMarked(resp: seq<seq<real>>, percent: real, maxResponse: real,
                     base: seq<seq<bool>>, h: nat, w: nat, y: nat, x: nat)
    requires IsRect(resp, h, w) && IsRect(base, h, w) && percent < 1.0
    requires y < h && x < w && resp[y][x] == maxResponse > 0.0
    ensures Marked(resp, percent, maxResponse, base, h, w)[y][x]
  {
    assert percent * maxResponse < 1.0 * maxResponse;
  }

  /** With a percentage of at least 1 and a non-negative maximum that bounds
      every response, no cell is newly marked: this is why the percentage must lie below 1. */
  lemma FullPercentMarksNothing(resp: seq<seq<real>>, percent: real, maxResponse: real,
                                base: seq<seq<bool>>, h: nat, w: nat)
    requires IsRect(resp, h, w) && IsRect(base, h, w) && percent >= 1.0 && maxResponse >= 0.0
    requires forall y, x :: 0 <= y < h && 0 <= x < w ==> resp[y][x] <= maxResponse
    ensures Marked(resp, percent, maxResponse, base, h, w) == base
  {
    assert percent * maxResponse >= 1.0 * maxResponse;
    var m := Marked(resp, percent, maxResponse, base, h, w);
    forall y | 0 <= y < h ensures m[y] == base[y] {
      forall x | 0 <= x < w ensures m[y][x] == base[y][x] {
        MarkedCell(resp, percent, maxResponse, base, h, w, y, x);
      }
    }
  }
}
