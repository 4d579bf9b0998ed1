/** Row polling of `FitStaffModel`: the model is traced from every row of the
    cleaned image, following the accumulated gradient, and the row is a
    staff line when at least a quarter of the traced points hit ink. On a
    curved model a miss is forgiven when ink lies within `staff_height`
    rows above or below. */
module LinePoll {
  import opened Raster
  import opened Numeric

  /** `MIN_POLL_RATIO_STRAIGHT` and `MIN_POLL_RATIO_CURVED`. */
  const MinPollRatio: nat := 4

  function PrefixSum(g: seq<real>, n: nat): real
    requires n <= |g|
  {
    if n == 0 then 0.0 else PrefixSum(g, n - 1) + g[n - 1]
  }

  /** `estimated_y` after the first `n` gradient entries, from row `y`. */
  function Est(g: seq<real>, y: nat, n: nat): real
    requires n <= |g|
  {
    y as real + PrefixSum(g, n)
  }

  /** The bound check of the trace: points above the image or below row
      `rows` are skipped. */
  predicate Inside(est: real, rows: nat)
  {
    !(est > rows as real || est < 0.0)
  }

  /** The trace from row `y` reads only pixels that exist: the shifted
      column stays inside the image, and a point inside the bound check does
      not round to row `rows`. */
  predicate TraceDefined(img: Grid, g: seq<real>, startCol: nat, y: nat)
    requires WellFormed(img)
  {
    && startCol + |g| <= Width(img)
    && (forall n :: 1 <= n <= |g| && Inside(Est(g, y, n), |img|) ==> Round(Est(g, y, n)) < |img|)
  }

  /** A padding read: rows outside the image read as background. */
  function Ink(img: Grid, row: int, x: nat): bool
  {
    0 <= row < |img| && x < |img[row]| && img[row][x]
  }

  /** The padding loop `for i in 1..staff_height` from offset `i`. */
  function PadHit(img: Grid, est: real, x: nat, h: nat, i: nat): bool
    decreases h + 1 - i
  {
    if i > h then false
    else
      var r := Round(est);
      ((est + i as real < |img| as real || est - i as real >= 0.0) && (Ink(img, r + i, x) || Ink(img, r - i, x)))
      || PadHit(img, est, x, h, i + 1)
  }

  /** Whether the traced point of gradient entry `idx` counts. */
  function Hit(img: Grid, g: seq<real>, startCol: nat, y: nat, idx: nat, straight: bool, h: nat): bool
    requires WellFormed(img) && idx < |g| && TraceDefined(img, g, startCol, y)
  {
    var est := Est(g, y, idx + 1);
    if !Inside(est, |img|) then false
    else
      var x := idx + startCol;
      img[Round(est)][x] || (!straight && PadHit(img, est, x, h, 1))
  }

  /** `poll` after the first `n` gradient entries. */
  function Poll(img: Grid, g: seq<real>, startCol: nat, y: nat, straight: bool, h: nat, n: nat): (p: nat)
    requires WellFormed(img) && n <= |g| && TraceDefined(img, g, startCol, y)
    ensures p <= n
  {
    if n == 0 then 0
    else Poll(img, g, startCol, y, straight, h, n - 1) + (if Hit(img, g, startCol, y, n - 1, straight, h) then 1 else 0)
  }

  /** `is_line`: the same integer ratio in both regimes. */
  function IsLine(poll: nat, nCols: nat): bool
  {
    poll >= nCols / MinPollRatio
  }

  /** The polling loops: one boolean per row of the image. */
  method StaffLines(img: Grid, g: seq<real>, startCol: nat, straight: bool, h: nat) returns (lines: seq<bool>)
    requires WellFormed(img)
    requires forall y :: 0 <= y < |img| ==> TraceDefined(img, g, startCol, y)
    ensures |lines| == |img|
    ensures forall y :: 0 <= y < |img| ==> lines[y] == IsLine(Poll(img, g, startCol, y, straight, h, |g|), |g|)
  {
    lines := [];
    var y := 0;
    while y < |img|
      invariant 0 <= y <= |img|
      invariant |lines| == y
      invariant forall y' :: 0 <= y' < y ==> lines[y'] == IsLine(Poll(img, g, startCol, y', straight, h, |g|), |g|)
    {
      var poll := 0;
      var est := y as real;
      var idx := 0;
      while idx < |g|
        invariant 0 <= idx <= |g|
        invariant est == Est(g, y, idx)
        invariant poll == Poll(img, g, startCol, y, straight, h, idx)
      {
        est := est + g[idx];
        assert est == Est(g, y, idx + 1);
        assert TraceDefined(img, g, startCol, y);
        assert Inside(est, |img|) ==> Round(est) < |img|;
        var x := idx + startCol;
        if est > |img| as real || est < 0.0 {
        } else if img[Round(est)][x] {
          poll := poll + 1;
        } else if !straight {
          var hit := PadLoop(img, est, x, h);
          if hit {
            poll := poll + 1;
          }
        }
        idx := idx + 1;
      }
      lines := lines + [IsLine(poll, |g|)];
      y := y + 1;
    }
  }

  /** The padding loop with its `break`. */
  method PadLoop(img: Grid, est: real, x: nat, h: nat) returns (hit: bool)
    ensures hit == PadHit(img, est, x, h, 1)
  {
    var i := 1;
    while i <= h
      invariant 1 <= i <= h + 1
      invariant PadHit(img, est, x, h, 1) == PadHit(img, est, x, h, i)
    {
      var r := Round(est);
      if est + i as real < |img| as real || est - i as real >= 0.0 {
        if Ink(img, r + i, x) || Ink(img, r - i, x) {
          return true;
        }
      }
      i := i + 1;
    }
    return false;
  }

  /** Ink pixels of row `y` at the shifted columns `startCol .. startCol + n - 1`. */
  function RowInk(row: seq<bool>, startCol: nat, n: nat): nat
    requires startCol + n <= |row|
  {
    if n == 0 then 0 else RowInk(row, startCol, n - 1) + (if row[startCol + n - 1] then 1 else 0)
  }

  lemma {:induction false} ZeroPrefix(g: seq<real>, n: nat)
    requires n <= |g|
    requires forall i :: 0 <= i < |g| ==> g[i] == 0.0
    ensures PrefixSum(g, n) == 0.0
  {
    if n > 0 {
      ZeroPrefix(g, n - 1);
    }
  }

  /** On a straight model (all-zero gradient) the trace from row `y` stays on
      row `y`, so the poll counts the ink pixels of that row at the shifted
      columns. */
  lemma {:induction false} StraightPollCountsRow(img: Grid, g: seq<real>, startCol: nat, y: nat, h: nat, n: nat)
    requires WellFormed(img) && y < |img| && n <= |g|
    requires TraceDefined(img, g, startCol, y)
    requires forall i :: 0 <= i < |g| ==> g[i] == 0.0
    ensures Poll(img, g, startCol, y, true, h, n) == RowInk(img[y], startCol, n)
  {
    if n > 0 {
      StraightPollCountsRow(img, g, startCol, y, h, n - 1);
      ZeroPrefix(g, n);
      assert Round(Est(g, y, n)) == y;
    }
  }

  /** The padding only adds hits: a curved poll is at least the poll of the
      same trace without padding. */
  lemma {:induction false} PaddingOnlyAdds(img: Grid, g: seq<real>, startCol: nat, y: nat, h: nat, n: nat)
    requires WellFormed(img) && n <= |g| && TraceDefined(img, g, startCol, y)
    ensures Poll(img, g, startCol, y, false, h, n) >= Poll(img, g, startCol, y, true, h, n)
  {
    if n > 0 {
      PaddingOnlyAdds(img, g, startCol, y, h, n - 1);
    }
  }

  /** With no padding rows, both regimes poll alike. */
  lemma {:induction false} NoPaddingSamePoll(img: Grid, g: seq<real>, startCol: nat, y: nat, n: nat)
    requires WellFormed(img) && n <= |g| && TraceDefined(img, g, startCol, y)
    ensures Poll(img, g, startCol, y, false, 0, n) == Poll(img, g, startCol, y, true, 0, n)
  {
    if n > 0 {
      NoPaddingSamePoll(img, g, startCol, y, n - 1);
    }
  }

  /** A straight trace always reads existing pixels when the shifted
      columns fit: `Round(y) = y`. */
  lemma StraightTraceDefined(img: Grid, g: seq<real>, startCol: nat, y: nat)
    requires WellFormed(img) && y < |img| && startCol + |g| <= Width(img)
    requires forall i :: 0 <= i < |g| ==> g[i] == 0.0
    ensures TraceDefined(img, g, startCol, y)
  {
    forall n | 1 <= n <= |g|
      ensures Round(Est(g, y, n)) == y
    {
      ZeroPrefix(g, n);
    }
  }
}
