/** Glyph removal of `GetStaffModel`: in every column, an ink run longer than
    `staff_height + 1` that is followed by background is erased, which
    strips stems, bar lines and other tall symbols and keeps the thin staff
    lines. */
module GlyphRemoval {
  import opened Raster
  import opened Runs

  /** The length bound `T = staff_height + 1`: only runs strictly longer
      are erased. */
  function Threshold(staffHeight: nat): nat
  {
    staffHeight + 1
  }

  /** Row `y` lies in an ink run that is longer than `t` and ends with a
      change to background inside the column. */
  predicate LongInkRun(c: seq<bool>, t: nat, y: nat)
    requires y < |c|
  {
    c[y] && RunEnd(c, y) < |c| && RunEnd(c, y) - RunStart(c, y) > t
  }

  /** The column after removal: every row of a long closed ink run becomes
      background, every other row keeps its value. */
  function Cleared(c: seq<bool>, t: nat): seq<bool>
  {
    seq(|c|, y requires 0 <= y < |c| => c[y] && !LongInkRun(c, t, y))
  }

  /** The scan writes from the row above an erased run, so a long closed
      ink run must not start at row 0 (the write to row -1 is undefined). */
  predicate SafeTop(c: seq<bool>, t: nat)
  {
    |c| == 0 || !LongInkRun(c, t, 0)
  }

  lemma LongRunRows(c: seq<bool>, t: nat, a: nat, b: nat)
    requires IsMaximalRun(c, a, b) && b < |c| && c[a] && b - a > t
    ensures forall k :: a <= k < b ==> LongInkRun(c, t, k)
  {
    forall k | a <= k < b
      ensures LongInkRun(c, t, k)
    {
      MaximalRunBounds(c, a, b, k);
    }
  }

  lemma KeptRunRows(c: seq<bool>, t: nat, a: nat, b: nat)
    requires IsMaximalRun(c, a, b) && !(c[a] && b < |c| && b - a > t)
    ensures forall k :: a <= k < b ==> !LongInkRun(c, t, k)
  {
    forall k | a <= k < b
      ensures !LongInkRun(c, t, k)
    {
      MaximalRunBounds(c, a, b, k);
    }
  }

  /** The inner `for (k = y - 1; k >= y - count - 1; k--)` loop: rows
      `[lo, hi)` become background, nothing else changes. */
  method ClearRows(r0: seq<bool>, lo: nat, hi: nat) returns (r: seq<bool>)
    requires lo <= hi <= |r0|
    ensures |r| == |r0|
    ensures forall j :: lo <= j < hi ==> !r[j]
    ensures forall j :: 0 <= j < |r0| && !(lo <= j < hi) ==> r[j] == r0[j]
  {
    r := r0;
    var k: int := hi - 1;
    while k >= lo
      invariant lo - 1 <= k < hi
      invariant |r| == |r0|
      invariant forall j :: k < j < hi ==> !r[j]
      invariant forall j :: 0 <= j < |r0| && !(k < j < hi) ==> r[j] == r0[j]
    {
      r := r[k := false];
      k := k - 1;
    }
  }

  /** One column of the removal scan. `val` and `count` describe the run
      that contains rows `[y - count, y)`; the rows above it are final. */
  method ClearColumn(c: seq<bool>, staffHeight: nat) returns (r: seq<bool>)
    requires |c| > 0
    requires SafeTop(c, Threshold(staffHeight))
    ensures r == Cleared(c, Threshold(staffHeight))
  {
    var t := Threshold(staffHeight);
    ghost var target := Cleared(c, t);
    r := c;
    var val := c[0];
    var count := 1;
    var y := 1;
    while y < |c|
      invariant 1 <= count <= y <= |c|
      invariant forall k :: y - count <= k < y ==> c[k] == val
      invariant y - count == 0 || c[y - count - 1] != val
      invariant |r| == |c|
      invariant forall k :: 0 <= k < y - count ==> r[k] == target[k]
      invariant forall k :: y - count <= k < |c| ==> r[k] == c[k]
    {
      if val != c[y] {
        var a := y - count;
        if val && count > t {
          LongRunRows(c, t, a, y);
          r := ClearRows(r, a - 1, y);
        } else {
          KeptRunRows(c, t, a, y);
        }
        count := 1;
        val := c[y];
      } else {
        count := count + 1;
      }
      y := y + 1;
    }
    KeptRunRows(c, t, |c| - count, |c|);
  }

  /** The long-run condition on every column of an image. */
  predicate SafeImage(img: Grid, t: nat)
    requires WellFormed(img)
  {
    forall x :: 0 <= x < Width(img) ==> SafeTop(Column(img, x), t)
  }

  /** The image after removal, pixel by pixel. */
  function ClearedImage(img: Grid, t: nat): Grid
    requires WellFormed(img)
  {
    seq(|img|, y requires 0 <= y < |img| =>
      seq(Width(img), x requires 0 <= x < Width(img) => Cleared(Column(img, x), t)[y]))
  }

  /** Column `x` of `g` replaced by `col`. */
  function SetColumn(g: Grid, x: nat, col: seq<bool>): Grid
    requires |col| == |g|
    requires forall y :: 0 <= y < |g| ==> x < |g[y]|
  {
    seq(|g|, y requires 0 <= y < |g| => g[y][x := col[y]])
  }

  /** The removal over all columns, left to right, in place. */
  method RemoveGlyphs(img: Grid, staffHeight: nat) returns (out: Grid)
    requires WellFormed(img)
    requires SafeImage(img, Threshold(staffHeight))
    ensures out == ClearedImage(img, Threshold(staffHeight))
  {
    var t := Threshold(staffHeight);
    var cols := Width(img);
    out := img;
    var x := 0;
    while x < cols
      invariant 0 <= x <= cols
      invariant |out| == |img|
      invariant forall y :: 0 <= y < |img| ==> |out[y]| == cols
      invariant forall y, x' :: 0 <= y < |img| && 0 <= x' < x ==> out[y][x'] == Cleared(Column(img, x'), t)[y]
      invariant forall y, x' :: 0 <= y < |img| && x <= x' < cols ==> out[y][x'] == img[y][x']
    {
      var col := ClearColumn(Column(img, x), staffHeight);
      out := SetColumn(out, x, col);
      x := x + 1;
    }
    assert forall y :: 0 <= y < |img| ==> out[y] == ClearedImage(img, t)[y];
  }

  /** Removal only turns ink into background, and a row changes exactly
      when it lies in a long closed ink run. */
  lemma ClearedOnlyErasesInk(c: seq<bool>, t: nat)
    ensures |Cleared(c, t)| == |c|
    ensures forall y :: 0 <= y < |c| ==> (Cleared(c, t)[y] ==> c[y])
    ensures forall y :: 0 <= y < |c| ==> (Cleared(c, t)[y] != c[y] <==> LongInkRun(c, t, y))
  {
  }

  /** The run that reaches the bottom of the column survives, whatever its
      length. */
  lemma BottomRunSurvives(c: seq<bool>, t: nat)
    ensures forall y :: TailStart(c) <= y < |c| ==> Cleared(c, t)[y] == c[y]
  {
    var a := TailStart(c);
    if a < |c| {
      assert a == 0 || c[a - 1] != c[a];
      KeptRunRows(c, t, a, |c|);
    }
  }

  /** The maximal run of `c` around a surviving ink row is also the maximal
      run of the cleared column around it. */
  lemma SurvivingRunUnchanged(c: seq<bool>, t: nat, y: nat)
    requires y < |c| && c[y] && !LongInkRun(c, t, y)
    ensures var d := Cleared(c, t);
      RunStart(d, y) == RunStart(c, y) && RunEnd(d, y) == RunEnd(c, y)
  {
    var d := Cleared(c, t);
    var a, b := RunStart(c, y), RunEnd(c, y);
    assert IsMaximalRun(c, a, b);
    KeptRunRows(c, t, a, b);
    assert IsMaximalRun(d, a, b);
    MaximalRunBounds(d, a, b, y);
  }

  /** Removal is idempotent: a second pass erases nothing. */
  lemma ClearedIdempotent(c: seq<bool>, t: nat)
    ensures Cleared(Cleared(c, t), t) == Cleared(c, t)
  {
    var d := Cleared(c, t);
    forall y | 0 <= y < |c|
      ensures Cleared(d, t)[y] == d[y]
    {
      if d[y] {
        SurvivingRunUnchanged(c, t, y);
      }
    }
  }

  lemma ClearedImageIdempotent(img: Grid, t: nat)
    requires WellFormed(img)
    ensures WellFormed(ClearedImage(img, t))
    ensures ClearedImage(ClearedImage(img, t), t) == ClearedImage(img, t)
  {
    var d := ClearedImage(img, t);
    assert Width(d) == Width(img) by {
      if |img| > 0 {
        assert |d[0]| == Width(img);
      }
    }
    forall x | 0 <= x < Width(img)
      ensures Cleared(Column(d, x), t) == Column(d, x)
    {
      assert Column(d, x) == Cleared(Column(img, x), t);
      ClearedIdempotent(Column(img, x), t);
    }
    var dd := ClearedImage(d, t);
    forall y | 0 <= y < |img|
      ensures dd[y] == d[y]
    {
      forall x | 0 <= x < Width(img)
        ensures dd[y][x] == d[y][x]
      {
        assert dd[y][x] == Cleared(Column(d, x), t)[y];
      }
    }
  }
}
