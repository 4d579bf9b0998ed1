/** The binarised page as the C++ core sees it after OpenCV has thresholded,
    rotated and cropped it: a grid of rows, `true` where there is ink. */
module Raster {

  type Grid = seq<seq<bool>>

  /** Every row has `cols` samples. */
  predicate IsRect(img: Grid, cols: nat)
  {
    forall y :: 0 <= y < |img| ==> |img[y]| == cols
  }

  function Width(img: Grid): nat
  {
    if |img| == 0 then 0 else |img[0]|
  }

  predicate WellFormed(img: Grid)
  {
    IsRect(img, Width(img))
  }

  /** Column `x`, read top to bottom. */
  function Column(img: Grid, x: nat): (c: seq<bool>)
    requires forall y :: 0 <= y < |img| ==> x < |img[y]|
    ensures |c| == |img|
    ensures forall y :: 0 <= y < |img| ==> c[y] == img[y][x]
  {
    seq(|img|, y requires 0 <= y < |img| => img[y][x])
  }
}

/** Runs of equal samples along one column, the structure shared by the
    run-length statistics, the glyph remover and the component search. */
module Runs {

  /** A run of `len` equal samples starting at row `start`. */
  datatype Run = Run(ink: bool, start: nat, len: nat)

  /** End (exclusive) of the maximal constant run that contains row `y`. */
  function RunEnd(c: seq<bool>, y: nat): (b: nat)
    requires y < |c|
    ensures y < b <= |c|
    ensures forall k :: y <= k < b ==> c[k] == c[y]
    ensures b < |c| ==> c[b] != c[y]
    decreases |c| - y
  {
    if y + 1 == |c| || c[y + 1] != c[y] then y + 1 else RunEnd(c, y + 1)
  }

  /** First row of the maximal constant run that contains row `y`. */
  function RunStart(c: seq<bool>, y: nat): (a: nat)
    requires y < |c|
    ensures a <= y
    ensures forall k :: a <= k <= y ==> c[k] == c[y]
    ensures a > 0 ==> c[a - 1] != c[y]
  {
    if y == 0 || c[y - 1] != c[y] then y else RunStart(c, y - 1)
  }

  /** `[a, b)` is a maximal constant run of `c`. */
  predicate IsMaximalRun(c: seq<bool>, a: nat, b: nat)
  {
    && a < b <= |c|
    && (forall k :: a <= k < b ==> c[k] == c[a])
    && (a == 0 || c[a - 1] != c[a])
    && (b == |c| || c[b] != c[a])
  }

  /** Every row of a maximal run has that run as its own. */
  lemma MaximalRunBounds(c: seq<bool>, a: nat, b: nat, k: nat)
    requires IsMaximalRun(c, a, b) && a <= k < b
    ensures RunStart(c, k) == a && RunEnd(c, k) == b
  {
  }

  /** A run closed by a change of polarity: it lies inside the column and
      the row after it differs. */
  predicate IsClosedRun(c: seq<bool>, r: Run)
  {
    && r.len >= 1
    && r.start + r.len < |c|
    && (forall k :: r.start <= k < r.start + r.len ==> c[k] == r.ink)
    && c[r.start + r.len] != r.ink
  }

  /** Where the run that reaches the bottom of the column starts, scanning
      from row `a`. */
  function TailFrom(c: seq<bool>, a: nat): (t: nat)
    requires a <= |c|
    ensures a <= t <= |c|
    ensures a < |c| ==> t < |c|
    ensures t < |c| ==> forall k :: t <= k < |c| ==> c[k] == c[t]
    ensures a < t ==> c[t - 1] != c[t]
    decreases |c| - a
  {
    if a == |c| then a
    else
      var b := RunEnd(c, a);
      if b == |c| then a else TailFrom(c, b)
  }

  /** The runs the scanner of the C++ core records, scanning down from row
      `a`: every run ended by a polarity change. The run that reaches the
      bottom of the column is never recorded. */
  function ClosedRunsFrom(c: seq<bool>, a: nat): seq<Run>
    requires a <= |c|
    decreases |c| - a
  {
    if a == |c| then []
    else
      var b := RunEnd(c, a);
      if b == |c| then [] else [Run(c[a], a, b - a)] + ClosedRunsFrom(c, b)
  }

  /** Runs closed by a polarity change that follow one another without gaps
      from row `a` up to row `t`. */
  predicate RunsChain(c: seq<bool>, a: nat, t: nat, runs: seq<Run>)
  {
    && (forall i :: 0 <= i < |runs| ==> IsClosedRun(c, runs[i]))
    && (|runs| > 0 ==> runs[0].start == a)
    && (forall i :: 0 <= i < |runs| - 1 ==> runs[i + 1].start == runs[i].start + runs[i].len)
    && (|runs| > 0 ==> runs[|runs| - 1].start + runs[|runs| - 1].len == t)
    && (|runs| == 0 ==> t == a)
  }

  lemma ChainCons(c: seq<bool>, r: Run, t: nat, rest: seq<Run>)
    requires IsClosedRun(c, r) && RunsChain(c, r.start + r.len, t, rest)
    ensures RunsChain(c, r.start, t, [r] + rest)
  {
    var runs := [r] + rest;
    assert runs[0] == r;
    assert forall i :: 1 <= i < |runs| ==> runs[i] == rest[i - 1];
  }

  /** Every recorded run is closed by a polarity change, the runs follow one
      another without gaps from row `a`, and the last one ends where the
      bottom run starts. */
  lemma {:induction false} ClosedRunsShape(c: seq<bool>, a: nat)
    requires a <= |c|
    ensures RunsChain(c, a, TailFrom(c, a), ClosedRunsFrom(c, a))
    decreases |c| - a
  {
    if a < |c| && RunEnd(c, a) < |c| {
      var b := RunEnd(c, a);
      ClosedRunsShape(c, b);
      var r := Run(c[a], a, b - a);
      assert IsClosedRun(c, r);
      assert ClosedRunsFrom(c, a) == [r] + ClosedRunsFrom(c, b);
      assert TailFrom(c, a) == TailFrom(c, b);
      ChainCons(c, r, TailFrom(c, b), ClosedRunsFrom(c, b));
    }
  }

  function ClosedRuns(c: seq<bool>): seq<Run>
  {
    ClosedRunsFrom(c, 0)
  }

  function TailStart(c: seq<bool>): nat
    ensures TailStart(c) <= |c|
  {
    TailFrom(c, 0)
  }

  function SumLens(runs: seq<Run>): nat
  {
    if |runs| == 0 then 0 else SumLens(runs[..|runs| - 1]) + runs[|runs| - 1].len
  }

  /** The recorded lengths of a column tile it from the top down to the row
      of its last polarity change; what lies below that row is one run. */
  lemma {:induction false} ClosedRunsTile(c: seq<bool>, a: nat)
    requires a <= |c|
    ensures SumLens(ClosedRunsFrom(c, a)) == TailFrom(c, a) - a
    decreases |c| - a
  {
    var runs := ClosedRunsFrom(c, a);
    if a < |c| && RunEnd(c, a) < |c| {
      var b := RunEnd(c, a);
      ClosedRunsTile(c, b);
      SumLensCons(Run(c[a], a, b - a), ClosedRunsFrom(c, b));
    }
  }

  lemma {:induction false} SumLensCons(r: Run, rs: seq<Run>)
    ensures SumLens([r] + rs) == r.len + SumLens(rs)
    decreases |rs|
  {
    if |rs| == 0 {
      assert [r] + rs == [r];
      assert ([r] + rs)[..0] == [];
    } else {
      var rs' := rs[..|rs| - 1];
      assert ([r] + rs)[..|rs|] == [r] + rs';
      SumLensCons(r, rs');
    }
  }

  /** The whole column: the last polarity change is at `TailStart`, and the
      recorded lengths add up to that row. */
  lemma ColumnRunsSum(c: seq<bool>)
    ensures SumLens(ClosedRuns(c)) == TailStart(c)
    ensures TailStart(c) > 0 ==> c[TailStart(c) - 1] != c[TailStart(c)]
    ensures TailStart(c) < |c| ==> forall k :: TailStart(c) <= k < |c| ==> c[k] == c[TailStart(c)]
  {
    ClosedRunsTile(c, 0);
    ClosedRunsShape(c, 0);
  }

  /** Splitting off the first run, once the scanner knows where it ends. */
  lemma ClosedRunsStep(c: seq<bool>, a: nat, b: nat)
    requires IsMaximalRun(c, a, b) && b < |c|
    ensures ClosedRunsFrom(c, a) == [Run(c[a], a, b - a)] + ClosedRunsFrom(c, b)
  {
    MaximalRunBounds(c, a, b, a);
  }

  /** The run that reaches the bottom is not recorded. */
  lemma ClosedRunsLast(c: seq<bool>, a: nat)
    requires IsMaximalRun(c, a, |c|)
    ensures ClosedRunsFrom(c, a) == []
  {
    MaximalRunBounds(c, a, |c|, a);
  }
}
