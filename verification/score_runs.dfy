/** The column-run helpers of the DeepScores `Score` class: the runs of a
    boolean column profile (`_1d_connected_comp`), the merge of runs
    separated by small gaps (`_1d_merge_cc`) and the width filter
    (`filter_cc`). A run is an inclusive pair `(begin, end)`. */
module ScoreRuns {
  import opened Wrappers

  /** The first index at or after `i` holding `v`, or `|arr|`. */
  function FirstFrom(arr: seq<bool>, i: nat, v: bool): (k: nat)
    requires i <= |arr|
    ensures i <= k <= |arr|
    ensures k < |arr| ==> arr[k] == v
    ensures forall j :: i <= j < k ==> arr[j] != v
    decreases |arr| - i
  {
    if i == |arr| then i else if arr[i] == v then i else FirstFrom(arr, i + 1, v)
  }

  /** `np.argmax(arr[i:]) + i` on a boolean array: the first index at or
      after `i` holding `v`, and `i` itself when there is none. */
  function ArgMaxFrom(arr: seq<bool>, i: nat, v: bool): (k: nat)
    requires i < |arr|
    ensures i <= k < |arr|
  {
    var f := FirstFrom(arr, i, v);
    if f < |arr| then f else i
  }

  /** The loop of `_1d_connected_comp` from `i`: the run beginning at the
      first set entry, ending before the next clear one. A pair whose end
      lies before its beginning is appended and stops the loop. */
  function RunsFrom(arr: seq<bool>, i: nat): (cc: seq<(int, int)>)
    requires i < |arr|
    decreases |arr| - i
  {
    var beg := ArgMaxFrom(arr, i, true);
    var end := ArgMaxFrom(arr, beg, false) - 1;
    if beg <= end then [(beg as int, end)] + RunsFrom(arr, end + 1)
    else [(beg as int, end)]
  }

  /** `_1d_connected_comp(arr)`; `np.argmax` of an empty array is a
      `ValueError`. */
  function ConnectedComp(arr: seq<bool>): (r: Result<seq<(int, int)>>)
    ensures r.Ok? <==> |arr| > 0
  {
    if |arr| == 0 then Err(ValueError) else Ok(RunsFrom(arr, 0))
  }

  /** A maximal run of set entries `[b, e]` that a clear entry follows. */
  predicate ClosedRun(arr: seq<bool>, b: int, e: int)
  {
    && 0 <= b <= e && e + 1 < |arr|
    && (forall k :: b <= k <= e ==> arr[k])
    && !arr[e + 1]
    && (b == 0 || !arr[b - 1])
  }

  /** Some entry after `x` is clear. */
  predicate ClearAfter(arr: seq<bool>, x: int)
  {
    exists y :: 0 <= y < |arr| && x < y && !arr[y]
  }

  predicate Covers(cc: seq<(int, int)>, k: int, x: int)
  {
    0 <= k < |cc| && cc[k].0 <= x <= cc[k].1
  }

  /** The shape of the pairs reported from `i`: all but the last are the
      maximal runs of set entries closed by a clear entry, beginnings lie in
      `[i, |arr|)` and increase, and the last pair is `(b, b - 1)`. */
  predicate RunsShaped(arr: seq<bool>, i: nat, cc: seq<(int, int)>)
  {
    && |cc| >= 1
    && cc[|cc| - 1].1 == cc[|cc| - 1].0 - 1
    && (forall k :: 0 <= k < |cc| ==> i <= cc[k].0 < |arr|)
    && (forall k :: 0 <= k < |cc| - 1 ==> ClosedRun(arr, cc[k].0, cc[k].1))
    && (forall k, l :: 0 <= k < l < |cc| ==> cc[k].0 < cc[l].0)
  }

  /** Every set entry from `i` that a clear entry follows lies in one of the
      reported runs other than the last pair. */
  ghost predicate RunsCover(arr: seq<bool>, i: nat, cc: seq<(int, int)>)
  {
    forall x :: i <= x < |arr| && arr[x] && ClearAfter(arr, x) ==> exists k :: Covers(cc, k, x) && k < |cc| - 1
  }

  /** No entry in `[i, beg)` is set. */
  predicate ClearBetween(arr: seq<bool>, i: nat, beg: nat)
  {
    forall x :: i <= x < beg && x < |arr| ==> !arr[x]
  }

  lemma ShapedCons(arr: seq<bool>, i: nat, beg: nat, end: int, rest: seq<(int, int)>)
    requires i <= beg && ClosedRun(arr, beg, end) && RunsShaped(arr, end + 1, rest)
    ensures RunsShaped(arr, i, [(beg as int, end)] + rest)
  {
  }

  lemma CoverCons(arr: seq<bool>, i: nat, beg: nat, end: int, rest: seq<(int, int)>)
    requires beg <= end && end + 1 < |arr| && |rest| >= 1 && RunsCover(arr, end + 1, rest)
    requires ClearBetween(arr, i, beg)
    ensures RunsCover(arr, i, [(beg as int, end)] + rest)
  {
    var cc := [(beg as int, end)] + rest;
    forall x | i <= x < |arr| && arr[x] && ClearAfter(arr, x)
      ensures exists k :: Covers(cc, k, x) && k < |cc| - 1
    {
      if x <= end {
        assert beg <= x;
        assert Covers(cc, 0, x) && 0 < |cc| - 1;
      } else {
        assert end + 1 <= x;
        var k :| Covers(rest, k, x) && k < |rest| - 1;
        assert cc[k + 1] == rest[k];
        assert Covers(cc, k + 1, x);
      }
    }
  }

  /** The runs reported from `i` are shaped and cover the closed runs. */
  lemma {:induction false} RunsFromShape(arr: seq<bool>, i: nat)
    requires i < |arr| && (i == 0 || !arr[i])
    ensures RunsShaped(arr, i, RunsFrom(arr, i))
    ensures RunsCover(arr, i, RunsFrom(arr, i))
    decreases |arr| - i, 1
  {
    var beg := ArgMaxFrom(arr, i, true);
    var end := ArgMaxFrom(arr, beg, false) - 1;
    if beg <= end {
      RunsFromContinue(arr, i);
    } else {
      assert RunsFrom(arr, i) == [(beg as int, end)];
      NothingClosedFrom(arr, i);
    }
  }

  /** The step of `RunsFromShape` past a closed run. */
  lemma {:induction false} RunsFromContinue(arr: seq<bool>, i: nat)
    requires i < |arr| && (i == 0 || !arr[i])
    requires ArgMaxFrom(arr, i, true) <= ArgMaxFrom(arr, ArgMaxFrom(arr, i, true), false) - 1
    ensures RunsShaped(arr, i, RunsFrom(arr, i))
    ensures RunsCover(arr, i, RunsFrom(arr, i))
    decreases |arr| - i, 0
  {
    var beg, end := FirstRunClosed(arr, i);
    var next: nat := end + 1;
    var rest := RunsFrom(arr, next);
    assert RunsFrom(arr, i) == [(beg as int, end)] + rest;
    RunsFromShape(arr, next);
    ShapedCons(arr, i, beg, end, rest);
    CoverCons(arr, i, beg, end, rest);
  }

  /** A pair the loop continues after is a closed run, with nothing set
      before it. */
  lemma FirstRunClosed(arr: seq<bool>, i: nat) returns (beg: nat, end: int)
    requires i < |arr| && (i == 0 || !arr[i])
    requires ArgMaxFrom(arr, i, true) <= ArgMaxFrom(arr, ArgMaxFrom(arr, i, true), false) - 1
    ensures beg == ArgMaxFrom(arr, i, true) && end == ArgMaxFrom(arr, beg, false) - 1
    ensures i <= beg <= end && ClosedRun(arr, beg, end) && ClearBetween(arr, i, beg)
  {
    beg := ArgMaxFrom(arr, i, true);
    end := ArgMaxFrom(arr, beg, false) - 1;
    var t := FirstFrom(arr, i, true);
    assert t < |arr|;
    var f := FirstFrom(arr, t, false);
    assert f < |arr|;
  }


  /** When the loop stops at once, no set entry from `i` is followed by a
      clear one. */
  lemma NothingClosedFrom(arr: seq<bool>, i: nat)
    requires i < |arr|
    requires ArgMaxFrom(arr, i, true) > ArgMaxFrom(arr, ArgMaxFrom(arr, i, true), false) - 1
    ensures forall x :: i <= x < |arr| && arr[x] ==> !ClearAfter(arr, x)
  {
    var t := FirstFrom(arr, i, true);
    if t < |arr| {
      var f := FirstFrom(arr, t, false);
      assert f != t;
      assert f == |arr|;
    }
  }

  /** `_1d_connected_comp` on a non-empty profile: see `RunsFromShape`. */
  lemma ConnectedCompShape(arr: seq<bool>)
    requires |arr| > 0
    ensures RunsShaped(arr, 0, ConnectedComp(arr).value)
    ensures RunsCover(arr, 0, ConnectedComp(arr).value)
  {
    RunsFromShape(arr, 0);
  }

  /** A profile set up to its end reports its final run as the empty pair:
      `[F, T, T]` gives `[(1, 0)]`. */
  lemma TrailingRunDropped()
    ensures ConnectedComp([false, true, true]) == Ok([(1, 0)])
  {
    assert FirstFrom([false, true, true], 0, true) == 1;
    assert FirstFrom([false, true, true], 1, false) == 3;
  }

  /** The gap between run `k` and run `k + 1`, compared with a float
      threshold. */
  function Gap(cc: seq<(int, int)>, k: nat): real
    requires k + 1 < |cc|
  {
    (cc[k + 1].0 - cc[k].1) as real
  }

  /** The inner loop of `_1d_merge_cc` from run `i`: the index of the last
      run merged into the chain; the chain reaching the last run stops with
      the `break`. */
  function Chain(cc: seq<(int, int)>, threshold: real, i: nat): (b: nat)
    requires i + 1 < |cc|
    ensures i <= b < |cc|
    ensures JoinedRange(cc, threshold, i, b)
    ensures b + 1 < |cc| ==> Gap(cc, b) > threshold
    ensures b + 1 == |cc| ==> i < b
    decreases |cc| - i
  {
    if Gap(cc, i) <= threshold then
      if i == |cc| - 2 then i + 1 else Chain(cc, threshold, i + 1)
    else i
  }

  /** The outer loop of `_1d_merge_cc` from run `i`: the index ranges of the
      merged runs. */
  function Spans(cc: seq<(int, int)>, threshold: real, i: nat): (sp: seq<(nat, nat)>)
    ensures forall k :: 0 <= k < |sp| ==> i <= sp[k].0 <= sp[k].1 < |cc|
    decreases |cc| - i
  {
    if i + 1 >= |cc| then []
    else
      var b := Chain(cc, threshold, i);
      [(i, b)] + Spans(cc, threshold, b + 1)
  }

  /** `_1d_merge_cc(cc, threshold)`. */
  function MergeCC(cc: seq<(int, int)>, threshold: real): (r: seq<(int, int)>)
  {
    if |cc| == 1 then cc
    else
      var sp := Spans(cc, threshold, 0);
      seq(|sp|, k requires 0 <= k < |sp| => (cc[sp[k].0].0, cc[sp[k].1].1))
  }

  /** Index ranges inside the runs, each starting right after the previous
      one ends. */
  predicate Contiguous(cc: seq<(int, int)>, sp: seq<(nat, nat)>)
  {
    && (forall k :: 0 <= k < |sp| ==> sp[k].0 <= sp[k].1 < |cc|)
    && (forall k :: 0 <= k < |sp| - 1 ==> sp[k + 1].0 == sp[k].1 + 1)
  }

  /** Runs `a` to `b` are joined: every gap between them is at most the
      threshold. */
  predicate JoinedRange(cc: seq<(int, int)>, threshold: real, a: nat, b: nat)
  {
    b < |cc| && forall j :: a <= j < b ==> Gap(cc, j) <= threshold
  }

  /** Every range joins runs whose gaps are at most the threshold. */
  predicate Joined(cc: seq<(int, int)>, threshold: real, sp: seq<(nat, nat)>)
  {
    forall k :: 0 <= k < |sp| ==> JoinedRange(cc, threshold, sp[k].0, sp[k].1)
  }

  /** Every range is followed by a gap above the threshold, unless it ends
      at the last run. */
  predicate Separated(cc: seq<(int, int)>, threshold: real, sp: seq<(nat, nat)>)
  {
    forall k :: 0 <= k < |sp| && sp[k].1 + 1 < |cc| ==> Gap(cc, sp[k].1) > threshold
  }

  /** Index ranges that tile `[i, |cc| - 2]` or `[i, |cc| - 1]`, each joining
      runs whose gaps are at most the threshold and separated from the next
      range by a larger gap; a range holds the last run only when that run
      was merged into its predecessor. */
  predicate Tiles(cc: seq<(int, int)>, threshold: real, i: nat, sp: seq<(nat, nat)>)
  {
    && |sp| >= 1
    && sp[0].0 == i
    && Contiguous(cc, sp)
    && Joined(cc, threshold, sp)
    && Separated(cc, threshold, sp)
    && (sp[|sp| - 1].1 == |cc| - 1 || sp[|sp| - 1].1 == |cc| - 2)
    && (sp[|sp| - 1].1 == |cc| - 1 ==> sp[|sp| - 1].0 < sp[|sp| - 1].1)
  }

  lemma ContiguousCons(cc: seq<(int, int)>, i: nat, b: nat, rest: seq<(nat, nat)>)
    requires i <= b < |cc| && Contiguous(cc, rest) && (|rest| > 0 ==> rest[0].0 == b + 1)
    ensures Contiguous(cc, [(i, b)] + rest)
  {
    var sp: seq<(nat, nat)> := [(i, b)] + rest;
    forall k | 1 <= k < |sp|
      ensures sp[k] == rest[k - 1]
    {
    }
  }

  lemma JoinedCons(cc: seq<(int, int)>, threshold: real, i: nat, b: nat, rest: seq<(nat, nat)>)
    requires JoinedRange(cc, threshold, i, b)
    requires Joined(cc, threshold, rest)
    ensures Joined(cc, threshold, [(i, b)] + rest)
  {
    var sp: seq<(nat, nat)> := [(i, b)] + rest;
    assert sp[0] == (i, b);
    assert forall k :: 1 <= k < |sp| ==> sp[k] == rest[k - 1];
  }

  lemma SeparatedCons(cc: seq<(int, int)>, threshold: real, b: nat, i: nat, rest: seq<(nat, nat)>)
    requires b + 1 < |cc| && Gap(cc, b) > threshold
    requires Separated(cc, threshold, rest)
    ensures Separated(cc, threshold, [(i, b)] + rest)
  {
    var sp: seq<(nat, nat)> := [(i, b)] + rest;
    forall k | 0 <= k < |sp| && sp[k].1 + 1 < |cc|
      ensures Gap(cc, sp[k].1) > threshold
    {
      if k > 0 {
        assert sp[k] == rest[k - 1];
      }
    }
  }

  lemma TilesCons(cc: seq<(int, int)>, threshold: real, i: nat, b: nat, rest: seq<(nat, nat)>)
    requires i <= b && b + 1 < |cc| - 1 && Gap(cc, b) > threshold
    requires JoinedRange(cc, threshold, i, b)
    requires Tiles(cc, threshold, b + 1, rest)
    ensures Tiles(cc, threshold, i, [(i, b)] + rest)
  {
    ContiguousCons(cc, i, b, rest);
    JoinedCons(cc, threshold, i, b, rest);
    SeparatedCons(cc, threshold, b, i, rest);
    var sp: seq<(nat, nat)> := [(i, b)] + rest;
    assert sp[|sp| - 1] == rest[|rest| - 1];
  }

  /** A single range reaching the end of the runs tiles them. */
  lemma TilesOne(cc: seq<(int, int)>, threshold: real, i: nat, b: nat)
    requires i <= b < |cc| && (b == |cc| - 1 || b == |cc| - 2)
    requires JoinedRange(cc, threshold, i, b)
    requires b + 1 < |cc| ==> Gap(cc, b) > threshold
    requires b == |cc| - 1 ==> i < b
    ensures Tiles(cc, threshold, i, [(i, b)])
  {
    var sp: seq<(nat, nat)> := [(i, b)];
    assert JoinedRange(cc, threshold, sp[0].0, sp[0].1);
  }

  /** The merged index ranges from `i` tile the runs. */
  lemma {:induction false} SpansTile(cc: seq<(int, int)>, threshold: real, i: nat)
    requires i + 1 < |cc|
    ensures Tiles(cc, threshold, i, Spans(cc, threshold, i))
    decreases |cc| - i, 1
  {
    var b := Chain(cc, threshold, i);
    if b + 2 < |cc| {
      SpansTileMore(cc, threshold, i);
    } else {
      assert Spans(cc, threshold, i) == [(i, b)] + Spans(cc, threshold, b + 1);
      assert Spans(cc, threshold, b + 1) == [];
      TilesOne(cc, threshold, i, b);
    }
  }

  /** The step of `SpansTile` when runs remain after the first chain. */
  lemma {:induction false} SpansTileMore(cc: seq<(int, int)>, threshold: real, i: nat)
    requires i + 1 < |cc| && Chain(cc, threshold, i) + 2 < |cc|
    ensures Tiles(cc, threshold, i, Spans(cc, threshold, i))
    decreases |cc| - i, 0
  {
    var b := Chain(cc, threshold, i);
    var next: nat := b + 1;
    var rest := Spans(cc, threshold, next);
    assert Spans(cc, threshold, i) == [(i, b)] + rest;
    SpansTile(cc, threshold, next);
    TilesCons(cc, threshold, i, b, rest);
  }

  /** The last range ends at the last run exactly when the last gap is at
      most the threshold. */
  lemma LastRunMerged(cc: seq<(int, int)>, threshold: real, sp: seq<(nat, nat)>)
    requires |cc| >= 2 && Tiles(cc, threshold, 0, sp)
    ensures sp[|sp| - 1].1 == |cc| - 1 <==> Gap(cc, |cc| - 2) <= threshold
  {
    var last := sp[|sp| - 1];
    if last.1 == |cc| - 1 {
      assert last.0 <= |cc| - 2 < last.1;
      assert JoinedRange(cc, threshold, last.0, last.1);
    } else {
      assert Separated(cc, threshold, sp);
    }
  }

  /** Merged runs `r` over index ranges `sp`: every output is the beginning
      of one input run and the end of the same or a later one, consecutive
      outputs lie more than the threshold apart, and the last input run is
      reported exactly when the gap before it is at most the threshold. */
  predicate MergedRuns(cc: seq<(int, int)>, threshold: real, r: seq<(int, int)>, sp: seq<(nat, nat)>)
    requires |cc| >= 2
  {
    && |r| == |sp| >= 1
    && (forall k :: 0 <= k < |r| ==> sp[k].0 <= sp[k].1 < |cc| && r[k] == (cc[sp[k].0].0, cc[sp[k].1].1))
    && (forall k :: 0 <= k < |r| - 1 ==> (r[k + 1].0 - r[k].1) as real > threshold)
    && (sp[|sp| - 1].1 == |cc| - 1 <==> Gap(cc, |cc| - 2) <= threshold)
  }

  /** `_1d_merge_cc`: one run is returned as it is and no runs give none;
      longer inputs are merged as `MergedRuns` states. */
  lemma MergeShape(cc: seq<(int, int)>, threshold: real)
    ensures |cc| <= 1 ==> MergeCC(cc, threshold) == cc
    ensures |cc| >= 2 ==> MergedRuns(cc, threshold, MergeCC(cc, threshold), Spans(cc, threshold, 0))
  {
    if |cc| >= 2 {
      var sp := Spans(cc, threshold, 0);
      SpansTile(cc, threshold, 0);
      LastRunMerged(cc, threshold, sp);
      MergeReadsSpans(cc, threshold);
      TiledMerge(cc, threshold, sp, MergeCC(cc, threshold));
    } else {
      MergeShort(cc, threshold);
    }
  }

  lemma MergeShort(cc: seq<(int, int)>, threshold: real)
    requires |cc| <= 1
    ensures MergeCC(cc, threshold) == cc
  {
    if |cc| == 0 {
      assert Spans(cc, threshold, 0) == [];
    }
  }

  /** Every merged run is read off its index range. */
  lemma MergeReadsSpans(cc: seq<(int, int)>, threshold: real)
    requires |cc| >= 2
    ensures var sp := Spans(cc, threshold, 0);
      var r := MergeCC(cc, threshold);
      && |r| == |sp|
      && forall k :: 0 <= k < |r| ==> r[k] == (cc[sp[k].0].0, cc[sp[k].1].1)
  {
  }

  /** Runs read off tiling index ranges are merged runs. */
  lemma TiledMerge(cc: seq<(int, int)>, threshold: real, sp: seq<(nat, nat)>, r: seq<(int, int)>)
    requires |cc| >= 2 && Tiles(cc, threshold, 0, sp)
    requires sp[|sp| - 1].1 == |cc| - 1 <==> Gap(cc, |cc| - 2) <= threshold
    requires |r| == |sp|
    requires forall k :: 0 <= k < |r| ==> r[k] == (cc[sp[k].0].0, cc[sp[k].1].1)
    ensures MergedRuns(cc, threshold, r, sp)
  {
    forall k | 0 <= k < |r| - 1
      ensures (r[k + 1].0 - r[k].1) as real > threshold
    {
      var b := sp[k].1;
      assert Contiguous(cc, sp) && Separated(cc, threshold, sp);
      assert sp[k + 1].0 == b + 1;
      assert Gap(cc, b) > threshold;
    }
  }

  /** `filter_cc(cc, threshold)`: the runs at least `threshold` wide. */
  function FilterCC(cc: seq<(int, int)>, threshold: int): (r: seq<(int, int)>)
    ensures |r| <= |cc|
    ensures forall p :: p in r <==> p in cc && p.1 - p.0 >= threshold
  {
    if |cc| == 0 then []
    else
      var p := cc[|cc| - 1];
      FilterCC(cc[..|cc| - 1], threshold) + (if p.1 - p.0 >= threshold then [p] else [])
  }

  /** Filtering keeps the order: it distributes over concatenation. */
  lemma {:induction false} FilterAppend(a: seq<(int, int)>, b: seq<(int, int)>, threshold: int)
    ensures FilterCC(a + b, threshold) == FilterCC(a, threshold) + FilterCC(b, threshold)
    decreases |b|
  {
    if |b| > 0 {
      assert (a + b)[..|a + b| - 1] == a + b[..|b| - 1];
      FilterAppend(a, b[..|b| - 1], threshold);
    } else {
      assert a + b == a;
    }
  }

  /** Filtering twice is filtering once. */
  lemma {:induction false} FilterIdempotent(cc: seq<(int, int)>, threshold: int)
    ensures FilterCC(FilterCC(cc, threshold), threshold) == FilterCC(cc, threshold)
    decreases |cc|
  {
    if |cc| > 0 {
      var p := cc[|cc| - 1];
      var tail := if p.1 - p.0 >= threshold then [p] else [];
      FilterIdempotent(cc[..|cc| - 1], threshold);
      FilterAppend(FilterCC(cc[..|cc| - 1], threshold), tail, threshold);
      assert FilterCC(tail, threshold) == tail by {
        if |tail| == 1 {
          assert tail[..0] == [];
        }
      }
    }
  }
}
