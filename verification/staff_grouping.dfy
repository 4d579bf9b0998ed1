/** Staff grouping of `FitStaffModel`: a window of `kernel` rows slides over
    the per-row line flags; a search starts where the window holds at least
    half of the best window, collects the rows where the window count
    peaks, and stops after more than `2 * staff_space` rows below the
    threshold. The rounded centroid of the peak rows, snapped onto a nearby
    line row, starts a staff of height `5 * staff_height + 4 * staff_space`. */
module StaffGrouping {
  import opened Wrappers
  import opened Numeric

  /** `LINES_PER_STAFF`, which is also `KERNEL_SIZE`. */
  const LinesPerStaff: nat := 5

  /** `staff_size`: five lines and the four spaces between them. */
  function StaffSize(h: nat, s: nat): nat
  {
    LinesPerStaff * h + (LinesPerStaff - 1) * s
  }

  /** `KERNEL_SIZE`, the lines the convolution kernel spans. */
  const KernelSize: nat := 5

  /** `kernel`: `KERNEL_SIZE` lines, the spaces between them and the rounded
      average number `duplicates` of duplicated line rows. As `KERNEL_SIZE`
      equals `LINES_PER_STAFF`, the kernel is one staff plus the
      duplicates. */
  function KernelRows(h: nat, s: nat, duplicates: nat): (k: nat)
    ensures k == StaffSize(h, s) + duplicates
    ensures k >= duplicates && (h > 0 ==> k > duplicates)
  {
    KernelSize * h + (KernelSize - 1) * s + duplicates
  }

  /** Line rows in `[lo, hi)`. */
  function CountLines(lines: seq<bool>, lo: nat, hi: nat): (n: nat)
    requires lo <= hi <= |lines|
    ensures n <= hi - lo
    decreases hi - lo
  {
    if lo == hi then 0 else CountLines(lines, lo, hi - 1) + (if lines[hi - 1] then 1 else 0)
  }

  function Min(a: nat, b: nat): nat
  {
    if a <= b then a else b
  }

  /** The window count `W(i)`: line rows among the `kernel` rows from `i`,
      cut at the bottom of the image. */
  function Window(lines: seq<bool>, kernel: nat, i: nat): (n: nat)
    requires i <= |lines|
    ensures n <= kernel && i + n <= |lines|
    ensures i == |lines| || kernel == 0 ==> n == 0
  {
    CountLines(lines, i, Min(i + kernel, |lines|))
  }

  /** The best window over the rows `[0, n)`. */
  function MaxWindow(lines: seq<bool>, kernel: nat, n: nat): (m: nat)
    requires n <= |lines|
    ensures forall i :: 0 <= i < n ==> Window(lines, kernel, i) <= m
    ensures n > 0 ==> exists i :: 0 <= i < n && Window(lines, kernel, i) == m
    ensures n == 0 ==> m == 0
  {
    if n == 0 then 0
    else
      var prior := MaxWindow(lines, kernel, n - 1);
      var w := Window(lines, kernel, n - 1);
      if w > prior then w else prior
  }

  /** `min_lines_per_staff`: half the best window, truncated (the ratio is
      0.5 for both regimes). */
  function Threshold(lines: seq<bool>, kernel: nat): nat
  {
    MaxWindow(lines, kernel, |lines|) / 2
  }

  /** Rows in `[lo, hi)` whose window is below the threshold. */
  function CountBelow(lines: seq<bool>, kernel: nat, thr: nat, lo: nat, hi: nat): (n: nat)
    requires lo <= hi <= |lines|
    ensures n <= hi - lo
    decreases hi - lo
  {
    if lo == hi then 0
    else CountBelow(lines, kernel, thr, lo, hi - 1) + (if Window(lines, kernel, hi - 1) < thr then 1 else 0)
  }

  /** `maxes` are exactly the rows of `[entry, stop)` whose window is the
      largest there, in increasing order. */
  predicate PeakRows(lines: seq<bool>, kernel: nat, entry: nat, stop: nat, maxes: seq<nat>)
    requires entry <= stop <= |lines|
  {
    && |maxes| > 0
    && (forall j :: 0 <= j < |maxes| ==> entry <= maxes[j] < stop)
    && (forall j, k :: 0 <= j < k < |maxes| ==> maxes[j] < maxes[k])
    && (forall r :: entry <= r < stop ==> Window(lines, kernel, r) <= Window(lines, kernel, maxes[0]))
    && (forall r :: entry <= r < stop ==> (Window(lines, kernel, r) == Window(lines, kernel, maxes[0]) <==> r in maxes))
  }

  /** The search stops at the bottom of the image or right after the row
      that brings the cumulative count of below-threshold rows to
      `2 * staff_space + 1`, and not before: one row earlier the count was
      still within `2 * staff_space`. */
  predicate StopsAfterFlags(lines: seq<bool>, kernel: nat, thr: nat, s: nat, entry: nat, stop: nat)
    requires entry <= stop <= |lines|
  {
    && CountBelow(lines, kernel, thr, entry, stop) <= 2 * s + 1
    && (entry < stop ==> CountBelow(lines, kernel, thr, entry, stop - 1) <= 2 * s)
    && (stop < |lines| ==>
         && CountBelow(lines, kernel, thr, entry, stop) == 2 * s + 1
         && entry < stop
         && Window(lines, kernel, stop - 1) < thr)
  }

  lemma {:induction false} CountBelowMonotone(lines: seq<bool>, kernel: nat, thr: nat, lo: nat, mid: nat, hi: nat)
    requires lo <= mid <= hi <= |lines|
    ensures CountBelow(lines, kernel, thr, lo, mid) <= CountBelow(lines, kernel, thr, lo, hi)
    decreases hi - mid
  {
    if mid < hi {
      CountBelowMonotone(lines, kernel, thr, lo, mid, hi - 1);
    }
  }

  /** The stopping row is determined by the rows: two stops that both meet
      `StopsAfterFlags` are the same row. */
  lemma StopIsUnique(lines: seq<bool>, kernel: nat, thr: nat, s: nat, entry: nat, stop1: nat, stop2: nat)
    requires entry <= stop1 <= |lines| && entry <= stop2 <= |lines|
    requires StopsAfterFlags(lines, kernel, thr, s, entry, stop1)
    requires StopsAfterFlags(lines, kernel, thr, s, entry, stop2)
    ensures stop1 == stop2
  {
    if stop1 < stop2 {
      CountBelowMonotone(lines, kernel, thr, entry, stop1, stop2 - 1);
    } else if stop2 < stop1 {
      CountBelowMonotone(lines, kernel, thr, entry, stop2, stop1 - 1);
    }
  }

  /** The peak bookkeeping of the search after rows `[entry, i)`: `maxes`
      are, in increasing order, the rows there whose window is `count`, and
      no window there exceeds `count`. */
  predicate PeakSoFar(lines: seq<bool>, kernel: nat, entry: nat, i: nat, count: nat, maxes: seq<nat>)
    requires entry <= i <= |lines|
  {
    && (forall j :: 0 <= j < |maxes| ==> entry <= maxes[j] < i)
    && (forall j, k :: 0 <= j < k < |maxes| ==> maxes[j] < maxes[k])
    && (forall r :: entry <= r < i ==> Window(lines, kernel, r) <= count)
    && (forall r :: entry <= r < i ==> (Window(lines, kernel, r) == count <==> r in maxes))
  }

  /** The window of row `i` ties the best so far: `i` joins the peaks. */
  lemma PeakTie(lines: seq<bool>, kernel: nat, entry: nat, i: nat, count: nat, maxes: seq<nat>)
    requires entry <= i < |lines| && PeakSoFar(lines, kernel, entry, i, count, maxes)
    requires Window(lines, kernel, i) == count
    ensures PeakSoFar(lines, kernel, entry, i + 1, count, maxes + [i])
  {
    var after := maxes + [i];
    assert forall j :: 0 <= j < |maxes| ==> after[j] == maxes[j];
    assert forall r :: entry <= r < i ==> (r in after <==> r in maxes);
  }

  /** The window of row `i` beats the best so far: `i` is the only peak. */
  lemma PeakNew(lines: seq<bool>, kernel: nat, entry: nat, i: nat, count: nat, maxes: seq<nat>)
    requires entry <= i < |lines| && PeakSoFar(lines, kernel, entry, i, count, maxes)
    requires Window(lines, kernel, i) > count
    ensures PeakSoFar(lines, kernel, entry, i + 1, Window(lines, kernel, i), [i])
  {
  }

  /** The window of row `i` is below the best so far: nothing changes. */
  lemma PeakBelow(lines: seq<bool>, kernel: nat, entry: nat, i: nat, count: nat, maxes: seq<nat>)
    requires entry <= i < |lines| && PeakSoFar(lines, kernel, entry, i, count, maxes)
    requires Window(lines, kernel, i) < count
    ensures PeakSoFar(lines, kernel, entry, i + 1, count, maxes)
  {
    assert i !in maxes;
  }

  /** The `while (i < rows && flag <= 2 * staff_space)` search. The flag
      counts below-threshold rows and is never reset. */
  method Search(lines: seq<bool>, kernel: nat, thr: nat, s: nat, entry: nat) returns (maxes: seq<nat>, stop: nat)
    requires entry < |lines| && Window(lines, kernel, entry) >= thr
    ensures entry < stop <= |lines|
    ensures PeakRows(lines, kernel, entry, stop, maxes)
    ensures StopsAfterFlags(lines, kernel, thr, s, entry, stop)
  {
    var count := Window(lines, kernel, entry);
    var flag := 0;
    maxes := [];
    var i := entry;
    while i < |lines| && flag <= 2 * s
      invariant entry <= i <= |lines|
      invariant count >= thr
      invariant flag == CountBelow(lines, kernel, thr, entry, i)
      invariant flag <= 2 * s + 1
      invariant flag == 2 * s + 1 ==> entry < i && Window(lines, kernel, i - 1) < thr
      invariant entry < i ==> CountBelow(lines, kernel, thr, entry, i - 1) <= 2 * s
      invariant PeakSoFar(lines, kernel, entry, i, count, maxes)
      invariant i == entry ==> maxes == [] && count == Window(lines, kernel, entry)
      invariant i > entry ==> |maxes| > 0 && count == Window(lines, kernel, maxes[0])
    {
      var next := Window(lines, kernel, i);
      assert CountBelow(lines, kernel, thr, entry, i + 1) == flag + (if next < thr then 1 else 0);
      if next == count {
        PeakTie(lines, kernel, entry, i, count, maxes);
        maxes := maxes + [i];
      } else if next > count {
        PeakNew(lines, kernel, entry, i, count, maxes);
        maxes := [i];
        count := next;
      } else {
        PeakBelow(lines, kernel, entry, i, count, maxes);
        if next < thr {
          flag := flag + 1;
        }
      }
      i := i + 1;
    }
    stop := i;
  }

  function SumRows(m: seq<nat>): nat
  {
    if |m| == 0 then 0 else SumRows(m[..|m| - 1]) + m[|m| - 1]
  }

  /** `n` copies of `x` added up. */
  function Scaled(n: nat, x: nat): nat
  {
    if n == 0 then 0 else Scaled(n - 1, x) + x
  }

  lemma {:induction false} ScaledIsProduct(n: nat, x: nat)
    ensures Scaled(n, x) as real == n as real * x as real
  {
    if n > 0 {
      ScaledIsProduct(n - 1, x);
      assert n as real * x as real == (n - 1) as real * x as real + x as real;
    }
  }

  lemma {:induction false} SumRowsBounds(m: seq<nat>, lo: nat, hi: nat)
    requires forall j :: 0 <= j < |m| ==> lo <= m[j] <= hi
    ensures Scaled(|m|, lo) <= SumRows(m) <= Scaled(|m|, hi)
  {
    if |m| > 0 {
      var k := |m| - 1;
      var init := m[..k];
      assert forall j :: 0 <= j < |init| ==> init[j] == m[j];
      SumRowsBounds(init, lo, hi);
      assert SumRows(m) == SumRows(init) + m[k];
    }
  }

  /** `start = round(sum / maxes.size())`. */
  function Centroid(maxes: seq<nat>): int
    requires |maxes| > 0
  {
    Round(SumRows(maxes) as real / |maxes| as real)
  }

  /** Integer bounds between `n` copies of `lo` and of `hi`, as products of
      reals. */
  lemma ScaledBetween(n: nat, lo: nat, hi: nat, s: nat)
    requires Scaled(n, lo) <= s <= Scaled(n, hi)
    ensures n as real * lo as real <= s as real <= n as real * hi as real
  {
    ScaledIsProduct(n, lo);
    ScaledIsProduct(n, hi);
    assert Scaled(n, lo) as real <= s as real <= Scaled(n, hi) as real;
  }

  /** The rounded centroid of rows in `[lo, hi]` lies in `[lo, hi]`. */
  lemma CentroidWithin(maxes: seq<nat>, lo: nat, hi: nat)
    requires |maxes| > 0
    requires forall j :: 0 <= j < |maxes| ==> lo <= maxes[j] <= hi
    ensures lo <= Centroid(maxes) <= hi
  {
    var n := |maxes| as real;
    var sum := SumRows(maxes) as real;
    SumRowsBounds(maxes, lo, hi);
    ScaledBetween(|maxes|, lo, hi, SumRows(maxes));
    MeanBetween(sum, n, lo as real, hi as real);
    RoundWithin(sum / n, lo, hi);
  }

  lemma MeanBetween(sum: real, n: real, lo: real, hi: real)
    requires n > 0.0 && n * lo <= sum <= n * hi
    ensures lo <= sum / n <= hi
  {
    var q := sum / n;
    assert (q - lo) * n == sum - lo * n;
    assert (hi - q) * n == hi * n - sum;
  }

  /** Some row in `[lo, hi)` is not a line row. */
  predicate HasGap(lines: seq<bool>, lo: int, hi: int)
  {
    exists j :: 0 <= lo <= j < hi <= |lines| && !lines[j]
  }

  /** The snap loop's guard at step `k`. */
  predicate SnapGuard(lines: seq<bool>, start: nat, reach: nat, k: nat)
  {
    k <= reach && start + k < |lines| && k <= start
  }

  /** Step `k` of the snap loop, when it runs, meets no line row on either
      side. */
  predicate ClearStep(lines: seq<bool>, start: nat, reach: nat, k: nat)
  {
    SnapGuard(lines, start, reach, k) ==> !lines[start - k] && !lines[start + k]
  }

  /** No step of the snap loop meets a line row. */
  ghost predicate KeptClear(lines: seq<bool>, start: nat, reach: nat)
  {
    forall k :: 1 <= k ==> ClearStep(lines, start, reach, k)
  }

  /** The inner `while (staff_lines[start - k] && start - k >= 0)` reads the
      row before testing the bound, and the downward one reads row `rows`
      before testing it: the run that is walked must end inside the image. */
  predicate SnapDefined(lines: seq<bool>, start: nat, reach: nat, k: nat)
    decreases reach + 1 - k
  {
    if !SnapGuard(lines, start, reach, k) then true
    else if lines[start - k] then HasGap(lines, 0, start - k + 1)
    else if lines[start + k] then HasGap(lines, start + k, |lines|)
    else SnapDefined(lines, start, reach, k + 1)
  }

  /** First `k' >= k` with row `start - k'` not a line row. */
  function GapAbove(lines: seq<bool>, start: nat, k: nat): (g: nat)
    requires k <= start < |lines| && HasGap(lines, 0, start - k + 1)
    ensures k <= g <= start && !lines[start - g]
    ensures forall r :: start - g < r <= start - k ==> lines[r]
    decreases start - k
  {
    if !lines[start - k] then k
    else
      assert HasGap(lines, 0, start - (k + 1) + 1) by {
        var j :| 0 <= j < start - k + 1 && !lines[j];
        assert j < start - k;
      }
      GapAbove(lines, start, k + 1)
  }

  /** First `k' >= k` with row `start + k'` not a line row. */
  function GapBelow(lines: seq<bool>, start: nat, k: nat): (g: nat)
    requires start + k < |lines| && HasGap(lines, start + k, |lines|)
    ensures k <= g && start + g < |lines| && !lines[start + g]
    ensures forall r :: start + k <= r < start + g ==> lines[r]
    decreases |lines| - start - k
  {
    if !lines[start + k] then k
    else
      assert HasGap(lines, start + k + 1, |lines|) by {
        var j :| start + k <= j < |lines| && !lines[j];
        assert j > start + k;
      }
      GapBelow(lines, start, k + 1)
  }

  /** The snap loop from step `k`: the first step with a line row on either
      side decides, the upper side first, and `start` moves by
      `(k + l) / 2`, where `l` is the first step past the run of line rows
      met there, so it lands inside that run. `None` stands for the walk
      that would read outside the flags. */
  function SnapFrom(lines: seq<bool>, start: nat, reach: nat, k: nat): (r: Option<int>)
    requires start < |lines| && 1 <= k
    ensures r.None? <==> !SnapDefined(lines, start, reach, k)
    ensures r.Some? ==> 0 <= r.value < |lines|
    ensures r.Some? && r.value != start ==> lines[r.value]
    ensures r == Some(start) ==> forall j :: k <= j ==> ClearStep(lines, start, reach, j)
    decreases reach + 1 - k
  {
    if !SnapGuard(lines, start, reach, k) then Some(start)
    else if lines[start - k] then
      if HasGap(lines, 0, start - k + 1) then
        var g := GapAbove(lines, start, k);
        Some(start - (g + k) / 2)
      else None
    else if lines[start + k] then
      if HasGap(lines, start + k, |lines|) then
        var g := GapBelow(lines, start, k);
        Some(start + (g + k) / 2)
      else None
    else
      SnapFrom(lines, start, reach, k + 1)
  }

  /** `start` is kept when it is a line row and is otherwise snapped within
      `staff_space + staff_height` rows. */
  function Snap(lines: seq<bool>, start: nat, s: nat, h: nat): (r: Option<int>)
    requires start < |lines|
  {
    if lines[start] then Some(start) else SnapFrom(lines, start, s + h, 1)
  }

  /** After a snap the start lies on a line row, or it is kept because no
      line row lies within reach on either side. */
  lemma SnapLandsOnLine(lines: seq<bool>, start: nat, s: nat, h: nat)
    requires start < |lines|
    ensures Snap(lines, start, s, h).None? <==> !lines[start] && !SnapDefined(lines, start, s + h, 1)
    ensures Snap(lines, start, s, h).Some? ==> 0 <= Snap(lines, start, s, h).value < |lines|
    ensures lines[start] ==> Snap(lines, start, s, h) == Some(start)
    ensures Snap(lines, start, s, h).Some? ==>
      lines[Snap(lines, start, s, h).value] ||
      (Snap(lines, start, s, h).value == start && KeptClear(lines, start, s + h))
  {
  }

  /** Non-line first and last rows make every snap walk stay inside. */
  lemma {:induction false} SnapDefinedByBorders(lines: seq<bool>, start: nat, reach: nat, k: nat)
    requires |lines| > 0 && !lines[0] && !lines[|lines| - 1]
    ensures SnapDefined(lines, start, reach, k)
    decreases reach + 1 - k
  {
    if SnapGuard(lines, start, reach, k) {
      if lines[start - k] {
        assert HasGap(lines, 0, start - k + 1) by { assert !lines[0]; }
      } else if lines[start + k] {
        assert HasGap(lines, start + k, |lines|) by { assert !lines[|lines| - 1]; }
      } else {
        SnapDefinedByBorders(lines, start, reach, k + 1);
      }
    }
  }

  /** One emitted staff with the search that produced it. */
  datatype Detection = Detection(entry: nat, stop: nat, maxes: seq<nat>, centroid: nat, start: nat, finish: nat)

  /** How the scan ended: at the last row, out of fuel, or at a snap walk
      that would read outside the flags. */
  datatype Status = Finished | FuelSpent | ReadOutside

  /** The row after which the scan resumes: `i = finish + staff_space`,
      then the `for` increment. */
  function Resume(d: Detection, s: nat): nat
  {
    d.finish + s + 1
  }

  predicate ValidDetection(lines: seq<bool>, kernel: nat, thr: nat, h: nat, s: nat, d: Detection)
  {
    && d.entry < d.stop <= |lines|
    && Window(lines, kernel, d.entry) >= thr
    && PeakRows(lines, kernel, d.entry, d.stop, d.maxes)
    && StopsAfterFlags(lines, kernel, thr, s, d.entry, d.stop)
    && d.centroid == Centroid(d.maxes)
    && d.entry <= d.centroid < d.stop
    && Snap(lines, d.centroid, s, h) == Some(d.start as int)
    && d.finish == d.start + StaffSize(h, s)
  }

  /** Where the scan looks for the next entry after `staffs`. */
  function ScanFrom(staffs: seq<Detection>, s: nat): nat
  {
    if |staffs| == 0 then 0 else Resume(staffs[|staffs| - 1], s)
  }

  /** Rows in `[lo, hi)` (cut at the bottom) are all below the threshold. */
  predicate AllBelow(lines: seq<bool>, kernel: nat, thr: nat, lo: nat, hi: nat)
  {
    forall r :: lo <= r < hi && r < |lines| ==> Window(lines, kernel, r) < thr
  }

  /** Each search starts at the first row, at or after the row where the
      previous staff let the scan resume, whose window reaches the
      threshold. */
  predicate Chained(lines: seq<bool>, kernel: nat, thr: nat, s: nat, staffs: seq<Detection>)
  {
    forall j :: 0 <= j < |staffs| ==>
      ScanFrom(staffs[..j], s) <= staffs[j].entry && AllBelow(lines, kernel, thr, ScanFrom(staffs[..j], s), staffs[j].entry)
  }

  /** One staff from entry row `entry`: the search, the rounded centroid of
      its peak rows and the snap. */
  method Detect(lines: seq<bool>, kernel: nat, thr: nat, h: nat, s: nat, entry: nat) returns (found: Option<Detection>)
    requires entry < |lines| && Window(lines, kernel, entry) >= thr
    ensures found.Some? ==> found.value.entry == entry && ValidDetection(lines, kernel, thr, h, s, found.value)
    ensures found.None? ==> lines[0] || lines[|lines| - 1]
  {
    var maxes, stop := Search(lines, kernel, thr, s, entry);
    var centroid := Centroid(maxes);
    CentroidWithin(maxes, entry, stop - 1);
    var snapped := Snap(lines, centroid, s, h);
    if snapped.None? {
      if !lines[0] && !lines[|lines| - 1] {
        SnapDefinedByBorders(lines, centroid, s + h, 1);
      }
      return None;
    }
    SnapLandsOnLine(lines, centroid, s, h);
    var start: nat := snapped.value;
    found := Some(Detection(entry, stop, maxes, centroid, start, start + StaffSize(h, s)));
  }

  predicate AllValid(lines: seq<bool>, kernel: nat, thr: nat, h: nat, s: nat, staffs: seq<Detection>)
  {
    forall j :: 0 <= j < |staffs| ==> ValidDetection(lines, kernel, thr, h, s, staffs[j])
  }

  lemma ValidAppend(lines: seq<bool>, kernel: nat, thr: nat, h: nat, s: nat, staffs: seq<Detection>, d: Detection)
    requires AllValid(lines, kernel, thr, h, s, staffs) && ValidDetection(lines, kernel, thr, h, s, d)
    ensures AllValid(lines, kernel, thr, h, s, staffs + [d])
  {
    var after := staffs + [d];
    forall j | 0 <= j < |after|
      ensures ValidDetection(lines, kernel, thr, h, s, after[j])
    {
      if j < |staffs| {
        assert after[j] == staffs[j];
      }
    }
  }

  lemma ChainedAppend(lines: seq<bool>, kernel: nat, thr: nat, s: nat, staffs: seq<Detection>, d: Detection)
    requires Chained(lines, kernel, thr, s, staffs)
    requires ScanFrom(staffs, s) <= d.entry && AllBelow(lines, kernel, thr, ScanFrom(staffs, s), d.entry)
    ensures Chained(lines, kernel, thr, s, staffs + [d])
  {
    var after := staffs + [d];
    assert after[..|staffs|] == staffs;
    forall j | 0 <= j < |after|
      ensures ScanFrom(after[..j], s) <= after[j].entry
      ensures AllBelow(lines, kernel, thr, ScanFrom(after[..j], s), after[j].entry)
    {
      if j < |staffs| {
        assert after[..j] == staffs[..j];
      }
    }
  }

  /** The loop invariant of the scan at row `i`. */
  predicate Scanned(lines: seq<bool>, kernel: nat, thr: nat, h: nat, s: nat, staffs: seq<Detection>, i: nat)
  {
    && ScanFrom(staffs, s) <= i
    && AllBelow(lines, kernel, thr, ScanFrom(staffs, s), i)
    && AllValid(lines, kernel, thr, h, s, staffs)
    && Chained(lines, kernel, thr, s, staffs)
  }

  lemma ScannedSkip(lines: seq<bool>, kernel: nat, thr: nat, h: nat, s: nat, staffs: seq<Detection>, i: nat)
    requires Scanned(lines, kernel, thr, h, s, staffs, i)
    requires i < |lines| && Window(lines, kernel, i) < thr
    ensures Scanned(lines, kernel, thr, h, s, staffs, i + 1)
  {
  }

  lemma ScannedAppend(lines: seq<bool>, kernel: nat, thr: nat, h: nat, s: nat, staffs: seq<Detection>, d: Detection)
    requires Scanned(lines, kernel, thr, h, s, staffs, d.entry)
    requires ValidDetection(lines, kernel, thr, h, s, d)
    ensures Scanned(lines, kernel, thr, h, s, staffs + [d], Resume(d, s))
  {
    ChainedAppend(lines, kernel, thr, s, staffs, d);
    ValidAppend(lines, kernel, thr, h, s, staffs, d);
  }

  /** The hysteresis scan. Its termination is not evident (an upward snap can
      move `start` back before the entry row), so it runs for at most
      `fuel` steps. */
  method GroupStaffs(lines: seq<bool>, h: nat, s: nat, duplicates: nat, fuel: nat)
    returns (staffs: seq<Detection>, status: Status)
    ensures AllValid(lines, KernelRows(h, s, duplicates), Threshold(lines, KernelRows(h, s, duplicates)), h, s, staffs)
    ensures Chained(lines, KernelRows(h, s, duplicates), Threshold(lines, KernelRows(h, s, duplicates)), s, staffs)
    ensures status == Finished ==>
      AllBelow(lines, KernelRows(h, s, duplicates), Threshold(lines, KernelRows(h, s, duplicates)), ScanFrom(staffs, s), |lines|)
    ensures status == ReadOutside ==> |lines| > 0 && (lines[0] || lines[|lines| - 1])
  {
    var kernel := KernelRows(h, s, duplicates);
    var thr := Threshold(lines, kernel);
    staffs := [];
    var i: nat := 0;
    var steps := fuel;
    while i < |lines| && steps > 0
      invariant Scanned(lines, kernel, thr, h, s, staffs, i)
      decreases steps
    {
      if Window(lines, kernel, i) >= thr {
        var found := Detect(lines, kernel, thr, h, s, i);
        if found.None? {
          status := ReadOutside;
          return;
        }
        var d := found.value;
        ScannedAppend(lines, kernel, thr, h, s, staffs, d);
        staffs := staffs + [d];
        i := Resume(d, s);
      } else {
        ScannedSkip(lines, kernel, thr, h, s, staffs, i);
        i := i + 1;
      }
      steps := steps - 1;
    }
    status := if i >= |lines| then Finished else FuelSpent;
  }

  /** The start of a duplicate count at line row `i`: the first row at or
      after `j` that is not a line row or lies more than `staff_height` rows
      below `i`, or `rows` when there is none. */
  function BreakRow(lines: seq<bool>, h: nat, i: nat, j: nat): (b: nat)
    requires i <= j <= |lines|
    ensures j <= b <= |lines|
    ensures b < |lines| ==> b - i > h || !lines[b]
    ensures forall k :: j <= k < b ==> lines[k]
    ensures b == j || b <= i + h + 1
    decreases |lines| - j
  {
    if j == |lines| then j
    else if j - i <= h && lines[j] then
      BreakRow(lines, h, i, j + 1)
    else j
  }

  /** The duplicate count of one line row. */
  datatype DupTally = DupTally(sum: nat, lines: nat)

  /** The duplicate loop from row `i`: every line row the outer loop reaches
      contributes its count of consecutive line rows within `staff_height`
      rows; after a break the outer loop jumps past the breaking row, but
      when the count runs to the last row it resumes on the next row. */
  function DupScan(lines: seq<bool>, h: nat, i: nat): (t: DupTally)
    requires i <= |lines|
    decreases |lines| - i
  {
    if i == |lines| then DupTally(0, 0)
    else if !lines[i] then DupScan(lines, h, i + 1)
    else
      var b := BreakRow(lines, h, i, i);
      var rest := DupScan(lines, h, if b < |lines| then b + 1 else i + 1);
      DupTally(rest.sum + (b - i), rest.lines + 1)
  }

  /** `round(avg_duplicate)`, the extra rows of the kernel. */
  function Duplicates(lines: seq<bool>, h: nat): int
  {
    var t := DupScan(lines, h, 0);
    Round(t.sum as real / (t.lines as real + Epsilon))
  }

  /** Every counted line row contributes between one and `staff_height + 1`
      rows. */
  lemma {:induction false} DupScanSum(lines: seq<bool>, h: nat, i: nat)
    requires i <= |lines|
    ensures DupScan(lines, h, i).lines <= DupScan(lines, h, i).sum <= (h + 1) * DupScan(lines, h, i).lines
    decreases |lines| - i
  {
    if i < |lines| {
      if !lines[i] {
        DupScanSum(lines, h, i + 1);
      } else {
        var b := BreakRow(lines, h, i, i);
        var next := if b < |lines| then b + 1 else i + 1;
        DupScanSum(lines, h, next);
        var rest := DupScan(lines, h, next);
        assert 1 <= b - i <= h + 1;
        MulSucc(h + 1, rest.lines);
      }
    }
  }

  lemma MulSucc(a: nat, n: nat)
    ensures a * (n + 1) == a * n + a
  {
  }

  /** The scan counts a line row only where one exists. */
  lemma {:induction false} DupScanNone(lines: seq<bool>, h: nat, i: nat)
    requires i <= |lines|
    ensures DupScan(lines, h, i).lines == 0 <==> forall k :: i <= k < |lines| ==> !lines[k]
    decreases |lines| - i
  {
    if i < |lines| && !lines[i] {
      DupScanNone(lines, h, i + 1);
    }
  }

  /** Every counted line row contributes between one and `staff_height + 1`
      rows, and the scan counts a line row only where one exists. */
  lemma DupScanBounds(lines: seq<bool>, h: nat, i: nat)
    requires i <= |lines|
    ensures DupScan(lines, h, i).lines <= DupScan(lines, h, i).sum <= (h + 1) * DupScan(lines, h, i).lines
    ensures DupScan(lines, h, i).lines == 0 <==> forall k :: i <= k < |lines| ==> !lines[k]
  {
    DupScanSum(lines, h, i);
    DupScanNone(lines, h, i);
  }

  lemma RatioAtMost(a: real, n: real, c: real)
    requires 0.0 <= n && 0.0 <= c && 0.0 <= a <= c * n
    ensures a / (n + Epsilon) <= c
  {
    var d := n + Epsilon;
    var q := a / d;
    assert (c - q) * d == c * d - a;
    assert c * d >= c * n;
  }

  lemma RatioAboveHalf(a: real, n: real)
    requires 1.0 <= n <= a
    ensures a / (n + Epsilon) > 0.5
  {
    var d := n + Epsilon;
    var q := a / d;
    assert (q - 0.5) * d == a - 0.5 * d;
    assert a - 0.5 * d > 0.0;
  }

  /** The extra kernel rows lie in `[0, staff_height + 1]`, and are zero
      exactly when no row is a line row. */
  lemma DuplicatesRange(lines: seq<bool>, h: nat)
    ensures 0 <= Duplicates(lines, h) <= h + 1
    ensures Duplicates(lines, h) == 0 <==> forall k :: 0 <= k < |lines| ==> !lines[k]
  {
    var t := DupScan(lines, h, 0);
    DupScanBounds(lines, h, 0);
    RatioAtMost(t.sum as real, t.lines as real, (h + 1) as real);
    if t.lines > 0 {
      RatioAboveHalf(t.sum as real, t.lines as real);
    }
    RoundWithin(t.sum as real / (t.lines as real + Epsilon), 0, h + 1);
  }

  /** A run of line rows that reaches the last row is counted once from
      every one of its rows: the flags `[F, T, T]` give two counted line
      rows with three duplicates. */
  lemma TrailingRunCountedPerRow()
    ensures DupScan([false, true, true], 5, 0) == DupTally(3, 2)
  {
    assert BreakRow([false, true, true], 5, 1, 1) == 3;
    assert BreakRow([false, true, true], 5, 2, 2) == 3;
  }
}
