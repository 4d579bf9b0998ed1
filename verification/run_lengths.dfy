/** Run-length statistics of `GetStaffModel`: per-column histograms of the
    ink and background run lengths, and their modes, which become
    `staff_height` and `staff_space`. */
module RunLengths {
  import opened Raster
  import opened Runs

  /** `hist[len]++` on a `std::map<int, int>`. */
  function Bump(h: map<nat, nat>, len: nat): map<nat, nat>
  {
    h[len := (if len in h then h[len] else 0) + 1]
  }

  /** How many of `runs` have polarity `ink` and length `len`. */
  function Count(runs: seq<Run>, ink: bool, len: nat): nat
  {
    if |runs| == 0 then 0
    else
      var r := runs[|runs| - 1];
      Count(runs[..|runs| - 1], ink, len) + (if r.ink == ink && r.len == len then 1 else 0)
  }

  /** The histogram the scan accumulates: length -> number of runs. */
  function Histogram(runs: seq<Run>, ink: bool): map<nat, nat>
  {
    if |runs| == 0 then map[]
    else
      var r := runs[|runs| - 1];
      var h := Histogram(runs[..|runs| - 1], ink);
      if r.ink == ink then Bump(h, r.len) else h
  }

  /** The histogram holds exactly the lengths that occur, each with its
      number of runs. */
  lemma {:induction false} HistogramCounts(runs: seq<Run>, ink: bool)
    ensures forall l :: l in Histogram(runs, ink) <==> Count(runs, ink, l) > 0
    ensures forall l :: l in Histogram(runs, ink) ==> Histogram(runs, ink)[l] == Count(runs, ink, l)
  {
    if |runs| > 0 {
      HistogramCounts(runs[..|runs| - 1], ink);
    }
  }

  lemma HistogramSnoc(runs: seq<Run>, r: Run, ink: bool)
    ensures Histogram(runs + [r], ink)
         == if r.ink == ink then Bump(Histogram(runs, ink), r.len) else Histogram(runs, ink)
  {
    assert (runs + [r])[..|runs|] == runs;
  }

  /** The recorded runs of the first `n` columns, column after column. */
  function ColumnsRuns(img: Grid, n: nat): seq<Run>
    requires WellFormed(img) && n <= Width(img)
  {
    if n == 0 then [] else ColumnsRuns(img, n - 1) + ClosedRuns(Column(img, n - 1))
  }

  function AllRuns(img: Grid): seq<Run>
    requires WellFormed(img)
  {
    ColumnsRuns(img, Width(img))
  }

  /** The two histograms of `GetStaffModel`: every column is scanned top to
      bottom and each run closed by a polarity change is counted, in the ink
      histogram or in the background one. */
  method RunLengthHistograms(img: Grid) returns (ink: map<nat, nat>, gap: map<nat, nat>)
    requires WellFormed(img)
    ensures ink == Histogram(AllRuns(img), true)
    ensures gap == Histogram(AllRuns(img), false)
  {
    ink := map[];
    gap := map[];
    var cols := Width(img);
    var x := 0;
    while x < cols
      invariant 0 <= x <= cols
      invariant ink == Histogram(ColumnsRuns(img, x), true)
      invariant gap == Histogram(ColumnsRuns(img, x), false)
    {
      ink, gap := ScanColumn(Column(img, x), ink, gap, ColumnsRuns(img, x));
      x := x + 1;
    }
  }

  /** The two histograms hold exactly the runs `runs`. */
  predicate Tallied(ink: map<nat, nat>, gap: map<nat, nat>, runs: seq<Run>)
  {
    ink == Histogram(runs, true) && gap == Histogram(runs, false)
  }

  /** Counting one more run bumps the histogram of its polarity only. */
  lemma TallyStep(ink: map<nat, nat>, gap: map<nat, nat>, before: seq<Run>, done: seq<Run>, r: Run)
    requires Tallied(ink, gap, before + done)
    ensures Tallied(if r.ink then Bump(ink, r.len) else ink,
                    if r.ink then gap else Bump(gap, r.len),
                    before + (done + [r]))
  {
    assert before + done + [r] == before + (done + [r]);
    HistogramSnoc(before + done, r, true);
    HistogramSnoc(before + done, r, false);
  }

  /** The inner loop over one column: `val` is the polarity of the current
      run and `count` its length so far. */
  method ScanColumn(c: seq<bool>, ink0: map<nat, nat>, gap0: map<nat, nat>, ghost before: seq<Run>)
    returns (ink: map<nat, nat>, gap: map<nat, nat>)
    requires |c| > 0
    requires Tallied(ink0, gap0, before)
    ensures Tallied(ink, gap, before + ClosedRuns(c))
  {
    ink, gap := ink0, gap0;
    ghost var done: seq<Run> := [];
    assert before + done == before;
    var val := c[0];
    var count := 1;
    var y := 1;
    ghost var a: nat := 0;
    while y < |c|
      invariant 1 <= count <= y <= |c| && a == y - count
      invariant OpenRun(c, a, y, val)
      invariant done + ClosedRunsFrom(c, a) == ClosedRuns(c)
      invariant Tallied(ink, gap, before + done)
    {
      OpenRunStep(c, a, y, val);
      if val != c[y] {
        var r := Run(val, y - count, count);
        CloseRun(c, done, a, y);
        ink, gap := Record(ink, gap, before, done, r);
        done := done + [r];
        val := c[y];
        count := 1;
        a := y;
      } else {
        count := count + 1;
      }
      y := y + 1;
    }
    OpenRunLast(c, |c| - count, val);
    ClosedRunsLast(c, |c| - count);
    assert done + [] == done;
  }

  /** Counting a closed run in the histogram of its polarity. */
  method Record(ink0: map<nat, nat>, gap0: map<nat, nat>, ghost before: seq<Run>, ghost done: seq<Run>, r: Run)
    returns (ink: map<nat, nat>, gap: map<nat, nat>)
    requires Tallied(ink0, gap0, before + done)
    ensures Tallied(ink, gap, before + (done + [r]))
  {
    TallyStep(ink0, gap0, before, done, r);
    if !r.ink {
      ink, gap := ink0, Bump(gap0, r.len);
    } else {
      ink, gap := Bump(ink0, r.len), gap0;
    }
  }

  /** Rows `[a, y)` hold `val` and the row above `a`, if any, does not: the
      run the scan is measuring. */
  predicate OpenRun(c: seq<bool>, a: nat, y: nat, val: bool)
  {
    && a < y <= |c|
    && (forall k :: a <= k < y ==> c[k] == val)
    && (a == 0 || c[a - 1] != val)
  }

  /** The open run that meets a change of polarity at `b` is maximal, and a
      new open run starts at `b`; otherwise the open run grows. */
  lemma OpenRunStep(c: seq<bool>, a: nat, b: nat, val: bool)
    requires OpenRun(c, a, b, val) && b < |c|
    ensures c[b] != val ==> IsMaximalRun(c, a, b) && OpenRun(c, b, b + 1, c[b])
    ensures c[b] == val ==> OpenRun(c, a, b + 1, val)
  {
  }

  /** The open run that reaches the bottom is maximal. */
  lemma OpenRunLast(c: seq<bool>, a: nat, val: bool)
    requires OpenRun(c, a, |c|, val)
    ensures IsMaximalRun(c, a, |c|)
  {
  }

  /** `(x + y) + z == x + (y + z)`. */
  lemma Regroup<T>(x: seq<T>, y: seq<T>, z: seq<T>)
    ensures (x + y) + z == x + (y + z)
  {
  }

  lemma CloseRun(c: seq<bool>, done: seq<Run>, a: nat, b: nat)
    requires IsMaximalRun(c, a, b) && b < |c|
    requires done + ClosedRunsFrom(c, a) == ClosedRuns(c)
    ensures (done + [Run(c[a], a, b - a)]) + ClosedRunsFrom(c, b) == ClosedRuns(c)
  {
    ClosedRunsStep(c, a, b);
    Regroup(done, [Run(c[a], a, b - a)], ClosedRunsFrom(c, b));
  }


  /** `m` is what the ascending scan of the histogram with a strict `<`
      keeps: the smallest length among those with the highest count. */
  predicate IsMode(h: map<nat, nat>, m: nat)
  {
    && m in h
    && (forall l :: l in h ==> h[l] <= h[m])
    && (forall l :: l in h && l < m ==> h[l] < h[m])
  }

  lemma ModeUnique(h: map<nat, nat>, m1: nat, m2: nat)
    requires IsMode(h, m1) && IsMode(h, m2)
    ensures m1 == m2
  {
  }

  /** The selection loop after the scan. A histogram entry always has a
      positive count; an empty histogram would leave the result
      uninitialised, so it is excluded. */
  method ModalLength(h: map<nat, nat>) returns (m: nat)
    requires h != map[]
    requires forall l :: l in h ==> h[l] > 0
    ensures IsMode(h, m)
  {
    // The largest key bounds the ascending walk over the map's keys.
    var bound := 0;
    var rest := h.Keys;
    while rest != {}
      invariant rest <= h.Keys
      invariant forall l :: l in h && l !in rest ==> l <= bound
      decreases |rest|
    {
      var l :| l in rest;
      if l > bound {
        bound := l;
      }
      rest := rest - {l};
    }
    var maxPolled := 0;
    m := 0;
    var l := 0;
    while l <= bound
      invariant 0 <= l <= bound + 1
      invariant maxPolled == 0 ==> forall k :: k in h && k < l ==> false
      invariant maxPolled > 0 ==> m in h && m < l && h[m] == maxPolled
      invariant forall k :: k in h && k < l ==> h[k] <= maxPolled
      invariant forall k :: k in h && k < m ==> h[k] < maxPolled
    {
      if l in h && maxPolled < h[l] {
        maxPolled := h[l];
        m := l;
      }
      l := l + 1;
    }
    assert exists k :: k in h;
  }

  lemma CountPositive(runs: seq<Run>, ink: bool, len: nat)
    requires Count(runs, ink, len) > 0
    ensures exists i :: 0 <= i < |runs| && runs[i].ink == ink && runs[i].len == len
  {
    if runs[|runs| - 1].ink == ink && runs[|runs| - 1].len == len {
    } else {
      CountPositive(runs[..|runs| - 1], ink, len);
      var i :| 0 <= i < |runs| - 1 && runs[..|runs| - 1][i].ink == ink && runs[..|runs| - 1][i].len == len;
      assert runs[i] == runs[..|runs| - 1][i];
    }
  }

  lemma {:induction false} ColumnsRunsClosed(img: Grid, n: nat)
    requires WellFormed(img) && n <= Width(img)
    ensures forall i :: 0 <= i < |ColumnsRuns(img, n)| ==>
      1 <= ColumnsRuns(img, n)[i].len < |img|
  {
    if n > 0 {
      ColumnsRunsClosed(img, n - 1);
      var c := Column(img, n - 1);
      var a: seq<Run> := ColumnsRuns(img, n - 1);
      var b: seq<Run> := ClosedRuns(c);
      forall i | 0 <= i < |a + b|
        ensures 1 <= (a + b)[i].len < |img|
      {
        if i >= |a| {
          assert (a + b)[i] == b[i - |a|];
          ClosedRunsShape(c, 0);
          assert IsClosedRun(c, b[i - |a|]);
        }
      }
    }
  }

  /** Every histogram key is a length that some column actually shows: at
      least 1 and shorter than the column. */
  lemma HistogramKeysBounded(img: Grid, ink: bool)
    requires WellFormed(img)
    ensures forall l :: l in Histogram(AllRuns(img), ink) ==> 1 <= l < |img|
  {
    ColumnsRunsClosed(img, Width(img));
    HistogramCounts(AllRuns(img), ink);
    forall l | l in Histogram(AllRuns(img), ink)
      ensures 1 <= l < |img|
    {
      CountPositive(AllRuns(img), ink, l);
    }
  }

  /** `staff_height` is the modal ink run length and `staff_space` the modal
      background run length; both must exist for the source to assign them. */
  method StaffMetrics(img: Grid) returns (staffHeight: nat, staffSpace: nat)
    requires WellFormed(img)
    requires Histogram(AllRuns(img), true) != map[]
    requires Histogram(AllRuns(img), false) != map[]
    ensures IsMode(Histogram(AllRuns(img), true), staffHeight)
    ensures IsMode(Histogram(AllRuns(img), false), staffSpace)
    ensures 1 <= staffHeight < |img| && 1 <= staffSpace < |img|
  {
    var inkHist, gapHist := RunLengthHistograms(img);
    HistogramCounts(AllRuns(img), true);
    HistogramCounts(AllRuns(img), false);
    HistogramKeysBounded(img, true);
    HistogramKeysBounded(img, false);
    staffHeight := ModalLength(inkHist);
    staffSpace := ModalLength(gapHist);
  }
}
