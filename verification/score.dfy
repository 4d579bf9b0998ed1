/** The DeepScores `Score` class: the sizes derived from a straight staff
    model, one box per staff, the region of interest cut from the page, the
    candidate regions of a staff image and the square windows slid over
    them, and the assignment of ground-truth glyphs to staffs. The parsed
    XML fields and the per-column counts of zero-valued (ink) pixels that
    numpy computes are inputs. */
module Score {
  import opened Wrappers
  import opened Numeric
  import opened Intervals
  import Nearest
  import PySeq
  import StavHeader
  import ScoreRuns

  /** `DEF_EXTRA_STAFF_SPACE`. */
  const ExtraStaffSpace: int := 4

  /** `Staff(glyphs, box, start)`. */
  datatype Staff = Staff(glyphs: seq<Glyph>, box: Box, start: int)

  /** The attributes `__init__` sets. */
  datatype Score = Score(
    staffLength: nat,
    staffHeight: int,
    staffSpace: int,
    staffExtra: int,
    staffThickness: int,
    kernelSize: int,
    stepThreshold: int,
    kernelThreshold: int,
    step: int,
    rows: int,
    cols: int,
    staffs: seq<Staff>)

  /** `Score.__init__` on the parsed fields: the header checks, then the
      sizes, then one staff per offset, its position counted from the top of
      the page (`staff + rows`). */
  function NewScore(hd: StavHeader.Header, h: int, s: int, cols: int, rows: int, offsets: seq<int>, noStaffLines: bool): (r: Result<Score>)
    ensures r.Ok? <==> StavHeader.Check(hd).Ok?
    ensures r.Err? ==> r.error == ValueError
    ensures r.Ok? ==> |r.value.staffs| == |offsets| && r.value.staffLength == |hd.gradient|
  {
    var len :- StavHeader.Check(hd);
    var extra := (h + s) * ExtraStaffSpace;
    var thickness := h * 5 + s * 4;
    var kernel := s + 2 * h;
    var stepThreshold := 7 * h - (if noStaffLines then 5 * h else 0);
    var kernelThreshold := kernel * h * 2 - (if noStaffLines then kernel * h else 0);
    var step := FloorDiv(kernel, 4);
    var staffs := seq(|offsets|, k requires 0 <= k < |offsets| =>
      var pos := offsets[k] + rows;
      Staff([], Box(0, cols - 1, pos - FloorDiv(extra, 2), pos + thickness + FloorDiv(extra, 2)), pos));
    Ok(Score(len, h, s, extra, thickness, kernel, stepThreshold, kernelThreshold, step, rows, cols, staffs))
  }

  /** The sizes of a score: the staff spans five lines and four spaces, the
      windows are one space and two lines high, the step is the quarter
      window rounded down, the thresholds lose the contribution of the staff
      lines when there are none; every staff box spans the page width but
      the last column, starts `2(h + s)` above its staff and is exactly
      `staff_thickness + staff_extra` rows high. */
  lemma NewScoreSizing(hd: StavHeader.Header, h: int, s: int, cols: int, rows: int, offsets: seq<int>, noStaffLines: bool)
    requires StavHeader.Check(hd).Ok?
    ensures var sc := NewScore(hd, h, s, cols, rows, offsets, noStaffLines).value;
      && sc.staffExtra == 4 * (h + s)
      && sc.staffThickness == 5 * h + 4 * s
      && sc.kernelSize == s + 2 * h
      && 4 * sc.step <= sc.kernelSize < 4 * sc.step + 4
      && sc.stepThreshold == (if noStaffLines then 2 * h else 7 * h)
      && sc.kernelThreshold == (if noStaffLines then 1 else 2) * sc.kernelSize * h
      && forall k :: 0 <= k < |sc.staffs| ==>
           && sc.staffs[k].start == offsets[k] + rows
           && sc.staffs[k].glyphs == []
           && sc.staffs[k].box.xmin == 0 && sc.staffs[k].box.xmax == cols - 1
           && sc.staffs[k].box.ymin == sc.staffs[k].start - 2 * (h + s)
           && sc.staffs[k].box.ymax - sc.staffs[k].box.ymin == sc.staffThickness + sc.staffExtra
  {
    HalfOfMultipleOfFour(h + s);
  }

  lemma HalfOfMultipleOfFour(n: int)
    ensures FloorDiv(n * 4, 2) == 2 * n
  {
    var q := FloorDiv(n * 4, 2);
    assert 2 * q <= n * 4 < 2 * q + 2;
  }

  /** The bounds `_extract_roi` slices with, as written: a box past the last
      row is cut there, or else one above the first row starts at it; a box
      past the last column sets the bottom row, not the right column, to the
      column count, or else one left of the first column starts at it. */
  function RoiBounds(b: Box, rows: int, cols: int): (r: Box)
    ensures r.xmax == b.xmax
    ensures b.xmax > cols ==> r.ymax == cols
  {
    var (ymin, ymax) := if b.ymax > rows then (b.ymin, rows) else if b.ymin < 0 then (0, b.ymax) else (b.ymin, b.ymax);
    if b.xmax > cols then Box(b.xmin, b.xmax, ymin, cols)
    else if b.xmin < 0 then Box(0, b.xmax, ymin, ymax)
    else Box(b.xmin, b.xmax, ymin, ymax)
  }

  /** The bounds with the right column cut at the column count, as the
      clamping of the rows suggests was meant. */
  function RoiBoundsCorrected(b: Box, rows: int, cols: int): (r: Box)
    ensures r.xmax <= cols || r.xmax == b.xmax
  {
    var (ymin, ymax) := if b.ymax > rows then (b.ymin, rows) else if b.ymin < 0 then (0, b.ymax) else (b.ymin, b.ymax);
    if b.xmax > cols then Box(b.xmin, cols, ymin, ymax)
    else if b.xmin < 0 then Box(0, b.xmax, ymin, ymax)
    else Box(b.xmin, b.xmax, ymin, ymax)
  }

  /** Both bounds agree on every box within the columns, staff boxes among
      them. */
  lemma RoiBoundsAgree(b: Box, rows: int, cols: int)
    requires b.xmax <= cols
    ensures RoiBounds(b, rows, cols) == RoiBoundsCorrected(b, rows, cols)
  {
  }

  /** `_extract_roi(img, box)` on an array of `cols` columns, sliced
      between the corrected bounds `RoiBoundsCorrected`; on every box within
      the columns they equal the bounds as written (`RoiBoundsAgree`). */
  function ExtractRoi<T>(img: seq<seq<T>>, cols: nat, b: Box): seq<seq<T>>
  {
    var r := RoiBoundsCorrected(b, |img|, cols);
    PySeq.Slice2(img, r.ymin, r.ymax, r.xmin, r.xmax)
  }

  /** With the corrected bounds, a box starting inside the image yields the
      part of the box that lies in the image. */
  lemma ExtractRoiIntersects<T>(img: seq<seq<T>>, cols: nat, b: Box)
    requires PySeq.IsRect(img, cols)
    requires 0 <= b.ymin <= b.ymax && 0 <= b.xmin <= b.xmax && b.ymin <= |img| && b.xmin <= cols
    ensures var y1 := if b.ymax > |img| then |img| else b.ymax;
            var x1 := if b.xmax > cols then cols else b.xmax;
      && |ExtractRoi(img, cols, b)| == y1 - b.ymin
      && (forall y :: 0 <= y < y1 - b.ymin ==> |ExtractRoi(img, cols, b)[y]| == x1 - b.xmin)
      && (forall y, x :: 0 <= y < y1 - b.ymin && 0 <= x < x1 - b.xmin ==>
            ExtractRoi(img, cols, b)[y][x] == img[b.ymin + y][b.xmin + x])
  {
    var y1 := if b.ymax > |img| then |img| else b.ymax;
    var x1 := if b.xmax > cols then cols else b.xmax;
    PySeq.Slice2Inside(img, cols, b.ymin, y1, b.xmin, x1);
  }

  /** As written, a box reaching past the last column loses rows: on a page
      of 10 rows and 5 columns, the box of columns `[0, 6)` and rows `[0, 8)`
      yields 5 rows instead of 8. */
  lemma RoiColumnClampCutsRows(img: seq<seq<int>>)
    requires |img| == 10 && PySeq.IsRect(img, 5)
    ensures var w := RoiBounds(Box(0, 6, 0, 8), 10, 5);
      |PySeq.Slice2(img, w.ymin, w.ymax, w.xmin, w.xmax)| == 5
    ensures |ExtractRoi(img, 5, Box(0, 6, 0, 8))| == 8
  {
  }

  /** `extract_staff_image`: the region of interest of the staff's box,
      with the corrected column clamp of `ExtractRoi`. */
  function ExtractStaffImage<T>(img: seq<seq<T>>, cols: nat, staff: Staff): seq<seq<T>>
  {
    ExtractRoi(img, cols, staff.box)
  }

  /** `col_count > step_threshold`, where `col_count` counts the
      zero-valued (ink) pixels of each column: the columns with more ink
      than the lines of a staff leave. */
  function Profile(sc: Score, colCount: seq<int>): (p: seq<bool>)
    ensures |p| == |colCount|
    ensures forall x :: 0 <= x < |p| ==> (p[x] <==> colCount[x] > sc.stepThreshold)
  {
    seq(|colCount|, x requires 0 <= x < |colCount| => colCount[x] > sc.stepThreshold)
  }

  /** The full-height boxes over column ranges `[x0, x1]`. */
  function Columns(cc: seq<(int, int)>, thickness: int): (bs: seq<Box>)
    ensures |bs| == |cc|
    ensures forall k :: 0 <= k < |cc| ==> bs[k] == Box(cc[k].0, cc[k].1, 0, thickness)
  {
    seq(|cc|, k requires 0 <= k < |cc| => Box(cc[k].0, cc[k].1, 0, thickness))
  }

  /** `potential_regions(staff_image, merge, thin_filter)` on a staff image
      of `thickness` rows whose columns hold `colCount` zero-valued (ink)
      pixels:
      an image of the wrong height is a `ValueError`; otherwise the runs of
      columns with more ink than `step_threshold`, merged across gaps
      of at most half a window and kept when a window wide, as full-height
      boxes. */
  function PotentialRegions(sc: Score, thickness: int, colCount: seq<int>, merge: bool, thinFilter: bool): (r: Result<seq<Box>>)
    ensures r.Ok? <==> thickness == sc.staffThickness + sc.staffExtra && |colCount| > 0
  {
    if thickness != sc.staffThickness + sc.staffExtra then Err(ValueError)
    else
      var cc :- ScoreRuns.ConnectedComp(Profile(sc, colCount));
      Ok(Columns(Refine(sc, cc, merge, thinFilter), thickness))
  }

  /** The optional merging across narrow gaps, then the optional dropping of
      regions narrower than a window. */
  function Refine(sc: Score, cc: seq<(int, int)>, merge: bool, thinFilter: bool): seq<(int, int)>
  {
    var merged := if merge then ScoreRuns.MergeCC(cc, sc.kernelSize as real / 2.0) else cc;
    if thinFilter then ScoreRuns.FilterCC(merged, sc.kernelSize) else merged
  }

  /** Every region spans the whole height of the staff image; filtered,
      every region is at least a window wide. */
  lemma PotentialRegionsHeight(sc: Score, thickness: int, colCount: seq<int>, merge: bool, thinFilter: bool)
    requires PotentialRegions(sc, thickness, colCount, merge, thinFilter).Ok?
    ensures var bs := PotentialRegions(sc, thickness, colCount, merge, thinFilter).value;
      && (forall k :: 0 <= k < |bs| ==> bs[k].ymin == 0 && bs[k].ymax == thickness)
      && (thinFilter ==> forall k :: 0 <= k < |bs| ==> bs[k].xmax - bs[k].xmin >= sc.kernelSize)
  {
    var cc := ScoreRuns.ConnectedComp(Profile(sc, colCount)).value;
    var kept := Refine(sc, cc, merge, thinFilter);
    var bs := PotentialRegions(sc, thickness, colCount, merge, thinFilter).value;
    assert bs == Columns(kept, thickness);
    if thinFilter {
      forall k | 0 <= k < |bs|
        ensures bs[k].xmax - bs[k].xmin >= sc.kernelSize
      {
        assert kept[k] in kept;
      }
    }
  }

  /** Unmerged and unfiltered, the regions are the maximal runs of busy
      columns closed by a quiet one, left to right, followed by an empty
      pair `(b, b - 1)`. */
  lemma PotentialRegionsRuns(sc: Score, thickness: int, colCount: seq<int>)
    requires PotentialRegions(sc, thickness, colCount, false, false).Ok?
    ensures var bs := PotentialRegions(sc, thickness, colCount, false, false).value;
      && |bs| >= 1 && bs[|bs| - 1].xmax == bs[|bs| - 1].xmin - 1
      && (forall k :: 0 <= k < |bs| - 1 ==> ScoreRuns.ClosedRun(Profile(sc, colCount), bs[k].xmin, bs[k].xmax))
      && (forall k, l :: 0 <= k < l < |bs| ==> bs[k].xmin < bs[l].xmin)
  {
    var cc := ScoreRuns.ConnectedComp(Profile(sc, colCount)).value;
    ScoreRuns.ConnectedCompShape(Profile(sc, colCount));
    assert Refine(sc, cc, false, false) == cc;
    assert PotentialRegions(sc, thickness, colCount, false, false).value == Columns(cc, thickness);
  }

  /** The image of a staff that lies within the page passes the height check
      of `potential_regions`. */
  lemma StaffImageFitsRegions<T>(hd: StavHeader.Header, h: int, s: int, cols: nat, rows: int, offsets: seq<int>,
                                 noStaffLines: bool, img: seq<seq<T>>, k: nat, colCount: seq<int>)
    requires StavHeader.Check(hd).Ok? && PySeq.IsRect(img, cols) && cols >= 1 && |colCount| > 0
    requires k < |offsets|
    requires var b := NewScore(hd, h, s, cols, rows, offsets, noStaffLines).value.staffs[k].box;
      0 <= b.ymin <= b.ymax <= |img|
    ensures var sc := NewScore(hd, h, s, cols, rows, offsets, noStaffLines).value;
      PotentialRegions(sc, |ExtractStaffImage(img, cols, sc.staffs[k])|, colCount, true, true).Ok?
  {
    var sc := NewScore(hd, h, s, cols, rows, offsets, noStaffLines).value;
    NewScoreSizing(hd, h, s, cols, rows, offsets, noStaffLines);
    ExtractRoiIntersects(img, cols, sc.staffs[k].box);
  }

  /** `np.arange(0, n) * step + start`. */
  function Origins(start: int, step: int, n: int): (xs: seq<int>)
    ensures |xs| == if n > 0 then n else 0
    ensures forall m :: 0 <= m < |xs| ==> xs[m] == start + m * step
  {
    seq(if n > 0 then n else 0, m => start + m * step)
  }

  /** The squares of side `k` at column `x` and every non-negative row of
      `ys`, in order. */
  function ColumnSquares(x: int, ys: seq<int>, k: int): (r: seq<Box>)
    ensures |r| <= |ys|
  {
    if |ys| == 0 then []
    else
      var y := ys[|ys| - 1];
      ColumnSquares(x, ys[..|ys| - 1], k) + (if x >= 0 && y >= 0 then [Box(x, x + k, y, y + k)] else [])
  }

  /** `[BBox(x, x + k, y, y + k) for x in xs for y in ys if x >= 0 and y >= 0]`. */
  function Squares(xs: seq<int>, ys: seq<int>, k: int): seq<Box>
  {
    if |xs| == 0 then [] else Squares(xs[..|xs| - 1], ys, k) + ColumnSquares(xs[|xs| - 1], ys, k)
  }

  /** `convolve_box(box)`: the squares of side `kernel_size` whose corners
      step by `step` from one step before the box to past its far side; a
      zero step is a `ZeroDivisionError`. */
  function ConvolveBox(sc: Score, b: Box): (r: Result<seq<Box>>)
    ensures r.Ok? <==> sc.step != 0
  {
    if sc.step == 0 then Err(ZeroDivisionError)
    else
      var nh := FloorDiv(b.xmax - b.xmin + sc.step * 2, sc.step);
      var nv := FloorDiv(b.ymax - b.ymin + sc.step * 2, sc.step);
      var xs := Origins(b.xmin - sc.step, sc.step, nh);
      var ys := Origins(b.ymin - sc.step, sc.step, nv);
      Ok(Squares(xs, ys, sc.kernelSize))
  }

  /** A square of side `k` at a non-negative corner drawn from the
      origins. */
  predicate SquareAt(xs: seq<int>, ys: seq<int>, k: int, sq: Box, m: int, q: int)
  {
    && 0 <= m < |xs| && 0 <= q < |ys|
    && xs[m] >= 0 && ys[q] >= 0
    && sq == Box(xs[m], xs[m] + k, ys[q], ys[q] + k)
  }

  lemma {:induction false} ColumnSquaresMembers(xs: seq<int>, m: nat, ys: seq<int>, k: int)
    requires m < |xs|
    ensures forall sq :: sq in ColumnSquares(xs[m], ys, k) <==> exists q :: SquareAt(xs, ys, k, sq, m, q)
    decreases |ys|
  {
    if |ys| > 0 {
      var ys' := ys[..|ys| - 1];
      ColumnSquaresMembers(xs, m, ys', k);
      forall sq | sq in ColumnSquares(xs[m], ys, k)
        ensures exists q :: SquareAt(xs, ys, k, sq, m, q)
      {
        if sq in ColumnSquares(xs[m], ys', k) {
          var q :| SquareAt(xs, ys', k, sq, m, q);
          assert SquareAt(xs, ys, k, sq, m, q);
        } else {
          assert SquareAt(xs, ys, k, sq, m, |ys| - 1);
        }
      }
      forall sq, q | SquareAt(xs, ys, k, sq, m, q)
        ensures sq in ColumnSquares(xs[m], ys, k)
      {
        if q < |ys| - 1 {
          assert SquareAt(xs, ys', k, sq, m, q);
        }
      }
    }
  }

  /** `convolve_box` lists exactly the squares of side `kernel_size` at the
      non-negative corners `(x_min - step + m * step, y_min - step + q * step)`
      for `m` below `(x_max - x_min + 2 step) // step` and `q` below the
      same count for the rows. */
  lemma {:induction false} SquaresMembers(xs: seq<int>, ys: seq<int>, k: int)
    ensures forall sq :: sq in Squares(xs, ys, k) <==> exists m, q :: SquareAt(xs, ys, k, sq, m, q)
    decreases |xs|
  {
    if |xs| > 0 {
      var xs' := xs[..|xs| - 1];
      SquaresMembers(xs', ys, k);
      ColumnSquaresMembers(xs, |xs| - 1, ys, k);
      forall sq | sq in Squares(xs, ys, k)
        ensures exists m, q :: SquareAt(xs, ys, k, sq, m, q)
      {
        if sq in Squares(xs', ys, k) {
          var m, q :| SquareAt(xs', ys, k, sq, m, q);
          assert SquareAt(xs, ys, k, sq, m, q);
        }
      }
      forall sq, m, q | SquareAt(xs, ys, k, sq, m, q)
        ensures sq in Squares(xs, ys, k)
      {
        if m < |xs| - 1 {
          assert SquareAt(xs', ys, k, sq, m, q);
        }
      }
    }
  }

  /** Each box starts on a lower row than the ones before it. */
  predicate RowsAscending(c: seq<Box>)
  {
    forall i, j :: 0 <= i < j < |c| ==> c[i].ymin < c[j].ymin
  }

  /** Boxes ordered by column, then by row, of their top-left corner. */
  predicate ColumnMajor(r: seq<Box>)
  {
    forall i, j :: 0 <= i < j < |r| ==> r[i].xmin < r[j].xmin || (r[i].xmin == r[j].xmin && r[i].ymin < r[j].ymin)
  }

  /** The squares come column by column: with a positive step, a square
      listed earlier lies further left, or in the same column further up. */
  lemma {:induction false} SquaresXMajor(xs: seq<int>, ys: seq<int>, k: int)
    requires forall m :: 0 <= m < |xs| - 1 ==> xs[m] < xs[m + 1]
    requires forall q :: 0 <= q < |ys| - 1 ==> ys[q] < ys[q + 1]
    ensures ColumnMajor(Squares(xs, ys, k))
    decreases |xs|
  {
    if |xs| > 0 {
      var xs' := xs[..|xs| - 1];
      var x := xs[|xs| - 1];
      SquaresXMajor(xs', ys, k);
      SquaresMembers(xs', ys, k);
      ColumnSquaresOrdered(x, ys, k);
      var a := Squares(xs', ys, k);
      var c := ColumnSquares(x, ys, k);
      forall i | 0 <= i < |a|
        ensures a[i].xmin < x
      {
        assert a[i] in a;
        var m, q :| SquareAt(xs', ys, k, a[i], m, q);
        Increasing(xs, m, |xs| - 1);
      }
      ColumnSquaresAt(x, ys, k);
      var r := Squares(xs, ys, k);
      assert r == a + c;
      forall i, j | 0 <= i < j < |r|
        ensures r[i].xmin < r[j].xmin || (r[i].xmin == r[j].xmin && r[i].ymin < r[j].ymin)
      {
        if j < |a| {
          assert r[i] == a[i] && r[j] == a[j];
        } else if i < |a| {
          assert r[i] == a[i] && r[j] == c[j - |a|];
          assert a[i].xmin < x && c[j - |a|].xmin == x;
        } else {
          assert r[i] == c[i - |a|] && r[j] == c[j - |a|];
          assert c[i - |a|].xmin == x && c[j - |a|].xmin == x;
          assert c[i - |a|].ymin < c[j - |a|].ymin;
        }
      }
    }
  }

  lemma {:induction false} Increasing(xs: seq<int>, m: nat, n: nat)
    requires forall i :: 0 <= i < |xs| - 1 ==> xs[i] < xs[i + 1]
    requires m < n < |xs|
    ensures xs[m] < xs[n]
    decreases n - m
  {
    if m + 1 < n {
      Increasing(xs, m + 1, n);
    }
  }

  lemma {:induction false} ColumnSquaresAt(x: int, ys: seq<int>, k: int)
    ensures forall i :: 0 <= i < |ColumnSquares(x, ys, k)| ==>
      ColumnSquares(x, ys, k)[i].xmin == x && ColumnSquares(x, ys, k)[i].ymin in ys
    decreases |ys|
  {
    if |ys| > 0 {
      ColumnSquaresAt(x, ys[..|ys| - 1], k);
    }
  }

  lemma {:induction false} ColumnSquaresOrdered(x: int, ys: seq<int>, k: int)
    requires forall q :: 0 <= q < |ys| - 1 ==> ys[q] < ys[q + 1]
    ensures RowsAscending(ColumnSquares(x, ys, k))
    decreases |ys|
  {
    if |ys| > 0 {
      var ys' := ys[..|ys| - 1];
      ColumnSquaresOrdered(x, ys', k);
      ColumnSquaresAt(x, ys', k);
      var c' := ColumnSquares(x, ys', k);
      forall i | 0 <= i < |c'|
        ensures c'[i].ymin < ys[|ys| - 1]
      {
        var q :| 0 <= q < |ys'| && ys'[q] == c'[i].ymin;
        Increasing(ys, q, |ys| - 1);
      }
      var y := ys[|ys| - 1];
      var c := ColumnSquares(x, ys, k);
      assert c == c' + (if x >= 0 && y >= 0 then [Box(x, x + k, y, y + k)] else []);
      forall i, j | 0 <= i < j < |c|
        ensures c[i].ymin < c[j].ymin
      {
        if j < |c'| {
          assert c[i] == c'[i] && c[j] == c'[j];
          assert c'[i].ymin < c'[j].ymin;
        } else {
          assert c[i] == c'[i] && c[j].ymin == y;
          assert c'[i].ymin < y;
        }
      }
    }
  }

  /** Square `(m, q)` of the grid `convolve_box` lays over a box: its corner
      is `m` steps right and `q` steps down from one step before the box's
      top-left corner, it is one window wide and high, and both counts stay
      below the number of steps that reach one step past the box. */
  predicate Window(sc: Score, b: Box, sq: Box, m: int, q: int)
    requires sc.step != 0
  {
    var x := b.xmin - sc.step + m * sc.step;
    var y := b.ymin - sc.step + q * sc.step;
    && 0 <= m < FloorDiv(b.xmax - b.xmin + sc.step * 2, sc.step)
    && 0 <= q < FloorDiv(b.ymax - b.ymin + sc.step * 2, sc.step)
    && x >= 0 && y >= 0
    && sq == Box(x, x + sc.kernelSize, y, y + sc.kernelSize)
  }

  /** `convolve_box` yields exactly the grid's squares whose corner is not
      left of or above the page. */
  lemma ConvolveBoxWindows(sc: Score, b: Box)
    requires sc.step != 0
    ensures forall sq :: sq in ConvolveBox(sc, b).value <==> exists m, q :: Window(sc, b, sq, m, q)
  {
    var xs := Origins(b.xmin - sc.step, sc.step, FloorDiv(b.xmax - b.xmin + sc.step * 2, sc.step));
    var ys := Origins(b.ymin - sc.step, sc.step, FloorDiv(b.ymax - b.ymin + sc.step * 2, sc.step));
    var r := ConvolveBox(sc, b).value;
    assert r == Squares(xs, ys, sc.kernelSize);
    SquaresMembers(xs, ys, sc.kernelSize);
    forall sq | sq in r
      ensures exists m, q :: Window(sc, b, sq, m, q)
    {
      var m, q :| SquareAt(xs, ys, sc.kernelSize, sq, m, q);
      GridSquareIsWindow(sc, b, xs, ys, sq, m, q);
    }
    forall sq, m, q | Window(sc, b, sq, m, q)
      ensures sq in r
    {
      GridSquareIsWindow(sc, b, xs, ys, sq, m, q);
    }
  }

  /** With a positive step the squares come column by column, each column
      from the top down. */
  lemma ConvolveBoxColumnMajor(sc: Score, b: Box)
    requires sc.step > 0
    ensures ColumnMajor(ConvolveBox(sc, b).value)
  {
    var xs := Origins(b.xmin - sc.step, sc.step, FloorDiv(b.xmax - b.xmin + sc.step * 2, sc.step));
    var ys := Origins(b.ymin - sc.step, sc.step, FloorDiv(b.ymax - b.ymin + sc.step * 2, sc.step));
    OriginsIncrease(b.xmin - sc.step, sc.step, FloorDiv(b.xmax - b.xmin + sc.step * 2, sc.step));
    OriginsIncrease(b.ymin - sc.step, sc.step, FloorDiv(b.ymax - b.ymin + sc.step * 2, sc.step));
    SquaresXMajor(xs, ys, sc.kernelSize);
  }

  lemma OriginsIncrease(start: int, step: int, n: int)
    requires step > 0
    ensures var xs := Origins(start, step, n);
      forall m :: 0 <= m < |xs| - 1 ==> xs[m] < xs[m + 1]
  {
    var xs := Origins(start, step, n);
    forall m | 0 <= m < |xs| - 1
      ensures xs[m] < xs[m + 1]
    {
      assert (m + 1) * step == m * step + step;
    }
  }

  lemma GridSquareIsWindow(sc: Score, b: Box, xs: seq<int>, ys: seq<int>, sq: Box, m: int, q: int)
    requires sc.step != 0
    requires xs == Origins(b.xmin - sc.step, sc.step, FloorDiv(b.xmax - b.xmin + sc.step * 2, sc.step))
    requires ys == Origins(b.ymin - sc.step, sc.step, FloorDiv(b.ymax - b.ymin + sc.step * 2, sc.step))
    ensures SquareAt(xs, ys, sc.kernelSize, sq, m, q) <==> Window(sc, b, sq, m, q)
  {
  }

  /** The glyph lists of the staffs. */
  function StaffGlyphs(staffs: seq<Staff>): (lists: seq<seq<Glyph>>)
    ensures |lists| == |staffs|
  {
    seq(|staffs|, i requires 0 <= i < |staffs| => staffs[i].glyphs)
  }

  /** The centre rows of the staff boxes. */
  function Centres(staffs: seq<Staff>): (centres: seq<real>)
    ensures |centres| == |staffs|
  {
    seq(|staffs|, i requires 0 <= i < |staffs| => Nearest.CentreRow(staffs[i].box))
  }

  /** The top rows of the staff boxes. */
  function Tops(staffs: seq<Staff>): (tops: seq<int>)
    ensures |tops| == |staffs|
  {
    seq(|staffs|, i requires 0 <= i < |staffs| => staffs[i].box.ymin)
  }

  /** `position_glyphs(glyphs)`: every glyph goes to the first staff whose
      box centre row is nearest its own, with its rows counted from the top
      of that staff's box. */
  function PositionGlyphs(staffs: seq<Staff>, glyphs: seq<Glyph>): (r: Result<seq<Staff>>)
    ensures r.Ok? ==> |r.value| == |staffs|
  {
    var lists := StaffGlyphs(staffs);
    var centres := Centres(staffs);
    var offsets := Tops(staffs);
    var placed :- Nearest.Place(lists, centres, offsets, glyphs);
    Ok(seq(|staffs|, i requires 0 <= i < |staffs| => staffs[i].(glyphs := placed[i])))
  }

  /** An empty list of staffs is a `ValueError` as soon as there is a glyph;
      otherwise each staff keeps its box and start and receives exactly the
      glyphs whose centre row is first-nearest its box centre, in order,
      shifted by the top of its box. */
  lemma PositionGlyphsRoutes(staffs: seq<Staff>, glyphs: seq<Glyph>)
    ensures PositionGlyphs(staffs, glyphs).Ok? <==> (|staffs| > 0 || |glyphs| == 0)
    ensures PositionGlyphs(staffs, glyphs).Ok? && |staffs| > 0 ==>
      var centres := Centres(staffs);
      forall i :: 0 <= i < |staffs| ==>
        var st := PositionGlyphs(staffs, glyphs).value[i];
        && st.box == staffs[i].box && st.start == staffs[i].start
        && st.glyphs == staffs[i].glyphs + Nearest.RoutedTo(centres, glyphs, i, staffs[i].box.ymin)
  {
    var lists := StaffGlyphs(staffs);
    var centres := Centres(staffs);
    var offsets := Tops(staffs);
    Nearest.PlaceRoutes(lists, centres, offsets, glyphs);
  }
}
