/** `GetStaffModel` and `FitStaffModel`: the steps of the other modules put
    together. The Hough transform and the rotation of a straight page are
    OpenCV calls; their results come in as the angles of the detected lines
    and the rotated binary image. */
module StaffDetect {
  import opened Wrappers
  import opened Raster
  import Polarity
  import PageOrientation
  import Crop
  import RunLengths
  import GlyphRemoval
  import Components
  import Orientation
  import Interpolation
  import LinePoll
  import StaffGrouping

  /** `StaffModel`: the column gradient, the offset of the cropped image in
      the page, the run-length estimates, the rotation (degrees) and the
      cleaned image the fit polls. */
  datatype StaffModel = StaffModel(
    gradient: seq<real>,
    startCol: nat,
    startRow: nat,
    staffHeight: nat,
    staffSpace: nat,
    rot: real,
    straight: bool,
    staffImage: Grid)

  /** The binary image the model is estimated from: the rotated page when
      the page is straight, the binarized page otherwise. */
  function Base(src: Polarity.GrayImage, angles: seq<real>, rotated: Grid): (img: Grid)
    requires Polarity.IsGrayRect(src) && PageOrientation.AnglesInRange(angles) && WellFormed(rotated)
    ensures WellFormed(img)
  {
    if PageOrientation.Decide(angles).straight then rotated
    else Polarity.Binarize(src, Polarity.LitMajority(src))
  }

  /** The base image cropped to the bounding box of its ink. */
  function Cropped(src: Polarity.GrayImage, angles: seq<real>, rotated: Grid): (img: Grid)
    requires Polarity.IsGrayRect(src) && PageOrientation.AnglesInRange(angles) && WellFormed(rotated)
    ensures WellFormed(img)
  {
    var base := Base(src, angles, rotated);
    Crop.BoxOfIsTight(base);
    Crop.CropTo(base, Crop.BoxOf(base))
  }

  /** Both run-length histograms of the cropped image have an entry, so both
      estimates are assigned. */
  predicate HasEstimates(img: Grid)
    requires WellFormed(img)
  {
    RunLengths.Histogram(RunLengths.AllRuns(img), true) != map[]
    && RunLengths.Histogram(RunLengths.AllRuns(img), false) != map[]
  }

  /** The estimation of a staff model. `None` stands for the inputs on which
      the source's behaviour is undefined: an image without runs of both
      colours (the estimates stay unassigned) or an ink run longer than the
      threshold at the top of a column (the removal writes row `-1`). */
  method GetStaffModel(src: Polarity.GrayImage, angles: seq<real>, rotated: Grid) returns (r: Option<StaffModel>)
    requires Polarity.IsGrayRect(src) && PageOrientation.AnglesInRange(angles) && WellFormed(rotated)
    ensures r.None? ==> Undefined(Cropped(src, angles, rotated))
    ensures r.Some? ==> ModelOf(src, angles, rotated, r.value)
  {
    var invert := Polarity.BlackOnWhite(src);
    var decision := PageOrientation.Decide(angles);
    var base := if decision.straight then rotated else Polarity.Binarize(src, invert);
    assert base == Base(src, angles, rotated);
    Crop.BoxOfIsTight(base);
    var box := Crop.BoxOf(base);
    var img := Crop.CropTo(base, box);
    r := Estimate(img, box, decision.straight, decision.rot);
  }

  /** The cropped image leaves the source's behaviour undefined: one of the
      run-length histograms is empty, or the glyph removal with the staff
      height estimate would write above the image. */
  ghost predicate Undefined(img: Grid)
    requires WellFormed(img)
  {
    || !HasEstimates(img)
    || exists h :: RunLengths.IsMode(RunLengths.Histogram(RunLengths.AllRuns(img), true), h)
         && !GlyphRemoval.SafeImage(img, GlyphRemoval.Threshold(h))
  }

  /** The steps of `GetStaffModel` after the crop at `box`. */
  method Estimate(img: Grid, box: Crop.Box, straight: bool, rot: real) returns (r: Option<StaffModel>)
    requires WellFormed(img)
    ensures r.None? ==> Undefined(img)
    ensures r.Some? ==> ModelOfImage(img, box, straight, rot, r.value)
  {
    if !HasEstimates(img) {
      return None;
    }
    var h, s := RunLengths.StaffMetrics(img);
    if !GlyphRemoval.SafeImage(img, GlyphRemoval.Threshold(h)) {
      return None;
    }
    var staffImage := GlyphRemoval.RemoveGlyphs(img, h);
    var gradient := Gradient(staffImage, straight);
    r := Some(StaffModel(gradient, box.left, box.top, h, s, rot, straight, staffImage));
  }

  /** The gradient: zero at every column of a straight page, the
      interpolated column orientations of a curved one. */
  method Gradient(staffImage: Grid, straight: bool) returns (gradient: seq<real>)
    requires WellFormed(staffImage)
    ensures GradientOf(staffImage, straight, gradient)
  {
    var rows := |staffImage|;
    if straight {
      gradient := seq(Width(staffImage), _ => 0.0);
      forall y | 0 <= y < rows
        ensures LinePoll.TraceDefined(staffImage, gradient, 0, y)
      {
        LinePoll.StraightTraceDefined(staffImage, gradient, 0, y);
      }
    } else {
      var comps := Components.ImageComponents(staffImage);
      gradient := Interpolation.Interpolate(Orientation.Orientations(comps, rows), rows as real);
      assert |gradient| == |Orientation.Orientations(comps, rows)|;
    }
  }

  ghost predicate GradientOf(staffImage: Grid, straight: bool, gradient: seq<real>)
    requires WellFormed(staffImage)
  {
    && |gradient| == Width(staffImage)
    && (straight ==> forall i :: 0 <= i < |gradient| ==> gradient[i] == 0.0)
    && (straight ==> forall y :: 0 <= y < |staffImage| ==> LinePoll.TraceDefined(staffImage, gradient, 0, y))
    && (!straight ==>
         gradient == Interpolation.Interpolate(
           Orientation.Orientations(Components.ImageComponents(staffImage), |staffImage|),
           |staffImage| as real))
  }

  /** What a returned model holds, in terms of the steps it comes from. */
  ghost predicate ModelOf(src: Polarity.GrayImage, angles: seq<real>, rotated: Grid, m: StaffModel)
    requires Polarity.IsGrayRect(src) && PageOrientation.AnglesInRange(angles) && WellFormed(rotated)
  {
    var decision := PageOrientation.Decide(angles);
    ModelOfImage(Cropped(src, angles, rotated), Crop.BoxOf(Base(src, angles, rotated)), decision.straight, decision.rot, m)
  }

  /** What a model estimated from the image cropped at `box` holds. */
  ghost predicate ModelOfImage(img: Grid, box: Crop.Box, straight: bool, rot: real, m: StaffModel)
    requires WellFormed(img)
  {
    && m.straight == straight && m.rot == rot
    && m.startCol == box.left && m.startRow == box.top
    && RunLengths.IsMode(RunLengths.Histogram(RunLengths.AllRuns(img), true), m.staffHeight)
    && RunLengths.IsMode(RunLengths.Histogram(RunLengths.AllRuns(img), false), m.staffSpace)
    && 1 <= m.staffHeight < |img| && 1 <= m.staffSpace < |img|
    && GlyphRemoval.SafeImage(img, GlyphRemoval.Threshold(m.staffHeight))
    && m.staffImage == GlyphRemoval.ClearedImage(img, GlyphRemoval.Threshold(m.staffHeight))
    && WellFormed(m.staffImage)
    && GradientOf(m.staffImage, m.straight, m.gradient)
  }

  /** `Staffs`: the first and last line row of every staff. */
  function StaffRows(dets: seq<StaffGrouping.Detection>): (staffs: seq<(int, int)>)
    ensures |staffs| == |dets|
  {
    seq(|dets|, j requires 0 <= j < |dets| => (dets[j].start as int, dets[j].finish as int))
  }

  /** The fit of a model: the per-row poll, then the grouping of the line
      rows into staffs. The trace reads column `idx` of the cropped image
      for gradient entry `idx`. */
  method FitStaffModel(m: StaffModel, fuel: nat)
    returns (lines: seq<bool>, dets: seq<StaffGrouping.Detection>, staffs: seq<(int, int)>, status: StaffGrouping.Status)
    requires WellFormed(m.staffImage)
    requires forall y :: 0 <= y < |m.staffImage| ==> LinePoll.TraceDefined(m.staffImage, m.gradient, 0, y)
    ensures |lines| == |m.staffImage|
    ensures forall y :: 0 <= y < |lines| ==>
      lines[y] == LinePoll.IsLine(LinePoll.Poll(m.staffImage, m.gradient, 0, y, m.straight, m.staffHeight, |m.gradient|), |m.gradient|)
    ensures staffs == StaffRows(dets)
    ensures forall j :: 0 <= j < |staffs| ==>
      staffs[j].1 - staffs[j].0 == StaffGrouping.StaffSize(m.staffHeight, m.staffSpace) && 0 <= staffs[j].0 < |lines|
    ensures FitOf(lines, m, dets, status)
  {
    lines := LinePoll.StaffLines(m.staffImage, m.gradient, 0, m.straight, m.staffHeight);
    StaffGrouping.DuplicatesRange(lines, m.staffHeight);
    var duplicates: nat := StaffGrouping.Duplicates(lines, m.staffHeight);
    dets, status := StaffGrouping.GroupStaffs(lines, m.staffHeight, m.staffSpace, duplicates, fuel);
    staffs := StaffRows(dets);
    var kernel := StaffGrouping.KernelRows(m.staffHeight, m.staffSpace, duplicates);
    StaffRowsBounds(lines, kernel, StaffGrouping.Threshold(lines, kernel), m.staffHeight, m.staffSpace, dets);
  }

  /** Every staff of valid detections starts on a row of the image and is
      one staff band high. */
  lemma StaffRowsBounds(lines: seq<bool>, kernel: nat, thr: nat, h: nat, s: nat, dets: seq<StaffGrouping.Detection>)
    requires StaffGrouping.AllValid(lines, kernel, thr, h, s, dets)
    ensures forall j :: 0 <= j < |StaffRows(dets)| ==>
      StaffRows(dets)[j].1 - StaffRows(dets)[j].0 == StaffGrouping.StaffSize(h, s) && 0 <= StaffRows(dets)[j].0 < |lines|
  {
    var staffs := StaffRows(dets);
    forall j | 0 <= j < |staffs|
      ensures staffs[j].1 - staffs[j].0 == StaffGrouping.StaffSize(h, s) && 0 <= staffs[j].0 < |lines|
    {
      assert StaffGrouping.ValidDetection(lines, kernel, thr, h, s, dets[j]);
    }
  }

  /** The grouping guarantees of a fit, with the kernel of the rounded
      duplicate count. */
  predicate FitOf(lines: seq<bool>, m: StaffModel, dets: seq<StaffGrouping.Detection>, status: StaffGrouping.Status)
  {
    var duplicates := StaffGrouping.Duplicates(lines, m.staffHeight);
    && 0 <= duplicates <= m.staffHeight + 1
    && var kernel := StaffGrouping.KernelRows(m.staffHeight, m.staffSpace, duplicates as nat);
    && var thr := StaffGrouping.Threshold(lines, kernel);
    && StaffGrouping.AllValid(lines, kernel, thr, m.staffHeight, m.staffSpace, dets)
    && StaffGrouping.Chained(lines, kernel, thr, m.staffSpace, dets)
    && (status == StaffGrouping.Finished ==> StaffGrouping.AllBelow(lines, kernel, thr, StaffGrouping.ScanFrom(dets, m.staffSpace), |lines|))
    && (status == StaffGrouping.ReadOutside ==> |lines| > 0 && (lines[0] || lines[|lines| - 1]))
  }

  /** On a straight model the fit polls exactly the ink of each row: row `y`
      is a line row when at least a quarter of its pixels are ink. */
  lemma StraightFitPollsRows(m: StaffModel, y: nat)
    requires WellFormed(m.staffImage) && y < |m.staffImage| && m.straight
    requires |m.gradient| == Width(m.staffImage)
    requires forall i :: 0 <= i < |m.gradient| ==> m.gradient[i] == 0.0
    ensures LinePoll.TraceDefined(m.staffImage, m.gradient, 0, y)
    ensures LinePoll.IsLine(LinePoll.Poll(m.staffImage, m.gradient, 0, y, m.straight, m.staffHeight, |m.gradient|), |m.gradient|)
      <==> LinePoll.RowInk(m.staffImage[y], 0, Width(m.staffImage)) >= Width(m.staffImage) / LinePoll.MinPollRatio
  {
    LinePoll.StraightTraceDefined(m.staffImage, m.gradient, 0, y);
    LinePoll.StraightPollCountsRow(m.staffImage, m.gradient, 0, y, m.staffHeight, |m.gradient|);
  }

  /** As written, `FitStaffModel` reads column `idx + start_col` of the
      cropped image for gradient entry `idx`, while the gradient has one
      entry per column of that image: with any crop offset the trace leaves
      the image. */
  lemma CropOffsetLeavesImage(img: Grid, g: seq<real>, startCol: nat, y: nat)
    requires WellFormed(img) && |g| == Width(img) && startCol > 0
    ensures !LinePoll.TraceDefined(img, g, startCol, y)
  {
  }
}
