# auto-score: staff detection and ground-truth geometry in Dafny

This project models the core of auto-score, a tool that finds the staffs of
a scanned music sheet and cuts labelled training samples from it. It has
two halves.

**Staff detection (C++).** `GetStaffModel` first decides whether the page
is black on white and binarizes it. It sorts the line angles into a
histogram to decide between a straight page and a curved one, then crops
the image to its ink. The staff line height and the staff space are the
modal ink run and the modal background run over all columns. Ink runs
longer than a line are erased. A curved page also gets a gradient: the
orientation of each column from its connected components, with undefined
columns interpolated. `FitStaffModel` polls every row along the gradient to
flag line rows. It slides a window of about one staff over the flags,
finds each staff by hysteresis, and snaps its first row onto a line.

**Ground-truth geometry (Python).** The tooling reads a staff header
(`Score` in `src/score.py`, its variant in `src/musicdata2.py`). It places
staff boxes, routes glyphs to the nearest staff, and finds column runs and
convolution windows. The `MusicFile` readers (three copies) compute a
kernel and put glyphs into per-staff divisions. They elect one glyph per
division and cut a labelled sample for each division. `sort_by_writers`
reads writer and page from dataset file names and groups the files. The
small path helpers of the C++ side are modelled too.

Images are sequences of rows. A binary image is `seq<seq<bool>>` with
`true` for ink. Reals stand in for doubles and floats. Python exceptions
are `Err` values of a `Result`, and a Python `assert` becomes a
precondition. Behaviour that the C++ leaves undefined (reads outside an
image) is excluded by a precondition, or made visible as `None`, as noted
below.

The files follow the program's structure:

- `polarity`, `page_orientation`, `crop`, `raster`, `run_lengths`,
  `glyph_removal`, `components`, `orientation` and `interpolation` model the
  steps of `GetStaffModel`.
- `line_poll` and `staff_grouping` model `FitStaffModel`.
- `staff_detect` ties these steps together.
- `filenames` models the path helpers.
- `py_seq`, `py_text`, `intervals`, `nearest`, `stav_header`, `score_runs`,
  `score`, `musicdata2`, `music_file` and `writers` model the Python side.

## Model

| member | source | states |
|---|---|---|
| Numeric.Round | src/autoscore/staff.cc:472 | C `round` gives the integer within one half of its argument, non-negative for a non-negative argument, and a half is rounded away from zero |
| Numeric.RoundWithin | src/autoscore/staff.cc:468-472 | a value between two integers rounds to an integer between them |
| Numeric.Trunc | src/musicdata.py:334 | Python `int()` of a float is the integer part, truncated toward zero on both signs |
| Numeric.FloorDiv | src/score.py:57 | Python `//` is the quotient rounded toward minus infinity, for both signs of the divisor |
| Polarity.BlackOnWhite | src/autoscore/staff.cc:77-90 | the page is black on white exactly when, in the top-left quadrant, the non-zero samples are at least as many as the zero ones |
| Polarity.UniformVotes | src/autoscore/staff.cc:77-90 | an all-dark quadrant votes "not black on white"; an all-bright or empty quadrant votes "black on white" |
| Polarity.Binarize | src/autoscore/staff.cc:99-100 | the binary image has the shape of the gray page |
| Polarity.BinarizePolarity | src/autoscore/staff.cc:99-100 | an inverted page keeps as ink exactly the samples at or below 220, so white paper becomes background and black print ink; otherwise ink is any non-zero sample |
| PageOrientation.BinOf | src/autoscore/staff.cc:112-116 | the bin of an angle in [0, 180) is one of the 20 bins of 9 degrees, and the angle lies inside it |
| PageOrientation.MajorityBin | src/autoscore/staff.cc:118-125 | the majority bin holds the highest count, and every bin before it holds strictly fewer lines |
| PageOrientation.Decide | src/autoscore/staff.cc:127-145 | the page is straight exactly when there are more than ten lines and the majority bin holds at least 70% of them; a straight page is rotated by the epsilon-damped mean angle of that bin, a curved one by 90 degrees |
| PageOrientation.HistogramTotal | src/autoscore/staff.cc:110-116 | every line falls into exactly one bin: the bin counts add up to the number of lines |
| PageOrientation.FewLinesCurved | src/autoscore/staff.cc:136-145 | ten lines or fewer, including none, leave the page curved at 90 degrees |
| PageOrientation.StraightRotationInBin | src/autoscore/staff.cc:127-145 | the rotation of a straight page is non-negative and below the upper edge of its majority bin |
| PageOrientation.OneBinStraight | src/autoscore/staff.cc:118-145 | more than ten lines all in one bin make the page straight, with that bin as the majority |
| Crop.TopFrom | src/autoscore/staff.cc:147-149 | the first row with ink at or after a row, with no ink in the rows skipped |
| Crop.BottomBefore | src/autoscore/staff.cc:147-149 | one past the last row with ink before a bound, with no ink after it |
| Crop.LeftFrom | src/autoscore/staff.cc:147-149 | the first column with ink at or after a column, with no ink in the columns skipped |
| Crop.RightBefore | src/autoscore/staff.cc:147-149 | one past the last column with ink before a bound, with no ink after it |
| Crop.InkSpans | src/autoscore/staff.cc:147-149 | on a page with ink, the first ink row and column lie before the ends of the last ones |
| Crop.CropTo | src/autoscore/staff.cc:150 | cropping to a box that fits gives an image of the box's height and width |
| Crop.BoxOfIsTight | src/autoscore/staff.cc:147-152 | the bounding box fits the image and holds every ink pixel, each of its four borders touches ink, and it is empty exactly when the page has no ink |
| Crop.BoxOf | src/autoscore/staff.cc:147-149 | `boundingRect(findNonZero(img))`: from the first ink row and column to one past the last ones, or the empty box at the origin without ink; its tightness is stated by `Crop.BoxOfIsTight` |
| Crop.CropKeepsInk | src/autoscore/staff.cc:147-152 | every ink pixel of the page is ink in the crop, at its position relative to the box |
| Runs.RunEnd | src/autoscore/staff.cc:163-176 | the end of the maximal constant run around a row: the values up to it equal the row's value, and the value at the end differs |
| Runs.RunStart | src/autoscore/staff.cc:163-176 | the start of the maximal constant run around a row, the value before it being different |
| Runs.MaximalRunBounds | src/autoscore/staff.cc:163-176 | every row of a maximal run has that run as its own run |
| Runs.ClosedRunsShape | src/autoscore/staff.cc:163-177 | the scanner records only runs closed by a polarity change; they follow one another without gaps and stop where the bottom run starts |
| Runs.ClosedRunsTile | src/autoscore/staff.cc:163-177 | the recorded lengths add up to the rows above the bottom run |
| Runs.ColumnRunsSum | src/autoscore/staff.cc:163-177 | over a whole column, the recorded lengths reach the last polarity change, and below it the column is constant |
| Runs.ClosedRunsStep | src/autoscore/staff.cc:166-175 | a run ended by a change is recorded first, with its polarity and length |
| Runs.ClosedRunsLast | src/autoscore/staff.cc:163-177 | the run that reaches the bottom of a column is never recorded |
| RunLengths.HistogramCounts | src/autoscore/staff.cc:159-177 | a histogram has an entry exactly for the lengths that occur, holding the number of runs of that length and polarity |
| RunLengths.RunLengthHistograms | src/autoscore/staff.cc:159-177 | the scan of all columns yields the ink and background histograms of the recorded runs |
| RunLengths.ScanColumn | src/autoscore/staff.cc:164-176 | one column adds exactly its recorded runs to the two histograms |
| RunLengths.ModeUnique | src/autoscore/staff.cc:179-194 | a histogram has at most one mode in the sense of the selection loop |
| RunLengths.ModalLength | src/autoscore/staff.cc:179-194 | the selection loop keeps the smallest length among those with the highest count |
| RunLengths.HistogramKeysBounded | src/autoscore/staff.cc:159-177 | every recorded length is at least one and shorter than the column |
| RunLengths.StaffMetrics | src/autoscore/staff.cc:179-198 | the staff height is the modal ink run length and the staff space the modal background run length, both between one and the image height |
| GlyphRemoval.ClearRows | src/autoscore/staff.cc:212-213 | the inner loop turns rows [lo, hi) into background and changes nothing else |
| GlyphRemoval.Cleared | src/autoscore/staff.cc:205-221 | the column the removal leaves: a row is ink exactly when it was ink and not in an ink run longer than `staff_height + 1` that background closes; its properties are stated by `GlyphRemoval.ClearedOnlyErasesInk` |
| GlyphRemoval.ClearColumn | src/autoscore/staff.cc:205-221 | one column of the removal scan erases exactly the long ink runs closed by background |
| GlyphRemoval.RemoveGlyphs | src/autoscore/staff.cc:200-221 | the in-place scan over all columns gives the cleared image |
| GlyphRemoval.ClearedOnlyErasesInk | src/autoscore/staff.cc:200-221 | removal keeps the length, only turns ink into background, and changes a row exactly when it lies in a long closed ink run |
| GlyphRemoval.BottomRunSurvives | src/autoscore/staff.cc:205-221 | the run that reaches the bottom of a column is kept, however long |
| GlyphRemoval.SurvivingRunUnchanged | src/autoscore/staff.cc:205-221 | a kept ink row keeps its maximal run after removal |
| GlyphRemoval.ClearedIdempotent | src/autoscore/staff.cc:205-221 | a second removal pass over a column erases nothing |
| GlyphRemoval.ClearedImageIdempotent | src/autoscore/staff.cc:200-221 | a second removal pass over an image erases nothing |
| Components.ComponentsShape | src/autoscore/staff.cc:227-251 | every component is a block of ink rows ending before the last row, and the components come top to bottom without overlap |
| Components.ImageComponents | src/autoscore/staff.cc:231-233 | one component list per column |
| Components.ComponentsAreInkRuns | src/autoscore/staff.cc:233-251 | the components are the ink runs the histogram scan records, plus the bottom run one row shorter when it is ink and spans at least two rows |
| Components.SingleRowNoComponents | src/autoscore/staff.cc:236-238 | a one-row column has no component |
| Orientation.Nearest | src/autoscore/staff.cc:270-279 | the stored offset is either the initial distance or the centre offset of one of the next column's components |
| Orientation.Samples | src/autoscore/staff.cc:266-284 | a component gathers at most k slope samples, each in [-1, 1] |
| Orientation.LocalAverages | src/autoscore/staff.cc:262-288 | every local average of a column lies in [-1, 1] |
| Orientation.ColumnOrientation | src/autoscore/staff.cc:256-292 | a column's orientation is the sentinel (the row count) or lies in [-1, 1] |
| Orientation.Orientations | src/autoscore/staff.cc:254 | one orientation per column |
| Orientation.MeanBounds | src/autoscore/staff.cc:290-291 | the mean of values in [-1, 1] stays in [-1, 1] |
| Orientation.FewComponentsUndefined | src/autoscore/staff.cc:259-260 | a column with fewer than five components keeps the sentinel |
| Orientation.LastColumnUndefined | src/autoscore/staff.cc:266-269 | the last column has no column to compare with and keeps the sentinel |
| Orientation.OrientationRange | src/autoscore/staff.cc:253-293 | every defined orientation lies in [-1, 1] |
| Orientation.NearestLowered | src/autoscore/staff.cc:270-279 | the walk over a column moved down by any number of rows stores the same offset |
| Orientation.SamplesLowered | src/autoscore/staff.cc:266-284 | a component and a page moved down together gather the same slope samples |
| Orientation.OrientationsLowered | src/autoscore/staff.cc:253-293 | the orientations depend only on relative rows: a page whose components all move down by the same number of rows has the same orientation in every column |
| Orientation.MeanConstant | src/autoscore/staff.cc:286-291 | the mean of equal values is that value |
| Orientation.LocalAveragesConstant | src/autoscore/staff.cc:262-288 | when every slope sample of a column is v, every local average is v, and one exists once some component gathered a sample |
| Orientation.OrientationOfConstantSlope | src/autoscore/staff.cc:256-292 | a column of at least five components whose accepted slope samples all equal v, one at least, has orientation v |
| Orientation.SampleOfMovedComponent | src/autoscore/staff.cc:270-284 | a next column holding only the component moved down d rows per step, with d at most 1, stores the offset d times the step, giving the sample d |
| Interpolation.NextDefined | src/autoscore/staff.cc:303-310 | the first defined entry at or after an index, with only sentinels skipped |
| Interpolation.Adjust | src/autoscore/staff.cc:311-318 | a missing end of a gap is copied from the other end |
| Interpolation.Fill | src/autoscore/staff.cc:298-324 | the output of the loop from an index on, with the two carried values, has one entry per remaining input entry |
| Interpolation.Interpolate | src/autoscore/staff.cc:295-324 | interpolation keeps the length and never changes a defined entry |
| Interpolation.FillKeepsDefined | src/autoscore/staff.cc:298-324 | from any point of the walk, no defined entry changes |
| Interpolation.AllUndefinedUnchanged | src/autoscore/staff.cc:295-324 | a sequence of sentinels stays as it is |
| Interpolation.SingleValueSpreads | src/autoscore/staff.cc:295-324 | a single defined value fills the whole sequence |
| Interpolation.FillReaches | src/autoscore/staff.cc:298-302 | the walk visits every defined entry that does not close a gap |
| Interpolation.GapFill | src/autoscore/staff.cc:319-323 | an inner gap after a visited entry is filled with the reversed ramp from the entry after the gap toward the one before it, so its first entry gets the closing value |
| Interpolation.StalePrevExample | src/autoscore/staff.cc:298-310 | the entry that closes a gap is skipped, so the next gap ramps from the stale earlier value |
| Interpolation.StaleNextExample | src/autoscore/staff.cc:311-318 | a trailing gap after an earlier gap ramps toward the stale closing value instead of copying the last value |
| LinePoll.Poll | src/autoscore/staff.cc:349-375 | a row's poll never exceeds the number of gradient entries read |
| LinePoll.Est | src/autoscore/staff.cc:352-353 | `estimated_y` after a number of gradient entries: the start row plus their sum |
| LinePoll.Hit | src/autoscore/staff.cc:354-373 | a traced point counts when it passes the bound check and its rounded pixel is ink or, for a curved model, the padding finds ink |
| LinePoll.StaffLines | src/autoscore/staff.cc:345-381 | one flag per row, set exactly when the row's poll along the gradient reaches a quarter of the gradient length |
| LinePoll.PadLoop | src/autoscore/staff.cc:364-373 | the padding loop with its break finds ink within the staff height above or below the traced point exactly as the recursive definition says |
| LinePoll.StraightPollCountsRow | src/autoscore/staff.cc:349-375 | on an all-zero gradient, the poll counts the ink pixels of the row at the traced columns |
| LinePoll.PaddingOnlyAdds | src/autoscore/staff.cc:364-373 | the padding of a curved model only adds hits |
| LinePoll.NoPaddingSamePoll | src/autoscore/staff.cc:364-373 | with a zero staff height both regimes poll alike |
| LinePoll.StraightTraceDefined | src/autoscore/staff.cc:354-360 | a straight trace over columns that fit reads only existing pixels |
| StaffGrouping.CountLines | src/autoscore/staff.cc:421-426 | a window never counts more line rows than it has rows |
| StaffGrouping.KernelRows | src/autoscore/staff.cc:410-419 | `KERNEL_SIZE` lines, their spaces and the rounded duplicates make one staff plus the duplicates, since `KERNEL_SIZE` equals `LINES_PER_STAFF` |
| StaffGrouping.Window | src/autoscore/staff.cc:420-426 | a window count never exceeds the kernel nor the rows left below its start, and is zero at the bottom or with an empty kernel |
| StaffGrouping.MaxWindow | src/autoscore/staff.cc:420-429 | the best window count is reached by some window and exceeded by none |
| StaffGrouping.CountBelow | src/autoscore/staff.cc:463-465 | the count of below-threshold rows never exceeds the rows scanned |
| StaffGrouping.Search | src/autoscore/staff.cc:447-467 | the search ends after its entry row, keeps exactly the rows with the largest window, and stops at the bottom or right after the first row that brings the below-threshold count past twice the staff space |
| StaffGrouping.StopIsUnique | src/autoscore/staff.cc:447-467 | the stopping condition names one row: two stops that both meet it are equal |
| StaffGrouping.CentroidWithin | src/autoscore/staff.cc:468-472 | the rounded centroid of peak rows lies between the lowest and the highest of them |
| StaffGrouping.Centroid | src/autoscore/staff.cc:468-472 | `start = round(sum / maxes.size())` with C rounding; its range is stated by `StaffGrouping.CentroidWithin` |
| StaffGrouping.GapAbove | src/autoscore/staff.cc:479-481 | the upward walk stops at the first non-line row above the run |
| StaffGrouping.GapBelow | src/autoscore/staff.cc:486-488 | the downward walk stops at the first non-line row below the run |
| StaffGrouping.SnapFrom | src/autoscore/staff.cc:473-494 | the snap is undefined exactly when a walk would read outside the flags; a moved start lands on a line row, and a kept start met no line row within reach |
| StaffGrouping.Snap | src/autoscore/staff.cc:473-494 | a line-row start is kept, any other start is snapped by the walks within `staff_space + staff_height`; its properties are stated by `StaffGrouping.SnapLandsOnLine` |
| StaffGrouping.SnapLandsOnLine | src/autoscore/staff.cc:473-494 | a line-row start is kept; otherwise the start moves onto a line row, or stays because no line row lies within staff space plus staff height |
| StaffGrouping.SnapDefinedByBorders | src/autoscore/staff.cc:476-488 | when the first and last rows are not line rows, every snap walk stays inside |
| StaffGrouping.Detect | src/autoscore/staff.cc:446-497 | one detection from an entry row is valid, or it fails only when the first or last row is a line row |
| StaffGrouping.GroupStaffs | src/autoscore/staff.cc:438-499 | every staff found is valid and chained to the previous one; a finished scan leaves only below-threshold rows after the last staff; a walk outside the flags needs a line row at the top or the bottom |
| StaffGrouping.BreakRow | src/autoscore/staff.cc:391-399 | the duplicate count stops at the first non-line row, or at the first row more than the staff height below its start |
| StaffGrouping.DupScanBounds | src/autoscore/staff.cc:383-404 | each counted line row contributes between one and staff height plus one rows, and no line row is counted exactly when there is none |
| StaffGrouping.DuplicatesRange | src/autoscore/staff.cc:383-412 | the extra kernel rows lie in [0, staff height + 1] and are zero exactly when no row is a line row |
| StaffGrouping.Duplicates | src/autoscore/staff.cc:383-412 | `round(avg_duplicate)` with the epsilon-damped divisor; its range is stated by `StaffGrouping.DuplicatesRange` |
| StaffGrouping.TrailingRunCountedPerRow | src/autoscore/staff.cc:386-400 | a run of line rows that reaches the last row is counted again from each of its rows |
| StaffDetect.Base | src/autoscore/staff.cc:99-145 | the image the model is estimated from is well formed |
| StaffDetect.Cropped | src/autoscore/staff.cc:147-152 | the cropped image is well formed |
| StaffDetect.GetStaffModel | src/autoscore/staff.cc:94-329 | a returned model is built from the steps (polarity, orientation, crop, modal runs, glyph removal, gradient); no model only where the source is undefined: a missing run colour or a long ink run at a column's top |
| StaffDetect.Estimate | src/autoscore/staff.cc:159-329 | from the cropped image: no model only when a run colour is missing or the glyph removal would write above the image; otherwise the modal run lengths, the cleared image and its gradient, with the crop offset |
| StaffDetect.Gradient | src/autoscore/staff.cc:154-157 | a straight page gets a zero gradient over its columns, a curved page the interpolated column orientations |
| StaffDetect.StaffRows | src/autoscore/staff.cc:495-497 | one row pair per detected staff |
| StaffDetect.FitStaffModel | src/autoscore/staff.cc:341-502 | one flag per row from polling column `idx` for gradient entry `idx`; every staff spans exactly five lines and four spaces from a row inside the image, with the grouping guarantees |
| StaffDetect.StraightFitPollsRows | src/autoscore/staff.cc:349-381 | on a straight model a row is a line row exactly when at least a quarter of its pixels are ink |
| StaffDetect.CropOffsetLeavesImage | src/autoscore/staff.cc:354 | as written, any positive crop offset makes the trace read past the image's columns |
| Filenames.LastIndexOf | src/autoscore/util.cc:6-7 | the last position of a character, or -1, with no occurrence after it |
| Filenames.StripFn | src/autoscore/util.cc:3-16 | the part after the last '/': it contains no '/', and the path is what precedes it, a '/', then it; a path without '/' is kept |
| Filenames.StripExt | src/autoscore/util.cc:18-31 | the part before the last '.': the path is it, a '.', and a tail without '.'; a path without '.' is kept |
| Filenames.StripFnIdempotent | src/autoscore/util.cc:3-16 | stripping the directory twice is stripping it once |
| Filenames.Find | include/autoscore/util.hh:26-28 | `find` gives the first occurrence at or after the start, or -1 when there is none |
| Filenames.IsImageIff | include/autoscore/util.hh:25-29 | a name is an image exactly when ".png", ".jpg" or ".PNG" occurs in it |
| Filenames.IsImageRejectsEmpty | include/autoscore/util.hh:25-29 | the empty name is not an image |
| Filenames.IsImageCaseSensitive | include/autoscore/util.hh:25-29 | ".JPG" and ".Png" names are refused |
| Filenames.IsImageMonotone | include/autoscore/util.hh:25-29 | a name that embeds an image name is an image |
| DeepScoresNames.StripFn | src/binaries/deepscores.cc:13-26 | the loop copy of `strip_fn` computes the same as the shared helper and leaves no '/' |
| DeepScoresNames.StripExt | src/binaries/deepscores.cc:28-41 | the loop copy of `strip_ext` computes the same as the shared helper, cut at a '.' |
| PySeq.Index | src/musicdata.py:211 | an index is valid exactly when it lies in [-n, n), and a negative one counts from the end |
| PySeq.Bound | src/musicdata.py:209 | slice bounds count negative values from the end and stop at both ends |
| PySeq.Slice | src/musicdata.py:209 | `s[i:j]` is the part between the normalised bounds, or empty when they cross |
| PySeq.SliceFrom | src/musicdata.py:221 | `s[i:]` is the part from the normalised bound |
| PySeq.Slice2 | src/musicdata.py:377-380 | a 2-D slice is the row slice with every row sliced by the columns |
| PySeq.Slice2Inside | src/musicdata.py:377-380 | a window inside a rectangular array is cut out exactly, pixel by pixel |
| PyText.ParseInt | src/musicdata.py:209 | `int()` accepts exactly an optional sign followed by ASCII digits, and reads digits as their decimal value |
| PyText.ZFill | src/musicdata.py:222 | `zfill` keeps a string that is long enough, and otherwise pads an unsigned one with leading zeros to the width |
| PyText.ZFillRoundTrip | src/musicdata.py:209-222 | `int(str(n).zfill(w))` is `n` for every natural `n` |
| PyText.ShowNatValue | src/musicdata.py:222 | `str` of a natural number reads back as that number |
| Intervals.CrossSection | src/musicdata.py:123-137 | the overlap of two intervals is never negative, positive exactly when they meet, and then the length of their intersection |
| Intervals.CrossSectionSymmetric | src/musicdata.py:123-137 | the overlap does not depend on the order of the intervals |
| Intervals.CrossSectionBounded | src/musicdata.py:123-137 | the overlap is no longer than either interval |
| Intervals.CrossSectionDisjoint | src/musicdata.py:123-137 | disjoint or touching intervals do not overlap |
| Intervals.Overlap | src/musicdata.py:370-375 | the overlap of two boxes is never negative |
| Intervals.OverlapAtMostArea | src/autoscore/musicdata.py:97-100 | the overlap of a division with a glyph never exceeds the glyph's area, so the assertion always holds |
| Nearest.ArgMin | src/score.py:83 | `argmin` gives the first index of a smallest value |
| Nearest.Route | src/score.py:80-83 | a glyph goes to the first staff whose centre row is nearest its own |
| Nearest.Place | src/score.py:79-89 | placing keeps one glyph list per staff |
| Nearest.PlaceRoutes | src/score.py:79-89 | placing fails only with glyphs and no staff; otherwise each staff gets, after its own glyphs, exactly the glyphs routed to it, in order and shifted by its offset |
| StavHeader.Check | src/score.py:25-36 | the header passes exactly when the tag is "stav", the rotation is within 0.1 of the vertical, and the gradient is all zero; it then gives the staff length; every failure is a ValueError |
| ScoreRuns.FirstFrom | src/score.py:211-212 | the first index at or after a position holding a value, the entries skipped not holding it |
| ScoreRuns.ArgMaxFrom | src/score.py:211-212 | `argmax` of a suffix plus its offset stays inside the array |
| ScoreRuns.ConnectedComp | src/score.py:205-215 | the scan fails exactly on an empty profile |
| ScoreRuns.RunsFromShape | src/score.py:205-215 | the pairs reported are the maximal runs of set entries closed by a clear entry, with increasing beginnings, followed by one empty pair, and they cover every closed run |
| ScoreRuns.NothingClosedFrom | src/score.py:210-213 | when the loop stops at once, no set entry is followed by a clear one |
| ScoreRuns.ConnectedCompShape | src/score.py:205-215 | on a non-empty profile the runs are shaped and cover every closed run |
| ScoreRuns.TrailingRunDropped | src/score.py:205-215 | a run that reaches the end of the profile is reported as the empty pair |
| ScoreRuns.Chain | src/score.py:225-229 | a chain joins runs whose gaps are within the threshold and ends at a larger gap, or at the last run |
| ScoreRuns.Spans | src/score.py:223-231 | the merged index ranges lie inside the runs |
| ScoreRuns.SpansTile | src/score.py:218-232 | the merged ranges tile the runs, each separated from the next by a gap above the threshold |
| ScoreRuns.LastRunMerged | src/score.py:225-229 | the last range reaches the last run exactly when the last gap is within the threshold |
| ScoreRuns.MergeShape | src/score.py:217-232 | one run or none is returned as is; otherwise every output spans input runs, consecutive outputs lie more than the threshold apart, and the last run survives only when merged |
| ScoreRuns.FilterCC | src/score.py:180-182 | the filter keeps exactly the runs at least the threshold wide |
| ScoreRuns.FilterAppend | src/score.py:180-182 | the filter keeps the order: it distributes over concatenation |
| ScoreRuns.FilterIdempotent | src/score.py:180-182 | filtering twice is filtering once |
| Score.NewScore | src/score.py:22-68 | the score exists exactly when the header passes, every failure is a ValueError, and there is one staff per offset |
| Score.NewScoreSizing | src/score.py:39-68 | the sizes: five lines and four spaces, a window of one space and two lines, a quarter-window step, thresholds reduced without staff lines, and boxes spanning the page that start two staff steps above the staff |
| Score.RoiBounds | src/score.py:184-198 | as written, a box past the last column sets the bottom row to the column count |
| Score.ExtractRoi | src/score.py:184-198 | `_extract_roi`: the slice of the page between the `Score.RoiBoundsCorrected` bounds, equal to the source's on every box within the columns (`Score.RoiBoundsAgree`); `Score.ExtractRoiIntersects` states what it returns |
| Score.ExtractStaffImage | src/score.py:76-77 | the staff image is the region of interest of the staff's box, cut with the corrected column clamp |
| Score.RoiBoundsCorrected | src/score.py:193-196 | the right column is cut at the column count |
| Score.RoiBoundsAgree | src/score.py:184-198 | both bounds agree on every box within the columns |
| Score.ExtractRoiIntersects | src/score.py:184-198 | a box that starts inside the image yields exactly the part of the box that lies in the image |
| Score.RoiColumnClampCutsRows | src/score.py:193-194 | as written, a box past the last column of a 10x5 page loses rows: 5 instead of 8 |
| Score.Profile | src/score.py:95-96 | a column is busy exactly when its count of zero-valued (ink) pixels exceeds the step threshold |
| Score.Columns | src/score.py:101 | each run becomes a full-height box over its columns |
| Score.Refine | src/score.py:97-100 | the optional merge across gaps of half a window, then the optional filter keeping regions at least a window wide; stated through `Score.PotentialRegionsHeight` |
| Score.PotentialRegions | src/score.py:91-102 | the regions exist exactly when the staff image has the height of a staff box and at least one column |
| Score.PotentialRegionsHeight | src/score.py:97-101 | every region spans the staff image's height, and filtered regions are at least a window wide |
| Score.PotentialRegionsRuns | src/score.py:95-101 | unmerged and unfiltered, the regions are the closed runs of busy columns left to right, then an empty pair |
| Score.StaffImageFitsRegions | src/score.py:76-94 | the image of a staff within the page passes the height check |
| Score.Origins | src/score.py:174-175 | `arange(0, n) * step + start` has n entries in steps of `step` |
| Score.ConvolveBox | src/score.py:167-178 | convolution fails exactly on a zero step |
| Score.SquaresMembers | src/score.py:177-178 | the comprehension lists exactly the squares at non-negative corners drawn from the origins |
| Score.ConvolveBoxWindows | src/score.py:167-178 | the windows are exactly the grid squares from one step before the box to past its far side whose corner is on the page |
| Score.ConvolveBoxColumnMajor | src/score.py:177-178 | with a positive step, the windows come column by column, each column from the top down |
| Score.PositionGlyphs | src/score.py:79-89 | positioning keeps one staff per staff |
| Score.PositionGlyphsRoutes | src/score.py:79-89 | no staff and some glyph is a ValueError; otherwise each staff keeps its box and start and gets exactly its routed glyphs, in order, with rows counted from its box's top |
| MusicData2.NewScore | src/musicdata2.py:14-41 | the score exists exactly when the header passes, every failure is a ValueError, and there is one staff per position |
| MusicData2.NewScoreBoxes | src/musicdata2.py:29-41 | the band is the first reader's staff grown by seven lines and seven spaces; each box starts at its position and spans the page but its last column |
| MusicData2.ExtractStaffImage | src/musicdata2.py:49-53 | the staff image exists exactly when the box lies within the image's rows and columns |
| MusicData2.ExtractStaffImageShape | src/musicdata2.py:49-53 | a staff image within the page is its box copied pixel by pixel |
| MusicData2.RoutedUnshifted | src/musicdata2.py:55-60 | the glyphs routed with no shift are, unchanged and in input order, exactly the input glyphs routed to that staff |
| MusicData2.PositionGlyphs | src/musicdata2.py:55-60 | positioning keeps one staff per staff |
| MusicData2.PositionGlyphsRoutes | src/musicdata2.py:55-60 | no staff and some glyph is a ValueError; otherwise each staff keeps its box and its own glyphs and gets after them, unchanged and in input order, exactly the glyphs first-nearest its centre |
| MusicFile.ComputeKernel | src/musicdata.py:324-331 | the kernel is one space and three lines wide and eleven lines and ten spaces high; it fails with ZeroDivisionError exactly when the stride truncates to zero |
| MusicFile.KernelSizes | src/musicdata.py:324-331 | the stride is half the width, the division and stride counts are floor quotients of the model length, and the boundary is four staff steps |
| MusicFile.EmptyGrid | src/musicdata.py:331 | one empty list per division of every staff |
| MusicFile.Centres | src/musicdata.py:347-349 | one centre per staff |
| MusicFile.CentreOffset | src/musicdata.py:347-349 | a staff centre lies two staff steps and half a line below its start |
| MusicFile.Closest | src/musicdata.py:336-345 | the closest staff is the first at the smallest distance, with that distance; with no staff it is 0 at infinity |
| MusicFile.Verdict | src/musicdata.py:241-257 | a glyph is put only when it is counted enough, its kernel index is below the division count, and the first nearest staff is within five staff steps, in the division its index names; it fails only on an index below minus the division count, or, in the autoscore copy, with no staff |
| MusicFile.KernelIndex | src/musicdata.py:333-334 | `_get_closest_kernel_idx`: the column scaled to the division count and truncated toward zero |
| MusicFile.VerdictReachesStaff | src/musicdata.py:253-257 | a glyph that passes the other checks is put exactly when some staff is near enough; without a staff the first copy skips it and the autoscore copy fails |
| MusicFile.NegativeIndexWraps | src/musicdata.py:257 | a negative kernel index puts the glyph in a division counted from the right end |
| MusicFile.Position | src/musicdata.py:242-257 | the loop keeps the grid's shape |
| MusicFile.PutIn | src/musicdata.py:257 | a cell receives at most all glyphs |
| MusicFile.PositionOk | src/musicdata.py:242-257 | the loop fails exactly when some glyph's verdict fails |
| MusicFile.PositionCells | src/musicdata.py:242-257 | every cell holds its earlier glyphs followed by the glyphs whose verdict names it, in input order |
| MusicFile.PositionFailsWith | src/musicdata.py:242-257 | the loop's error is the error of some glyph's verdict |
| MusicFile.PositionGlyphs | src/autoscore/musicdata.py:63-80 | both copies keep the grid's shape |
| MusicFile.NoStaffs | src/autoscore/musicdata.py:165-174 | without staffs the first copy places nothing, and the autoscore copy fails as soon as a glyph passes the name, count and column checks |
| MusicFile.Locate | src/autoscore/datasets.py:63-91 | `locate` builds a grid of the sheet's shape |
| MusicFile.LocateCells | src/autoscore/datasets.py:63-91 | `locate` fails only with an IndexError, and otherwise each cell holds exactly the glyphs counted at least 200 times that belong there, whatever threshold is passed |
| MusicFile.DivisionBox | src/musicdata.py:362-368 | a division box has the kernel's width and height |
| MusicFile.DivisionBoxPlace | src/musicdata.py:362-368 | divisions tile the staff band side by side, from three staff steps above the staff |
| MusicFile.PassFlags | src/autoscore/musicdata.py:96-102 | one flag per glyph, set exactly when its overlap reaches the threshold |
| MusicFile.Passes | src/autoscore/musicdata.py:96-102 | the overlap test: the glyph's overlap with the division over its area plus `EPSILON` reaches the threshold |
| MusicFile.PollLoop | src/autoscore/musicdata.py:103-107 | an elected glyph lies in the division and has the elected count; a missing name is a KeyError |
| MusicFile.PollLoopMeaning | src/autoscore/musicdata.py:95-107 | the loop fails exactly when a passing glyph has no count; otherwise it elects the first passing glyph with the largest count, provided some count is positive |
| MusicFile.CellSampleLabel | src/autoscore/musicdata.py:86-114 | a cell fails exactly on a passing glyph without a count; its image is the division box cut from the page and its label is 'None' unless a passing glyph has a positive count, then the last glyph's name as written or the winner's name corrected |
| MusicFile.CellResults | src/autoscore/musicdata.py:85-114 | one step result per cell of the grid |
| MusicFile.SamplesOk | src/autoscore/musicdata.py:83-115 | sample extraction fails exactly when some cell does |
| MusicFile.SampleAt | src/autoscore/musicdata.py:83-115 | sample `k * n + d` is the sample of division `d` of staff `k`, and there are staffs times divisions samples |
| MusicFile.LabelCorrectedNamesWinner | src/autoscore/musicdata.py:104-113 | the corrected label is 'None' when no passing glyph has a positive count, and otherwise the name of the elected glyph |
| MusicFile.LabelNamesLastGlyph | src/autoscore/musicdata.py:110-111 | as written, a division whose last glyph fails the overlap test is labelled with that glyph, not the elected one |
| MusicFile.Label | src/autoscore/musicdata.py:109-112 | as written: 'None' without an elected glyph, otherwise the name of the division's last glyph |
| MusicFile.LabelCorrected | src/autoscore/musicdata.py:109-112 | as evidently intended: 'None' without an elected glyph, otherwise the elected glyph's name |
| MusicFile.CellSample | src/autoscore/musicdata.py:85-113 | one division: the election over its glyphs, its slice of the page and its label; `MusicFile.CellSampleLabel` states the result |
| MusicFile.ExtractTrainingData | src/musicdata.py:259-287 | `extract_training_data`: the samples in staff then division order, names outside the relevant set labelled 'Other'; stated through `MusicFile.SamplesOk` and `MusicFile.SampleAt` |
| MusicFile.ExtractSamples | src/autoscore/musicdata.py:83-115 | `extract_samples`: the samples in staff then division order, labelled with glyph names; stated through `MusicFile.SamplesOk` and `MusicFile.SampleAt` |
| Writers.ParseName | src/musicdata.py:207-222 | a name fails only with ValueError or IndexError, and otherwise is rewritten to the layout of its writer and page |
| Writers.IndexOf | src/musicdata.py:218-219 | the position of the group of a key, or -1 when no group has it |
| Writers.Entries | src/musicdata.py:206-223 | reading succeeds exactly when every name parses, then in order, and otherwise fails with the error of some file |
| Writers.SortByWriters | src/musicdata.py:205-225 | `sort_by_writers`: every name read, then the files filed by key; its partition property is stated by `Writers.SortByWritersPartition` |
| Writers.GroupAllPartition | src/musicdata.py:218-223 | filing keeps the groups a partition of the entries |
| Writers.SortByWritersPartition | src/musicdata.py:205-225 | the sort finishes exactly when every name parses; then there is one group per key read, each key once, each group the files read as that key in input order under their new names |
| Writers.DatasetNameFinds | src/musicdata.py:208-210 | in a dataset name the first 'p' is at 0 and the first "W-" after the page |
| Writers.DatasetName | src/musicdata.py:207-222 | the names the parsing is written for: 'p', a three-digit page, '_W-', the writer and '_' before the distortion |
| Writers.DatasetNameRoundTrip | src/musicdata.py:207-222 | a dataset name reads back the writer and page it spells and moves to the layout of its distortion |
| Writers.PaddedDigits | src/musicdata.py:222 | a number below `10^width`, padded to the width, is width digits that read back as that number |
| Writers.PaddedNameRoundTrip | src/musicdata.py:207-222 | a name built from a writer below 100 and a page below 1000, padded as the layout pads them, reads back as that writer and page |

## Left out

- Everything OpenCV computes is an input: `HoughLines` (the line angles, in degrees), `rotateImage` (the rotated binary page) and the drawing and printing helpers. `findNonZero` and `boundingRect` are modelled by `Crop.BoxOf`.
- PageOrientation.Decide: the angles and the rotation are in degrees, where the source keeps the rotation in radians. The bin index is the same.
- LinePoll.StaffLines: requires every traced point to read an existing pixel. The source reads outside the image otherwise, which is undefined behaviour. The padding reads of a curved model outside the image read as background here.
- StaffDetect.GetStaffModel: gives `None` on the two undefined inputs (no run of one colour; a long ink run at the top of a column) instead of modelling what the compiled code would do.
- StaffGrouping.GroupStaffs: runs for at most `fuel` iterations, because an upward snap can move back before the entry row and termination is not evident. It reports `FuelSpent` when the bound is reached.
- StaffGrouping.KernelRows: takes `round(avg_duplicate)` as a parameter. `StaffGrouping.Duplicates` models the average with exact reals and the same epsilon.
- The XML readers (`get_music_file_from_xml`, the `ElementTree` parsing in the constructors) are left out. The parsed fields are parameters.
- Score.PotentialRegions: the per-column counts of zero-valued (ink) pixels (`np.count_nonzero(staff_image == 0, axis=0)`) are an input.
- `potential_glyphs` and `extract_training_data` of `src/score.py` are not part of this model. They rest on numpy masks and `bincount` over label maps.
- Image loading, saving and visualisation (`visualize`, `visualize_ground_truth`, the `_draw_*` helpers, `deepscores_gt`), `model.py`, `test.py` and the command-line programs under `src/binaries` and `src/detect_staffs.cc`, except the two path helpers of `deepscores.cc`.
- A Python exception leaves the objects it was mutating half updated. The model returns `Err` and drops the partial state.
- PyText.ParseInt: does not accept the surrounding whitespace, digit underscores and non-ASCII decimal digits (`int('١٢') == 12`) that Python's `int()` also allows.
- MusicFile.ComputeKernel: requires non-zero sizes and model length, the source's assertion.
- MusicFile.CellSampleLabel: requires the glyph boxes to satisfy the `cross_section` assertion (non-empty intervals).
- Score.ExtractRoi: slices with the corrected column clamp `x_max = cols`. Where a box ends past the last column the source sets `y_max = cols` instead (see Findings), so there the rows returned differ from the source's.
- Score.ExtractStaffImage: inherits the corrected clamp of `Score.ExtractRoi`, so it differs from the source whenever a staff box ends past the image's columns.
- MusicFile.KernelIndex: truncates the exact rational `x / len(model_gradient) * n_divisions`. The source truncates a double, which can land one lower where the exact product is a whole number: `x = 870`, a model of 1500 entries and 50 divisions give 28 in doubles and 29 here.
- MusicFile.Verdict: inherits that difference through the kernel index, so for such inputs the division it names, and the check against `n_divisions`, can differ from the source's by one.
- The default arguments (`POLL_THRESH` 50 or 200, `AREA_OVERLAP_MIN` 0.6, `thresh` 0.8) are constants passed explicitly.

## Findings

| source | as written | input that shows it | evidently intended | confidence | as-written member | corrected member |
|---|---|---|---|---|---|---|
| src/autoscore/staff.cc:354 | the trace reads column `idx + start_col` of the cropped staff image | any page whose ink starts right of column 0: the gradient has one entry per cropped column, so the last `start_col` entries read past the image | read column `idx` of the cropped image | high; not executed | StaffDetect.CropOffsetLeavesImage | StaffDetect.FitStaffModel |
| src/score.py:193-194 | a box past the last column sets `y_max = cols` | a page of 10 rows and 5 columns with the box of columns [0, 6) and rows [0, 8): 5 rows come back instead of 8 | `x_max = cols` | high; not executed | Score.RoiColumnClampCutsRows | Score.ExtractRoiIntersects |
| src/autoscore/musicdata.py:110-111 | the label is `glyph.name`, the loop variable left on the division's last glyph (also `src/autoscore/datasets.py:121-122` and `src/musicdata.py:280-284`) | a division [0, 10) x [0, 10) holding glyph `a` inside and then glyph `b` outside, both counted 300 times: `a` is elected, the sample is labelled `b` | the name of the elected glyph | high; not executed | MusicFile.LabelNamesLastGlyph | MusicFile.LabelCorrectedNamesWinner |

The as-written start offset stays in the model as the `startCol` parameter
of `LinePoll.StaffLines`, and `StaffDetect.FitStaffModel` passes 0.
`Score.RoiBounds` keeps the as-written bounds, and `Score.ExtractRoi` uses
`Score.RoiBoundsCorrected`. The sample extractors take a `corrected` flag:
unset gives `MusicFile.Label`, the label as written, and set gives
`MusicFile.LabelCorrected`.
