/** The second `Score` reader of the Python tooling: staff boxes placed at
    the stored staff positions, with a wider margin than the first reader
    and no shift of the glyphs it assigns. */
module MusicData2 {
  import opened Wrappers
  import opened Intervals
  import Nearest
  import PySeq
  import StavHeader
  import Score

  /** `DEF_EXTRA_STAFF_SPACE` of this reader. */
  const ExtraStaffSpace: int := 3

  /** `Staff(glyphs, box)`. */
  datatype Staff = Staff(glyphs: seq<Glyph>, box: Box)

  datatype Score2 = Score2(staffHeight: int, staffSpace: int, staffThickness: int, rows: int, cols: int, staffs: seq<Staff>)

  /** `Score.__init__`: the header checks, then one box per staff position,
      `staff_thickness` rows high from that position. */
  function NewScore(hd: StavHeader.Header, h: int, s: int, cols: int, rows: int, positions: seq<int>): (r: Result<Score2>)
    ensures r.Ok? <==> StavHeader.Check(hd).Ok?
    ensures r.Err? ==> r.error == ValueError
    ensures r.Ok? ==> |r.value.staffs| == |positions|
  {
    var _ :- StavHeader.Check(hd);
    var thickness := h * (ExtraStaffSpace + 9) + s * (ExtraStaffSpace + 8);
    var staffs := seq(|positions|, k requires 0 <= k < |positions| =>
      Staff([], Box(0, cols - 1, positions[k], positions[k] + thickness)));
    Ok(Score2(h, s, thickness, rows, cols, staffs))
  }

  /** The staff band of this reader is that of the first reader (five lines,
      four spaces) grown by seven lines and seven spaces; each box starts at
      its staff position, spans the page but its last column and holds no
      glyph yet. */
  lemma NewScoreBoxes(hd: StavHeader.Header, h: int, s: int, cols: int, rows: int, positions: seq<int>)
    requires StavHeader.Check(hd).Ok?
    ensures var sc := NewScore(hd, h, s, cols, rows, positions).value;
      var first := Score.NewScore(hd, h, s, cols, rows, positions, false).value;
      && sc.staffThickness == first.staffThickness + 7 * (h + s)
      && forall k :: 0 <= k < |positions| ==>
           && sc.staffs[k].glyphs == []
           && sc.staffs[k].box == Box(0, cols - 1, positions[k], positions[k] + sc.staffThickness)
  {
  }

  /** `extract_staff_image(img, staff)`: a box reaching below the image or
      past its columns is a `ValueError`; otherwise numpy's slice. */
  function ExtractStaffImage<T>(img: seq<seq<T>>, cols: nat, staff: Staff): (r: Result<seq<seq<T>>>)
    ensures r.Ok? <==> staff.box.ymax <= |img| && staff.box.xmax <= cols
  {
    var b := staff.box;
    if b.ymax > |img| || b.xmax > cols then Err(ValueError)
    else Ok(PySeq.Slice2(img, b.ymin, b.ymax, b.xmin, b.xmax))
  }

  /** The image of a staff that starts on the page is exactly its box:
      `staff_thickness` rows of `cols - 1` pixels copied from the page. */
  lemma ExtractStaffImageShape<T>(hd: StavHeader.Header, h: int, s: int, cols: nat, rows: int, positions: seq<int>,
                                  img: seq<seq<T>>, k: nat)
    requires StavHeader.Check(hd).Ok? && PySeq.IsRect(img, cols) && cols >= 1
    requires k < |positions| && h >= 0 && s >= 0 && 0 <= positions[k]
    requires var sc := NewScore(hd, h, s, cols, rows, positions).value;
      sc.staffs[k].box.ymax <= |img|
    ensures var sc := NewScore(hd, h, s, cols, rows, positions).value;
      var r := ExtractStaffImage(img, cols, sc.staffs[k]);
      && r.Ok?
      && |r.value| == sc.staffThickness
      && (forall y :: 0 <= y < |r.value| ==> |r.value[y]| == cols - 1)
      && (forall y, x :: 0 <= y < |r.value| && 0 <= x < cols - 1 ==> r.value[y][x] == img[positions[k] + y][x])
  {
    var sc := NewScore(hd, h, s, cols, rows, positions).value;
    NewScoreBoxes(hd, h, s, cols, rows, positions);
    var b := sc.staffs[k].box;
    var y0 := positions[k];
    assert b == Box(0, cols - 1, y0, y0 + sc.staffThickness);
    var slice := PySeq.Slice2(img, y0, y0 + sc.staffThickness, 0, cols - 1);
    assert ExtractStaffImage(img, cols, sc.staffs[k]) == Ok(slice);
    PySeq.Slice2Inside(img, cols, y0, y0 + sc.staffThickness, 0, cols - 1);
  }

  /** The glyph lists of the staffs. */
  function StaffGlyphs(staffs: seq<Staff>): (lists: seq<seq<Glyph>>)
    ensures |lists| == |staffs|
  {
    seq(|staffs|, i requires 0 <= i < |staffs| => staffs[i].glyphs)
  }

  /** The centre rows of the staff boxes. */
  function Centres(staffs: seq<Staff>): (centres: seq<real>)
    ensures |centres| == |staffs|
  {
    seq(|staffs|, i requires 0 <= i < |staffs| => Nearest.CentreRow(staffs[i].box))
  }

  /** No shift for any of `n` staffs. */
  function NoShift(n: nat): (offsets: seq<int>)
    ensures |offsets| == n
  {
    seq(n, _ => 0)
  }

  /** `position_glyphs(glyphs)`: every glyph is appended, unchanged, to the
      first staff whose centre row is nearest its own. */
  function PositionGlyphs(staffs: seq<Staff>, glyphs: seq<Glyph>): (r: Result<seq<Staff>>)
    ensures r.Ok? ==> |r.value| == |staffs|
  {
    var lists := StaffGlyphs(staffs);
    var centres := Centres(staffs);
    var placed :- Nearest.Place(lists, centres, NoShift(|staffs|), glyphs);
    Ok(seq(|staffs|, i requires 0 <= i < |staffs| => staffs[i].(glyphs := placed[i])))
  }

  /** The glyphs whose centre row is first-nearest staff `i`, unchanged and
      in input order. */
  function RoutedGlyphs(centres: seq<real>, glyphs: seq<Glyph>, i: nat): (r: seq<Glyph>)
    requires |centres| > 0
    decreases |glyphs|
  {
    if |glyphs| == 0 then []
    else (if Nearest.Route(centres, glyphs[0]) == i then [glyphs[0]] else []) + RoutedGlyphs(centres, glyphs[1..], i)
  }

  /** Filtering one more glyph at the end appends it when it is routed to
      the staff. */
  lemma {:induction false} RoutedGlyphsSnoc(centres: seq<real>, glyphs: seq<Glyph>, g: Glyph, i: nat)
    requires |centres| > 0
    ensures RoutedGlyphs(centres, glyphs + [g], i)
         == RoutedGlyphs(centres, glyphs, i) + (if Nearest.Route(centres, g) == i then [g] else [])
    decreases |glyphs|
  {
    var tail := if Nearest.Route(centres, g) == i then [g] else [];
    if |glyphs| == 0 {
      assert glyphs + [g] == [g];
      assert RoutedGlyphs(centres, [g], i) == tail + RoutedGlyphs(centres, [], i);
    } else {
      var xs := glyphs + [g];
      var rest := glyphs[1..];
      var head := if Nearest.Route(centres, glyphs[0]) == i then [glyphs[0]] else [];
      assert xs[0] == glyphs[0];
      assert xs[1..] == rest + [g];
      RoutedGlyphsSnoc(centres, rest, g, i);
      assert RoutedGlyphs(centres, xs, i) == head + (RoutedGlyphs(centres, rest, i) + tail);
      assert RoutedGlyphs(centres, glyphs, i) == head + RoutedGlyphs(centres, rest, i);
    }
  }

  /** The glyphs routed to a staff with no shift are the glyphs themselves:
      exactly those whose centre row is first-nearest the staff, in input
      order. */
  lemma {:induction false} RoutedUnshifted(centres: seq<real>, glyphs: seq<Glyph>, i: nat)
    requires |centres| > 0
    ensures Nearest.RoutedTo(centres, glyphs, i, 0) == RoutedGlyphs(centres, glyphs, i)
    ensures forall g :: g in Nearest.RoutedTo(centres, glyphs, i, 0) <==> g in glyphs && Nearest.Route(centres, g) == i
  {
    if |glyphs| > 0 {
      var init := glyphs[..|glyphs| - 1];
      var last := glyphs[|glyphs| - 1];
      RoutedUnshifted(centres, init, i);
      assert Nearest.ShiftRows(last, 0) == last;
      assert glyphs == init + [last];
      RoutedGlyphsSnoc(centres, init, last, i);
    }
  }

  /** No staff and some glyph is a `ValueError`; otherwise each staff keeps
      its box and its own glyphs and receives after them, unchanged and in
      input order, exactly the glyphs whose centre row is first-nearest its
      own centre row. */
  lemma PositionGlyphsRoutes(staffs: seq<Staff>, glyphs: seq<Glyph>)
    ensures PositionGlyphs(staffs, glyphs).Ok? <==> (|staffs| > 0 || |glyphs| == 0)
    ensures PositionGlyphs(staffs, glyphs).Ok? && |staffs| == 0 ==> PositionGlyphs(staffs, glyphs).value == []
    ensures PositionGlyphs(staffs, glyphs).Ok? && |staffs| > 0 ==>
      var centres := Centres(staffs);
      forall i :: 0 <= i < |staffs| ==>
        PositionGlyphs(staffs, glyphs).value[i]
          == staffs[i].(glyphs := staffs[i].glyphs + RoutedGlyphs(centres, glyphs, i))
    ensures PositionGlyphs(staffs, glyphs).Ok? && |staffs| > 0 ==>
      var centres := Centres(staffs);
      forall i, g :: 0 <= i < |staffs| ==>
        && PositionGlyphs(staffs, glyphs).value[i].box == staffs[i].box
        && (g in PositionGlyphs(staffs, glyphs).value[i].glyphs <==>
              g in staffs[i].glyphs || (g in glyphs && Nearest.Route(centres, g) == i))
  {
    var lists := StaffGlyphs(staffs);
    var centres := Centres(staffs);
    var offsets: seq<int> := NoShift(|staffs|);
    Nearest.PlaceRoutes(lists, centres, offsets, glyphs);
    if |staffs| > 0 {
      forall i | 0 <= i < |staffs| {
        RoutedUnshifted(centres, glyphs, i);
      }
    }
  }
}
