/** Nearest-staff assignment: `np.argmin` over the distances of a glyph's
    centre row to the staff centres, and the loop that appends every glyph
    to its staff. */
module Nearest {
  import opened Wrappers
  import opened Numeric
  import opened Intervals

  /** `i` is the first index of a smallest distance. */
  predicate IsFirstMin(ds: seq<real>, i: int)
  {
    && 0 <= i < |ds|
    && (forall j :: 0 <= j < |ds| ==> ds[i] <= ds[j])
    && (forall j :: 0 <= j < i ==> ds[j] > ds[i])
  }

  /** `np.argmin` on a non-empty array. */
  function ArgMin(ds: seq<real>): (i: nat)
    requires |ds| > 0
    ensures IsFirstMin(ds, i)
  {
    if |ds| == 1 then 0
    else
      var j := ArgMin(ds[..|ds| - 1]);
      if ds[|ds| - 1] < ds[j] then |ds| - 1 else j
  }

  /** `[abs(y - c) for c in centres]`. */
  function Distances(centres: seq<real>, y: real): (ds: seq<real>)
    ensures |ds| == |centres|
  {
    seq(|centres|, k requires 0 <= k < |centres| => AbsReal(y - centres[k]))
  }

  /** The centre row of a box, `(ymin + ymax) / 2` in true division. */
  function CentreRow(b: Box): real
  {
    (b.ymin + b.ymax) as real / 2.0
  }

  /** The staff a glyph is appended to: the first whose centre is nearest the
      glyph's centre row. */
  function Route(centres: seq<real>, g: Glyph): (i: nat)
    requires |centres| > 0
    ensures IsFirstMin(Distances(centres, CentreRow(g.box)), i)
    ensures i < |centres|
  {
    ArgMin(Distances(centres, CentreRow(g.box)))
  }

  /** A glyph with its rows counted from `dy`. */
  function ShiftRows(g: Glyph, dy: int): Glyph
  {
    Glyph(g.name, Box(g.box.xmin, g.box.xmax, g.box.ymin - dy, g.box.ymax - dy))
  }

  /** The glyphs routed to staff `i`, in input order, shifted by `dy`. */
  function RoutedTo(centres: seq<real>, glyphs: seq<Glyph>, i: nat, dy: int): (r: seq<Glyph>)
    requires |centres| > 0
    ensures |r| <= |glyphs|
  {
    if |glyphs| == 0 then []
    else
      var last := glyphs[|glyphs| - 1];
      RoutedTo(centres, glyphs[..|glyphs| - 1], i, dy) + (if Route(centres, last) == i then [ShiftRows(last, dy)] else [])
  }

  /** The `position_glyphs` loop: every glyph is appended, shifted by its
      staff's offset, to the list of the staff it is routed to; `np.argmin`
      on an empty list of staffs is a `ValueError`. */
  function Place(lists: seq<seq<Glyph>>, centres: seq<real>, offsets: seq<int>, glyphs: seq<Glyph>): (r: Result<seq<seq<Glyph>>>)
    requires |lists| == |centres| == |offsets|
    ensures r.Ok? ==> |r.value| == |lists|
  {
    if |glyphs| == 0 then Ok(lists)
    else if |centres| == 0 then Err(ValueError)
    else
      var prev :- Place(lists, centres, offsets, glyphs[..|glyphs| - 1]);
      var g := glyphs[|glyphs| - 1];
      var i := Route(centres, g);
      Ok(prev[i := prev[i] + [ShiftRows(g, offsets[i])]])
  }

  /** Placement fails only when there are glyphs but no staff; otherwise
      staff `i` receives, after its own glyphs, exactly the glyphs routed to
      it, in input order. */
  lemma {:induction false} PlaceRoutes(lists: seq<seq<Glyph>>, centres: seq<real>, offsets: seq<int>, glyphs: seq<Glyph>)
    requires |lists| == |centres| == |offsets|
    ensures Place(lists, centres, offsets, glyphs).Ok? <==> (|centres| > 0 || |glyphs| == 0)
    ensures Place(lists, centres, offsets, glyphs).Ok? ==>
      var r := Place(lists, centres, offsets, glyphs).value;
      && |r| == |lists|
      && (|glyphs| == 0 ==> r == lists)
      && (|centres| > 0 ==> forall i :: 0 <= i < |r| ==> r[i] == lists[i] + RoutedTo(centres, glyphs, i, offsets[i]))
  {
    if |glyphs| > 0 && |centres| > 0 {
      PlaceRoutes(lists, centres, offsets, glyphs[..|glyphs| - 1]);
    }
  }
}
