/** `cross_section`, the overlap length of two half-open intervals, as the
    three copies in the Python tooling write it, and the glyph boxes it is
    applied to. */
module Intervals {
  import opened Numeric

  /** `BBox(xmin, xmax, ymin, ymax)`. */
  datatype Box = Box(xmin: int, xmax: int, ymin: int, ymax: int)

  /** `Glyph(name, bbox)`: a labelled ground-truth box. */
  datatype Glyph = Glyph(name: string, box: Box)

  /** A box the overlap assertions accept: non-empty along both axes. */
  predicate Proper(b: Box)
  {
    b.xmin < b.xmax && b.ymin < b.ymax
  }

  function Area(b: Box): int
  {
    (b.xmax - b.xmin) * (b.ymax - b.ymin)
  }

  predicate Within(x: int, lo: int, hi: int)
  {
    lo <= x < hi
  }

  /** `cross_section((a0, a1), (b0, b1))`: the interval starting last and the
      interval ending first are picked, and the difference of their ends is
      kept when positive. The assertion becomes the precondition. */
  function CrossSection(a0: int, a1: int, b0: int, b1: int): (r: int)
    requires a0 < a1 && b0 < b1
    ensures r >= 0
    ensures r > 0 <==> (a0 < b1 && b0 < a1)
    ensures r > 0 ==> forall x :: (Within(x, a0, a1) && Within(x, b0, b1)) <==> Within(x, Max(a0, b0), Max(a0, b0) + r)
  {
    var leftmost := if b0 > a0 then (b0, b1) else (a0, a1);
    var rightmost := if b1 < a1 then (b0, b1) else (a0, a1);
    var alpha := if rightmost.1 - leftmost.0 > 0 then 1 else 0;
    (rightmost.1 - leftmost.0) * alpha
  }

  /** The overlap does not depend on the order of the arguments. */
  lemma CrossSectionSymmetric(a0: int, a1: int, b0: int, b1: int)
    requires a0 < a1 && b0 < b1
    ensures CrossSection(a0, a1, b0, b1) == CrossSection(b0, b1, a0, a1)
  {
  }

  /** The overlap is never longer than either interval. */
  lemma CrossSectionBounded(a0: int, a1: int, b0: int, b1: int)
    requires a0 < a1 && b0 < b1
    ensures CrossSection(a0, a1, b0, b1) <= a1 - a0
    ensures CrossSection(a0, a1, b0, b1) <= b1 - b0
  {
  }

  /** Disjoint or touching intervals do not overlap. */
  lemma CrossSectionDisjoint(a0: int, a1: int, b0: int, b1: int)
    requires a0 < a1 && b0 < b1 && (a1 <= b0 || b1 <= a0)
    ensures CrossSection(a0, a1, b0, b1) == 0
  {
  }

  /** The overlap of a division box and a glyph box: the product of the
      overlaps along both axes. */
  function Overlap(div: Box, g: Box): (r: int)
    requires Proper(div) && Proper(g)
    ensures r >= 0
  {
    CrossSection(div.xmin, div.xmax, g.xmin, g.xmax) * CrossSection(div.ymin, div.ymax, g.ymin, g.ymax)
  }

  /** The overlap of a box with a glyph never exceeds the glyph's area, so
      `assert overlap <= area` always holds. */
  lemma OverlapAtMostArea(div: Box, g: Box)
    requires Proper(div) && Proper(g)
    ensures Overlap(div, g) <= Area(g)
  {
    var cx := CrossSection(div.xmin, div.xmax, g.xmin, g.xmax);
    var cy := CrossSection(div.ymin, div.ymax, g.ymin, g.ymax);
    CrossSectionBounded(div.xmin, div.xmax, g.xmin, g.xmax);
    CrossSectionBounded(div.ymin, div.ymax, g.ymin, g.ymax);
    MulMonotone(cx, cy, g.xmax - g.xmin, g.ymax - g.ymin);
  }

  lemma MulMonotone(a: int, b: int, c: int, d: int)
    requires 0 <= a <= c && 0 <= b <= d
    ensures a * b <= c * d
  {
    assert a * b <= c * b;
    assert c * b <= c * d;
  }
}
