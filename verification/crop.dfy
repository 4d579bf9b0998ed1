/** The bounding box of the ink (`findNonZero` and `boundingRect`) and the
    crop of `GetStaffModel` to it. */
module Crop {
  import opened Raster

  /** `cv::Rect`: left column, top row, width and height. */
  datatype Box = Box(left: nat, top: nat, width: nat, height: nat)

  predicate RowHasInk(img: Grid, y: nat)
    requires y < |img|
  {
    true in img[y]
  }

  predicate ColHasInk(img: Grid, x: nat)
  {
    exists y :: 0 <= y < |img| && x < |img[y]| && img[y][x]
  }

  /** The first row at or below `y` holding ink, or `rows`. */
  function TopFrom(img: Grid, y: nat): (t: nat)
    requires y <= |img|
    ensures y <= t <= |img|
    ensures t < |img| ==> RowHasInk(img, t)
    ensures forall k :: y <= k < t ==> !RowHasInk(img, k)
    decreases |img| - y
  {
    if y == |img| then y else if RowHasInk(img, y) then y else TopFrom(img, y + 1)
  }

  /** One past the last row before `n` holding ink, or `0`. */
  function BottomBefore(img: Grid, n: nat): (b: nat)
    requires n <= |img|
    ensures b <= n
    ensures b > 0 ==> RowHasInk(img, b - 1)
    ensures forall k :: b <= k < n ==> !RowHasInk(img, k)
  {
    if n == 0 then 0 else if RowHasInk(img, n - 1) then n else BottomBefore(img, n - 1)
  }

  /** The first column at or after `x` holding ink, or `cols`. */
  function LeftFrom(img: Grid, cols: nat, x: nat): (l: nat)
    requires x <= cols
    ensures x <= l <= cols
    ensures l < cols ==> ColHasInk(img, l)
    ensures forall k :: x <= k < l ==> !ColHasInk(img, k)
    decreases cols - x
  {
    if x == cols then x else if ColHasInk(img, x) then x else LeftFrom(img, cols, x + 1)
  }

  /** One past the last column before `n` holding ink, or `0`. */
  function RightBefore(img: Grid, n: nat): (r: nat)
    ensures r <= n
    ensures r > 0 ==> ColHasInk(img, r - 1)
    ensures forall k :: r <= k < n ==> !ColHasInk(img, k)
  {
    if n == 0 then 0 else if ColHasInk(img, n - 1) then n else RightBefore(img, n - 1)
  }

  /** The smallest box holding every ink pixel; the empty box at the origin
      when there is none. */
  function BoxOf(img: Grid): Box
    requires WellFormed(img)
  {
    var top := TopFrom(img, 0);
    if top == |img| then Box(0, 0, 0, 0)
    else
      InkSpans(img);
      var left := LeftFrom(img, Width(img), 0);
      Box(left, top, RightBefore(img, Width(img)) - left, BottomBefore(img, |img|) - top)
  }

  /** When some row holds ink, the first ink row and column come before the
      ends of the last ones. */
  lemma InkSpans(img: Grid)
    requires WellFormed(img) && TopFrom(img, 0) < |img|
    ensures TopFrom(img, 0) < BottomBefore(img, |img|)
    ensures LeftFrom(img, Width(img), 0) < RightBefore(img, Width(img))
  {
    var top := TopFrom(img, 0);
    assert RowHasInk(img, top);
    var x0 :| 0 <= x0 < |img[top]| && img[top][x0];
    assert ColHasInk(img, x0);
  }

  predicate Inside(b: Box, y: int, x: int)
  {
    b.top <= y < b.top + b.height && b.left <= x < b.left + b.width
  }

  predicate Fits(img: Grid, b: Box)
    requires WellFormed(img)
  {
    b.top + b.height <= |img| && b.left + b.width <= Width(img)
  }

  /** `img(bbox)`. */
  function CropTo(img: Grid, b: Box): (r: Grid)
    requires WellFormed(img) && Fits(img, b)
    ensures WellFormed(r) && |r| == b.height
    ensures forall y :: 0 <= y < |r| ==> |r[y]| == b.width
  {
    seq(b.height, y requires 0 <= y < b.height => img[b.top + y][b.left .. b.left + b.width])
  }

  /** The box fits the image, holds every ink pixel, and every one of its
      four borders touches ink; an image without ink gives the empty box. */
  lemma BoxOfIsTight(img: Grid)
    requires WellFormed(img)
    ensures Fits(img, BoxOf(img))
    ensures forall y, x :: 0 <= y < |img| && 0 <= x < |img[y]| && img[y][x] ==> Inside(BoxOf(img), y, x)
    ensures BoxOf(img).height == 0 <==> forall y :: 0 <= y < |img| ==> !RowHasInk(img, y)
    ensures BoxOf(img).height > 0 ==>
      && BoxOf(img).width > 0
      && RowHasInk(img, BoxOf(img).top)
      && RowHasInk(img, BoxOf(img).top + BoxOf(img).height - 1)
      && ColHasInk(img, BoxOf(img).left)
      && ColHasInk(img, BoxOf(img).left + BoxOf(img).width - 1)
  {
    var b := BoxOf(img);
    var top := TopFrom(img, 0);
    if top < |img| {
      InkSpans(img);
      forall y, x | 0 <= y < |img| && 0 <= x < |img[y]| && img[y][x]
        ensures Inside(b, y, x)
      {
        assert RowHasInk(img, y);
        assert ColHasInk(img, x);
      }
    } else {
      forall y, x | 0 <= y < |img| && 0 <= x < |img[y]| && img[y][x]
        ensures false
      {
        assert RowHasInk(img, y);
      }
    }
  }

  /** Cropping keeps every ink pixel, at its position relative to the box. */
  lemma CropKeepsInk(img: Grid)
    requires WellFormed(img)
    ensures Fits(img, BoxOf(img))
    ensures forall y, x :: 0 <= y < |img| && 0 <= x < |img[y]| && img[y][x] ==>
      Inside(BoxOf(img), y, x) && CropTo(img, BoxOf(img))[y - BoxOf(img).top][x - BoxOf(img).left]
  {
    BoxOfIsTight(img);
  }
}
