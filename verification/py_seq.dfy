/** Python sequence access: subscripts that count from the end when
    negative, and slices whose bounds are clamped to the sequence. numpy
    arrays are sliced by the same rules on each axis. */
module PySeq {
  import opened Wrappers

  /** `s[i]` on a sequence of length `n`: the position read, or `None` for an
      `IndexError`. */
  function Index(n: nat, i: int): (r: Option<nat>)
    ensures r.Some? <==> 0 <= i + n && i < n
    ensures r.Some? ==> r.value < n && r.value as int % n == i % n
  {
    if 0 <= i < n then Some(i) else if 0 <= i + n && i < 0 then Some(i + n) else None
  }

  /** A slice bound normalised to `[0, n]`: negative bounds count from the
      end, and bounds past either end stop there. */
  function Bound(n: nat, i: int): (r: nat)
    ensures r <= n
    ensures 0 <= i <= n ==> r == i
    ensures 0 <= i + n && i < 0 ==> r == i + n
    ensures i + n < 0 ==> r == 0
    ensures i > n ==> r == n
  {
    if i < 0 then (if i + n < 0 then 0 else i + n) else if i > n then n else i
  }

  /** `s[i:j]`. */
  function Slice<T>(s: seq<T>, i: int, j: int): (r: seq<T>)
    ensures Bound(|s|, i) <= Bound(|s|, j) ==> r == s[Bound(|s|, i)..Bound(|s|, j)]
    ensures Bound(|s|, i) > Bound(|s|, j) ==> r == []
  {
    var a := Bound(|s|, i);
    var b := Bound(|s|, j);
    if a <= b then s[a..b] else []
  }

  /** `s[i:]`. */
  function SliceFrom<T>(s: seq<T>, i: int): (r: seq<T>)
    ensures r == s[Bound(|s|, i)..]
  {
    s[Bound(|s|, i)..]
  }

  /** A numpy array of `cols` columns: every row has that length. */
  predicate IsRect<T>(img: seq<seq<T>>, cols: nat)
  {
    forall y :: 0 <= y < |img| ==> |img[y]| == cols
  }

  /** `img[y0:y1, x0:x1]`. */
  function Slice2<T>(img: seq<seq<T>>, y0: int, y1: int, x0: int, x1: int): (r: seq<seq<T>>)
    ensures |r| == |Slice(img, y0, y1)|
    ensures forall y :: 0 <= y < |r| ==> r[y] == Slice(Slice(img, y0, y1)[y], x0, x1)
  {
    var rows := Slice(img, y0, y1);
    seq(|rows|, y requires 0 <= y < |rows| => Slice(rows[y], x0, x1))
  }

  /** A window inside a rectangular array is cut out exactly: `y1 - y0` rows
      of `x1 - x0` pixels, pixel `(y, x)` of the window being pixel
      `(y0 + y, x0 + x)` of the array. */
  lemma Slice2Inside<T>(img: seq<seq<T>>, cols: nat, y0: int, y1: int, x0: int, x1: int)
    requires IsRect(img, cols)
    requires 0 <= y0 <= y1 <= |img| && 0 <= x0 <= x1 <= cols
    ensures |Slice2(img, y0, y1, x0, x1)| == y1 - y0
    ensures forall y :: 0 <= y < y1 - y0 ==> |Slice2(img, y0, y1, x0, x1)[y]| == x1 - x0
    ensures forall y, x :: 0 <= y < y1 - y0 && 0 <= x < x1 - x0 ==>
      Slice2(img, y0, y1, x0, x1)[y][x] == img[y0 + y][x0 + x]
  {
  }
}
