/** `MusicFile`, the first ground-truth generator, as its three copies
    write it (`src/musicdata.py`, `src/autoscore/musicdata.py` and
    `src/autoscore/datasets.py`): the kernel sized on the staff model, the
    grid of staff-by-division cells glyphs are dropped into, the division
    boxes, and the labels of the samples cut from them. */
module MusicFile {
  import opened Wrappers
  import opened Numeric
  import opened Intervals
  import Nearest
  import PySeq

  /** `STRIDE_RATIO`: the part of a kernel not shared with the next one. */
  const StrideRatio: real := 0.5
  /** `BOUNDARY_EXTRA`: staff spaces added over the staff lines. */
  const BoundaryExtra: int := 4
  /** `POLL_THRESH` of `src/musicdata.py`. */
  const FirstPollThresh: int := 50
  /** `POLL_THRESH` of the `autoscore` copies. */
  const PollThresh: int := 200
  /** `AREA_OVERLAP_MIN`, the default overlap ratio of `src/musicdata.py`. */
  const AreaOverlapMin: real := 0.6
  /** The default `thresh` of `extract_samples`. */
  const SampleThresh: real := 0.8

  /** The fields of a parsed sheet: staff line height `h`, staff space `s`,
      the top-left corner of the staff model, its length in columns, and
      the first row of every staff relative to that corner. */
  datatype Sheet = Sheet(h: int, s: int, col: int, row: int, modelLen: nat, starts: seq<int>)

  /** The attributes `_compute_kernel` sets. */
  datatype Kernel = Kernel(width: int, height: int, stride: int, nStrides: int, boundary: int, nDivisions: int)

  /** `_compute_kernel` (and `compute_kernel`): the assertion becomes the
      precondition; a stride truncated to zero is a `ZeroDivisionError`. */
  function ComputeKernel(sh: Sheet): (r: Result<Kernel>)
    requires sh.s != 0 && sh.h != 0 && sh.modelLen != 0
    ensures r.Ok? <==> (sh.s + 3 * sh.h <= -2 || 2 <= sh.s + 3 * sh.h)
    ensures r.Err? ==> r.error == ZeroDivisionError
    ensures r.Ok? ==> r.value.width == sh.s + 3 * sh.h && r.value.height == 11 * sh.h + 10 * sh.s
  {
    var width := sh.s + 3 * sh.h;
    var stride := Trunc(width as real * StrideRatio);
    if stride == 0 then Err(ZeroDivisionError)
    else
      Ok(Kernel(width, 11 * sh.h + 10 * sh.s, stride, Trunc(sh.modelLen as real / stride as real),
                BoundaryExtra * (sh.h + sh.s), Trunc(sh.modelLen as real / width as real)))
  }

  /** A sheet whose kernel has been computed. */
  predicate Ready(sh: Sheet, kern: Kernel)
  {
    sh.s != 0 && sh.h != 0 && sh.modelLen != 0 && ComputeKernel(sh) == Ok(kern)
  }

  lemma TruncDiv(a: int, b: int)
    requires a >= 0 && b > 0
    ensures Trunc(a as real / b as real) == a / b
  {
    var q := a / b;
    var r := a % b;
    assert a as real == q as real * b as real + r as real;
    assert a as real / b as real == q as real + r as real / b as real;
    assert 0.0 <= r as real / b as real < 1.0;
  }

  /** With a positive kernel width, the stride is half the width rounded
      down, the number of whole kernels and of strides along the model are
      the floor quotients of its length, and the boundary is four staff
      steps. */
  lemma KernelSizes(sh: Sheet, kern: Kernel)
    requires Ready(sh, kern) && kern.width > 0
    ensures kern.stride == kern.width / 2 >= 1
    ensures kern.nDivisions == sh.modelLen / kern.width
    ensures kern.nDivisions * kern.width <= sh.modelLen < (kern.nDivisions + 1) * kern.width
    ensures kern.nStrides == sh.modelLen / kern.stride
    ensures kern.boundary == 4 * (sh.h + sh.s)
  {
    var w := kern.width;
    assert kern.stride == Trunc(w as real * StrideRatio);
    assert w as real * StrideRatio == w as real / 2 as real;
    TruncDiv(w, 2);
    assert kern.nDivisions == Trunc(sh.modelLen as real / w as real);
    TruncDiv(sh.modelLen, w);
    assert kern.nStrides == Trunc(sh.modelLen as real / kern.stride as real);
    TruncDiv(sh.modelLen, kern.stride);
    FloorDivBounds(sh.modelLen, w);
  }

  lemma FloorDivBounds(a: nat, b: nat)
    requires b > 0
    ensures (a / b) * b <= a < (a / b + 1) * b
  {
    assert a == (a / b) * b + a % b;
    assert (a / b + 1) * b == (a / b) * b + b;
  }

  /** The cells of a sheet: one list of glyphs per staff and division. */
  type Grid = seq<seq<seq<Glyph>>>

  predicate Shaped(grid: Grid, staffs: nat, divisions: int)
  {
    && |grid| == staffs
    && forall k :: 0 <= k < |grid| ==> |grid[k]| == Max(0, divisions)
  }

  /** `[[[] for _ in range(n_divisions)] for _ in range(len(staff_starts))]`. */
  function EmptyGrid(staffs: nat, divisions: int): (g: Grid)
    ensures Shaped(g, staffs, divisions)
    ensures forall k, d :: 0 <= k < |g| && 0 <= d < |g[k]| ==> g[k][d] == []
  {
    seq(staffs, _ => seq(Max(0, divisions), _ => []))
  }

  /** `_get_avg_staff_positions`: the middle of the staff, two steps and
      half a line below its first row. */
  function Centre(sh: Sheet, start: int): int
  {
    start + 2 * (sh.s + sh.h) + Trunc(sh.h as real / 2.0)
  }

  function Centres(sh: Sheet): (cs: seq<int>)
    ensures |cs| == |sh.starts|
  {
    seq(|sh.starts|, k requires 0 <= k < |sh.starts| => Centre(sh, sh.starts[k]))
  }

  /** For a positive line height the centre is `start + 2(s + h) + h // 2`. */
  lemma CentreOffset(sh: Sheet, start: int)
    requires sh.h > 0
    ensures Centre(sh, start) == start + 2 * (sh.s + sh.h) + sh.h / 2
  {
    TruncDiv(sh.h, 2);
  }

  /** `_get_avg_glyph_pos`: the truncated centre of a glyph, relative to
      the corner of the model. */
  function GlyphPos(sh: Sheet, g: Glyph): (int, int)
  {
    (Trunc((g.box.xmin + g.box.xmax) as real / 2.0) - sh.col,
     Trunc((g.box.ymin + g.box.ymax) as real / 2.0) - sh.row)
  }

  /** `_get_closest_kernel_idx`. */
  function KernelIndex(sh: Sheet, kern: Kernel, x: int): int
    requires sh.modelLen != 0
  {
    Trunc(x as real / sh.modelLen as real * kern.nDivisions as real)
  }

  /** The running minimum distance of `_get_closest_staff`. */
  datatype Dist = Inf | Fin(d: int)

  function Dists(centres: seq<int>, y: int): (ds: seq<real>)
    ensures |ds| == |centres|
  {
    seq(|centres|, k requires 0 <= k < |centres| => Abs(y - centres[k]) as real)
  }

  /** The loop of `_get_closest_staff` (and of `locate`): the first index
      of the smallest distance and that distance, or `(0, inf)` when there
      is no staff. */
  function Closest(centres: seq<int>, y: int): (r: (nat, Dist))
    ensures |centres| == 0 ==> r == (0, Inf)
    ensures |centres| > 0 ==>
      && r.0 < |centres| && r.1 == Fin(Abs(y - centres[r.0]))
      && Nearest.IsFirstMin(Dists(centres, y), r.0)
  {
    if |centres| == 0 then (0, Inf)
    else
      var prev := Closest(centres[..|centres| - 1], y);
      var d := Abs(y - centres[|centres| - 1]);
      assert Dists(centres[..|centres| - 1], y) == Dists(centres, y)[..|centres| - 1];
      if prev.1.Inf? || d < prev.1.d then (|centres| - 1, Fin(d)) else prev
  }

  /** What `position_glyphs` does with one glyph. */
  datatype Outcome = Skip | Put(staff: nat, cell: nat) | Fail(error: PyError)

  /** The checks of `position_glyphs` on one glyph, in order: a name not in
      the counts or counted fewer than `minOcc` times, a kernel index at or
      past `n_divisions`, or a nearest staff further than five staff steps
      is skipped; the kernel index then subscripts the staff's divisions, a
      negative one counting from the end. `unboundOnEmpty` selects the copy
      whose `_get_closest_staff` returns a variable it never bound when
      there is no staff. */
  function Verdict(sh: Sheet, kern: Kernel, g: Glyph, counts: map<string, int>, minOcc: int, unboundOnEmpty: bool): (v: Outcome)
    requires Ready(sh, kern)
    ensures v.Put? ==>
      && g.name in counts && counts[g.name] >= minOcc
      && var (x, y) := GlyphPos(sh, g);
         var idx := KernelIndex(sh, kern, x);
         && idx < kern.nDivisions
         && v.staff < |sh.starts| && v.cell < Max(0, kern.nDivisions)
         && Nearest.IsFirstMin(Dists(Centres(sh), y), v.staff)
         && Abs(y - Centres(sh)[v.staff]) <= 5 * (sh.h + sh.s)
         && v.cell as int % Max(0, kern.nDivisions) == idx % Max(0, kern.nDivisions)
    ensures v.Fail? ==>
      || (v.error == IndexError && KernelIndex(sh, kern, GlyphPos(sh, g).0) < -Max(0, kern.nDivisions))
      || (v.error == UnboundLocalError && unboundOnEmpty && |sh.starts| == 0)
  {
    if g.name !in counts || counts[g.name] < minOcc then Skip
    else
      var (x, y) := GlyphPos(sh, g);
      var idx := KernelIndex(sh, kern, x);
      if idx >= kern.nDivisions then Skip
      else if unboundOnEmpty && |sh.starts| == 0 then Fail(UnboundLocalError)
      else
        var (i, dist) := Closest(Centres(sh), y);
        if dist.Inf? || dist.d > 5 * (sh.h + sh.s) then Skip
        else
          match PySeq.Index(Max(0, kern.nDivisions), idx)
          case None => Fail(IndexError)
          case Some(c) => Put(i, c)
  }

  /** A glyph every check lets through is put in a cell exactly when one
      staff is near enough; the first copy skips it without any staff, the
      `autoscore` copy fails. */
  lemma VerdictReachesStaff(sh: Sheet, kern: Kernel, g: Glyph, counts: map<string, int>, minOcc: int, unboundOnEmpty: bool)
    requires Ready(sh, kern)
    requires g.name in counts && counts[g.name] >= minOcc
    requires 0 <= KernelIndex(sh, kern, GlyphPos(sh, g).0) < kern.nDivisions
    ensures |sh.starts| == 0 ==>
      Verdict(sh, kern, g, counts, minOcc, unboundOnEmpty) == (if unboundOnEmpty then Fail(UnboundLocalError) else Skip)
    ensures |sh.starts| > 0 ==>
      (Verdict(sh, kern, g, counts, minOcc, unboundOnEmpty).Put? <==>
        exists k :: 0 <= k < |sh.starts| && Abs(GlyphPos(sh, g).1 - Centres(sh)[k]) <= 5 * (sh.h + sh.s))
  {
    if |sh.starts| > 0 {
      var y := GlyphPos(sh, g).1;
      var (i, dist) := Closest(Centres(sh), y);
      if exists k :: 0 <= k < |sh.starts| && Abs(y - Centres(sh)[k]) <= 5 * (sh.h + sh.s) {
        var k :| 0 <= k < |sh.starts| && Abs(y - Centres(sh)[k]) <= 5 * (sh.h + sh.s);
        assert Dists(Centres(sh), y)[i] <= Dists(Centres(sh), y)[k];
      }
    }
  }

  /** A glyph left of the model whose kernel index is `-j`, `j` at most
      `n_divisions`, lands in division `n_divisions - j`, at the right end
      of its staff. */
  lemma NegativeIndexWraps(sh: Sheet, kern: Kernel, g: Glyph, counts: map<string, int>, minOcc: int, unboundOnEmpty: bool)
    requires Ready(sh, kern)
    requires Verdict(sh, kern, g, counts, minOcc, unboundOnEmpty).Put?
    requires KernelIndex(sh, kern, GlyphPos(sh, g).0) < 0
    ensures Verdict(sh, kern, g, counts, minOcc, unboundOnEmpty).cell ==
      kern.nDivisions + KernelIndex(sh, kern, GlyphPos(sh, g).0)
  {
  }

  /** The `position_glyphs` loop over the glyphs: each is appended to the
      cell its verdict names; the first failure ends the loop. */
  function Position(sh: Sheet, kern: Kernel, grid: Grid, glyphs: seq<Glyph>, counts: map<string, int>, minOcc: int, unboundOnEmpty: bool): (r: Result<Grid>)
    requires Ready(sh, kern) && Shaped(grid, |sh.starts|, kern.nDivisions)
    ensures r.Ok? ==> Shaped(r.value, |sh.starts|, kern.nDivisions)
  {
    if |glyphs| == 0 then Ok(grid)
    else
      var prev :- Position(sh, kern, grid, glyphs[..|glyphs| - 1], counts, minOcc, unboundOnEmpty);
      var g := glyphs[|glyphs| - 1];
      match Verdict(sh, kern, g, counts, minOcc, unboundOnEmpty)
      case Skip => Ok(prev)
      case Fail(e) => Err(e)
      case Put(i, c) => Ok(prev[i := prev[i][c := prev[i][c] + [g]]])
  }

  /** The glyphs whose verdict is cell `d` of staff `k`, in order. */
  function PutIn(sh: Sheet, kern: Kernel, glyphs: seq<Glyph>, counts: map<string, int>, minOcc: int, unboundOnEmpty: bool, k: nat, d: nat): (r: seq<Glyph>)
    requires Ready(sh, kern)
    ensures |r| <= |glyphs|
  {
    if |glyphs| == 0 then []
    else
      var g := glyphs[|glyphs| - 1];
      PutIn(sh, kern, glyphs[..|glyphs| - 1], counts, minOcc, unboundOnEmpty, k, d)
        + (if Verdict(sh, kern, g, counts, minOcc, unboundOnEmpty) == Put(k, d) then [g] else [])
  }

  predicate NoFailure(sh: Sheet, kern: Kernel, glyphs: seq<Glyph>, counts: map<string, int>, minOcc: int, unboundOnEmpty: bool)
    requires Ready(sh, kern)
  {
    forall j :: 0 <= j < |glyphs| ==> !Verdict(sh, kern, glyphs[j], counts, minOcc, unboundOnEmpty).Fail?
  }

  /** No verdict of a list fails exactly when none of its front does and
      that of its last glyph does not. */
  lemma NoFailureSnoc(sh: Sheet, kern: Kernel, glyphs: seq<Glyph>, counts: map<string, int>, minOcc: int, unboundOnEmpty: bool)
    requires Ready(sh, kern) && |glyphs| > 0
    ensures NoFailure(sh, kern, glyphs, counts, minOcc, unboundOnEmpty) <==>
      && NoFailure(sh, kern, glyphs[..|glyphs| - 1], counts, minOcc, unboundOnEmpty)
      && !Verdict(sh, kern, glyphs[|glyphs| - 1], counts, minOcc, unboundOnEmpty).Fail?
  {
    var front := glyphs[..|glyphs| - 1];
    assert forall j :: 0 <= j < |front| ==> front[j] == glyphs[j];
  }

  /** The loop fails exactly when some glyph's verdict does. */
  lemma {:induction false} PositionOk(sh: Sheet, kern: Kernel, grid: Grid, glyphs: seq<Glyph>, counts: map<string, int>, minOcc: int, unboundOnEmpty: bool)
    requires Ready(sh, kern) && Shaped(grid, |sh.starts|, kern.nDivisions)
    ensures Position(sh, kern, grid, glyphs, counts, minOcc, unboundOnEmpty).Ok? <==> NoFailure(sh, kern, glyphs, counts, minOcc, unboundOnEmpty)
  {
    if |glyphs| > 0 {
      var front := glyphs[..|glyphs| - 1];
      PositionOk(sh, kern, grid, front, counts, minOcc, unboundOnEmpty);
      NoFailureSnoc(sh, kern, glyphs, counts, minOcc, unboundOnEmpty);
    }
  }

  /** Every cell after the loop holds its previous glyphs followed by the
      glyphs whose verdict names it, in input order. */
  lemma {:induction false} PositionCells(sh: Sheet, kern: Kernel, grid: Grid, glyphs: seq<Glyph>, counts: map<string, int>, minOcc: int, unboundOnEmpty: bool)
    requires Ready(sh, kern) && Shaped(grid, |sh.starts|, kern.nDivisions)
    requires Position(sh, kern, grid, glyphs, counts, minOcc, unboundOnEmpty).Ok?
    ensures var r := Position(sh, kern, grid, glyphs, counts, minOcc, unboundOnEmpty).value;
      forall k, d :: 0 <= k < |r| && 0 <= d < |r[k]| ==>
        r[k][d] == grid[k][d] + PutIn(sh, kern, glyphs, counts, minOcc, unboundOnEmpty, k, d)
  {
    if |glyphs| > 0 {
      var front := glyphs[..|glyphs| - 1];
      var g := glyphs[|glyphs| - 1];
      PositionCells(sh, kern, grid, front, counts, minOcc, unboundOnEmpty);
      var prev := Position(sh, kern, grid, front, counts, minOcc, unboundOnEmpty).value;
      var r := Position(sh, kern, grid, glyphs, counts, minOcc, unboundOnEmpty).value;
      var v := Verdict(sh, kern, g, counts, minOcc, unboundOnEmpty);
      forall k, d | 0 <= k < |r| && 0 <= d < |r[k]|
        ensures r[k][d] == grid[k][d] + PutIn(sh, kern, glyphs, counts, minOcc, unboundOnEmpty, k, d)
      {
        var before := PutIn(sh, kern, front, counts, minOcc, unboundOnEmpty, k, d);
        assert PutIn(sh, kern, glyphs, counts, minOcc, unboundOnEmpty, k, d)
          == before + (if v == Put(k, d) then [g] else []);
        if v == Put(k, d) {
          assert r[k][d] == prev[k][d] + [g];
        } else {
          assert r[k][d] == prev[k][d];
        }
      }
    }
  }

  /** `MusicFile.position_glyphs` of `src/musicdata.py` (`minOcc` defaults
      to 50 there) and of `src/autoscore/musicdata.py` (200), appending to
      the grid built by the constructor. */
  function PositionGlyphs(sh: Sheet, kern: Kernel, grid: Grid, glyphs: seq<Glyph>, counts: map<string, int>, minOcc: int, autoscore: bool): (r: Result<Grid>)
    requires Ready(sh, kern) && Shaped(grid, |sh.starts|, kern.nDivisions)
    ensures r.Ok? ==> Shaped(r.value, |sh.starts|, kern.nDivisions)
  {
    Position(sh, kern, grid, glyphs, counts, minOcc, autoscore)
  }

  /** Without staffs the first copy places nothing and cannot fail, while
      the `autoscore` copy fails as soon as one glyph passes the name, count
      and column checks. */
  lemma NoStaffs(sh: Sheet, kern: Kernel, grid: Grid, glyphs: seq<Glyph>, counts: map<string, int>, minOcc: int)
    requires Ready(sh, kern) && Shaped(grid, |sh.starts|, kern.nDivisions) && |sh.starts| == 0
    ensures PositionGlyphs(sh, kern, grid, glyphs, counts, minOcc, false) == Ok(grid)
    ensures PositionGlyphs(sh, kern, grid, glyphs, counts, minOcc, true).Err? <==>
      exists j :: 0 <= j < |glyphs| && glyphs[j].name in counts && counts[glyphs[j].name] >= minOcc
        && KernelIndex(sh, kern, GlyphPos(sh, glyphs[j]).0) < kern.nDivisions
  {
    PositionOk(sh, kern, grid, glyphs, counts, minOcc, false);
    PositionOk(sh, kern, grid, glyphs, counts, minOcc, true);
  }

  /** `locate(glyphs, glyph_dict, thresh)` of `src/autoscore/datasets.py`:
      a fresh grid, and the count threshold fixed at `POLL_THRESH` whatever
      `thresh` is passed. */
  function Locate(sh: Sheet, kern: Kernel, glyphs: seq<Glyph>, counts: map<string, int>, thresh: int): (r: Result<Grid>)
    requires Ready(sh, kern)
    ensures r.Ok? ==> Shaped(r.value, |sh.starts|, kern.nDivisions)
  {
    Position(sh, kern, EmptyGrid(|sh.starts|, kern.nDivisions), glyphs, counts, PollThresh, false)
  }

  /** `locate` fails only on a kernel index below `-n_divisions`, and then
      with an `IndexError`; otherwise each cell holds exactly the glyphs
      counted at least `POLL_THRESH` times whose verdict names it, whatever
      threshold is passed. */
  lemma LocateCells(sh: Sheet, kern: Kernel, glyphs: seq<Glyph>, counts: map<string, int>, thresh: int)
    requires Ready(sh, kern)
    ensures Locate(sh, kern, glyphs, counts, thresh).Ok? <==> NoFailure(sh, kern, glyphs, counts, PollThresh, false)
    ensures Locate(sh, kern, glyphs, counts, thresh).Err? ==> Locate(sh, kern, glyphs, counts, thresh).error == IndexError
    ensures Locate(sh, kern, glyphs, counts, thresh).Ok? ==>
      var r := Locate(sh, kern, glyphs, counts, thresh).value;
      forall k, d :: 0 <= k < |r| && 0 <= d < |r[k]| ==>
        r[k][d] == PutIn(sh, kern, glyphs, counts, PollThresh, false, k, d)
  {
    PositionOk(sh, kern, EmptyGrid(|sh.starts|, kern.nDivisions), glyphs, counts, PollThresh, false);
    if Locate(sh, kern, glyphs, counts, thresh).Ok? {
      PositionCells(sh, kern, EmptyGrid(|sh.starts|, kern.nDivisions), glyphs, counts, PollThresh, false);
    }
    PositionFailsWith(sh, kern, EmptyGrid(|sh.starts|, kern.nDivisions), glyphs, counts, PollThresh, false);
  }

  /** The failure of the loop is the failure of some glyph's verdict. */
  lemma {:induction false} PositionFailsWith(sh: Sheet, kern: Kernel, grid: Grid, glyphs: seq<Glyph>, counts: map<string, int>, minOcc: int, unboundOnEmpty: bool)
    requires Ready(sh, kern) && Shaped(grid, |sh.starts|, kern.nDivisions)
    ensures Position(sh, kern, grid, glyphs, counts, minOcc, unboundOnEmpty).Err? ==>
      exists j :: 0 <= j < |glyphs| && Verdict(sh, kern, glyphs[j], counts, minOcc, unboundOnEmpty)
        == Fail(Position(sh, kern, grid, glyphs, counts, minOcc, unboundOnEmpty).error)
  {
    if |glyphs| > 0 {
      var front := glyphs[..|glyphs| - 1];
      PositionFailsWith(sh, kern, grid, front, counts, minOcc, unboundOnEmpty);
      if Position(sh, kern, grid, front, counts, minOcc, unboundOnEmpty).Err? {
        var j :| 0 <= j < |front| && Verdict(sh, kern, front[j], counts, minOcc, unboundOnEmpty)
          == Fail(Position(sh, kern, grid, front, counts, minOcc, unboundOnEmpty).error);
        assert glyphs[j] == front[j];
      }
    }
  }

  /** `_get_division_bbox(staff_idx, div_idx)`: the kernel-sized box of
      division `d` of staff `k`, its top row truncated after halving the
      rows the kernel adds over the staff. */
  function DivisionBox(sh: Sheet, kern: Kernel, k: nat, d: int): (b: Box)
    requires k < |sh.starts|
    ensures b.xmax - b.xmin == kern.width && b.ymax - b.ymin == kern.height
  {
    var xmin := d * kern.width + sh.col;
    var ymin := Trunc((sh.starts[k] + sh.row) as real - (kern.height - 5 * sh.h - 4 * sh.s) as real / 2.0);
    Box(xmin, xmin + kern.width, ymin, ymin + kern.height)
  }

  /** Division boxes tile their staff's band: `d` kernels right of the
      model's corner, from three staff steps above the staff to eleven lines
      and ten spaces below that, each starting where the previous ends. */
  lemma DivisionBoxPlace(sh: Sheet, kern: Kernel, k: nat, d: int)
    requires Ready(sh, kern) && k < |sh.starts|
    ensures DivisionBox(sh, kern, k, d).xmin == d * (sh.s + 3 * sh.h) + sh.col
    ensures DivisionBox(sh, kern, k, d).ymin == sh.starts[k] + sh.row - 3 * (sh.h + sh.s)
    ensures DivisionBox(sh, kern, k, d).ymax == sh.starts[k] + sh.row + 8 * sh.h + 7 * sh.s
    ensures DivisionBox(sh, kern, k, d).xmax == DivisionBox(sh, kern, k, d + 1).xmin
  {
    var v := (sh.starts[k] + sh.row) as real - (kern.height - 5 * sh.h - 4 * sh.s) as real / 2.0;
    assert v == (sh.starts[k] + sh.row - 3 * (sh.h + sh.s)) as real;
  }

  /** The overlap test of the labelling loops: the part of the glyph's area
      inside the division, damped by `EPSILON`, reaches `thresh`. */
  predicate Passes(div: Box, g: Glyph, thresh: real)
    requires Proper(div) && Proper(g.box)
  {
    OverlapAtMostArea(div, g.box);
    Overlap(div, g.box) as real / (Area(g.box) as real + Epsilon) >= thresh
  }

  /** The state of the labelling loop: the glyph holding the largest count
      so far and that count. */
  datatype Poll = Poll(winner: Option<Glyph>, maxPoll: int)

  /** A division's glyphs are well formed: the assertion of `cross_section`
      holds for every pair it is called on. */
  predicate CellProper(div: Box, cell: seq<Glyph>)
  {
    |cell| > 0 ==> Proper(div) && forall j :: 0 <= j < |cell| ==> Proper(cell[j].box)
  }

  /** Which glyphs of a division pass the overlap test. */
  function PassFlags(div: Box, cell: seq<Glyph>, thresh: real): (ps: seq<bool>)
    requires CellProper(div, cell)
    ensures |ps| == |cell|
    ensures forall j :: 0 <= j < |cell| ==> (ps[j] <==> Passes(div, cell[j], thresh))
  {
    seq(|cell|, j requires 0 <= j < |cell| && CellProper(div, cell) => Passes(div, cell[j], thresh))
  }

  /** The inner loop over a division's glyphs once the overlap test is
      known: glyphs overlapping too little are skipped, the count of the
      others is looked up (a `KeyError` when the name is missing) and a
      strictly larger count takes over. */
  function PollLoop(cell: seq<Glyph>, pass: seq<bool>, counts: map<string, int>): (r: Result<Poll>)
    requires |pass| == |cell|
    ensures r.Ok? ==> r.value.maxPoll >= 0 && (r.value.winner.Some? <==> r.value.maxPoll > 0)
    ensures r.Ok? && r.value.winner.Some? ==>
      && r.value.winner.value in cell
      && r.value.winner.value.name in counts && counts[r.value.winner.value.name] == r.value.maxPoll
    ensures r.Err? ==> r.error == KeyError
  {
    if |cell| == 0 then Ok(Poll(None, 0))
    else
      var prev :- PollLoop(cell[..|cell| - 1], pass[..|cell| - 1], counts);
      var g := cell[|cell| - 1];
      if !pass[|cell| - 1] then Ok(prev)
      else if g.name !in counts then Err(KeyError)
      else if counts[g.name] > prev.maxPoll then Ok(Poll(Some(g), counts[g.name]))
      else Ok(prev)
  }

  /** The loop over the glyphs of a division. */
  function Polled(div: Box, cell: seq<Glyph>, counts: map<string, int>, thresh: real): (r: Result<Poll>)
    requires CellProper(div, cell)
  {
    PollLoop(cell, PassFlags(div, cell, thresh), counts)
  }

  predicate NamesKnown(cell: seq<Glyph>, pass: seq<bool>, counts: map<string, int>)
    requires |pass| == |cell|
  {
    forall i :: 0 <= i < |cell| && pass[i] ==> cell[i].name in counts
  }

  /** Glyph `j` passes and holds the largest positive count of the passing
      glyphs, strictly larger than those before it. */
  predicate Winner(cell: seq<Glyph>, pass: seq<bool>, counts: map<string, int>, j: int)
    requires |pass| == |cell| && NamesKnown(cell, pass, counts)
  {
    && 0 <= j < |cell| && pass[j] && counts[cell[j].name] > 0
    && (forall i :: 0 <= i < |cell| && pass[i] ==> counts[cell[i].name] <= counts[cell[j].name])
    && (forall i :: 0 <= i < j && pass[i] ==> counts[cell[i].name] < counts[cell[j].name])
  }

  /** What `PollLoopMeaning` states about one prefix. */
  ghost predicate PollFacts(cell: seq<Glyph>, pass: seq<bool>, counts: map<string, int>)
    requires |pass| == |cell|
  {
    && NamesKnown(cell, pass, counts)
    && PollLoop(cell, pass, counts).Ok?
    && var p := PollLoop(cell, pass, counts).value;
       && (p.winner.Some? <==> exists i :: 0 <= i < |cell| && pass[i] && counts[cell[i].name] > 0)
       && (p.winner.Some? ==> exists j :: Winner(cell, pass, counts, j) && cell[j] == p.winner.value)
  }

  /** The loop fails exactly when a passing glyph's name has no count;
      otherwise it elects a glyph exactly when some passing glyph has a
      positive count, and the glyph it elects is the first with the largest
      count. */
  lemma {:induction false} PollLoopMeaning(cell: seq<Glyph>, pass: seq<bool>, counts: map<string, int>)
    requires |pass| == |cell|
    ensures PollLoop(cell, pass, counts).Ok? <==> NamesKnown(cell, pass, counts)
    ensures PollLoop(cell, pass, counts).Ok? ==> PollFacts(cell, pass, counts)
  {
    if |cell| > 0 {
      var n := |cell| - 1;
      var front, fpass := cell[..n], pass[..n];
      assert forall i :: 0 <= i < n ==> front[i] == cell[i] && fpass[i] == pass[i];
      PollLoopMeaning(front, fpass, counts);
      if PollLoop(front, fpass, counts).Ok? {
        var prev := PollLoop(front, fpass, counts).value;
        if !pass[n] {
          StepSkip(cell, pass, counts);
        } else if cell[n].name in counts && counts[cell[n].name] > prev.maxPoll {
          StepTake(cell, pass, counts);
        } else if cell[n].name in counts {
          StepKeep(cell, pass, counts);
        }
      }
    }
  }

  lemma StepSkip(cell: seq<Glyph>, pass: seq<bool>, counts: map<string, int>)
    requires |pass| == |cell| > 0 && PollFacts(cell[..|cell| - 1], pass[..|cell| - 1], counts)
    requires !pass[|cell| - 1]
    ensures PollFacts(cell, pass, counts)
  {
    var n := |cell| - 1;
    var front, fpass := cell[..n], pass[..n];
    assert forall i :: 0 <= i < n ==> front[i] == cell[i] && fpass[i] == pass[i];
    var prev := PollLoop(front, fpass, counts).value;
    assert PollLoop(cell, pass, counts) == Ok(prev);
    if prev.winner.Some? {
      var j :| Winner(front, fpass, counts, j) && front[j] == prev.winner.value;
      assert Winner(cell, pass, counts, j);
    }
  }

  lemma StepTake(cell: seq<Glyph>, pass: seq<bool>, counts: map<string, int>)
    requires |pass| == |cell| > 0 && PollFacts(cell[..|cell| - 1], pass[..|cell| - 1], counts)
    requires pass[|cell| - 1] && cell[|cell| - 1].name in counts
    requires counts[cell[|cell| - 1].name] > PollLoop(cell[..|cell| - 1], pass[..|cell| - 1], counts).value.maxPoll
    ensures PollFacts(cell, pass, counts)
  {
    var n := |cell| - 1;
    var front, fpass := cell[..n], pass[..n];
    var g := cell[n];
    assert forall i :: 0 <= i < n ==> front[i] == cell[i] && fpass[i] == pass[i];
    var prev := PollLoop(front, fpass, counts).value;
    assert PollLoop(cell, pass, counts) == Ok(Poll(Some(g), counts[g.name]));
    forall i | 0 <= i < n && pass[i]
      ensures counts[cell[i].name] < counts[g.name]
    {
      if prev.winner.Some? {
        var j :| Winner(front, fpass, counts, j) && front[j] == prev.winner.value;
        assert counts[front[j].name] == prev.maxPoll;
        assert fpass[i] && counts[front[i].name] <= counts[front[j].name];
      } else {
        assert !(fpass[i] && counts[front[i].name] > 0);
      }
    }
    assert Winner(cell, pass, counts, n);
  }

  lemma StepKeep(cell: seq<Glyph>, pass: seq<bool>, counts: map<string, int>)
    requires |pass| == |cell| > 0 && PollFacts(cell[..|cell| - 1], pass[..|cell| - 1], counts)
    requires pass[|cell| - 1] && cell[|cell| - 1].name in counts
    requires counts[cell[|cell| - 1].name] <= PollLoop(cell[..|cell| - 1], pass[..|cell| - 1], counts).value.maxPoll
    ensures PollFacts(cell, pass, counts)
  {
    var n := |cell| - 1;
    var front, fpass := cell[..n], pass[..n];
    var g := cell[n];
    assert forall i :: 0 <= i < n ==> front[i] == cell[i] && fpass[i] == pass[i];
    var prev := PollLoop(front, fpass, counts).value;
    assert PollLoop(cell, pass, counts) == Ok(prev);
    assert NamesKnown(cell, pass, counts) by {
      forall i | 0 <= i < |cell| && pass[i]
        ensures cell[i].name in counts
      {
        if i < n {
          assert fpass[i];
        }
      }
    }
    if prev.winner.Some? {
      var j :| Winner(front, fpass, counts, j) && front[j] == prev.winner.value;
      assert counts[front[j].name] == prev.maxPoll;
      assert Winner(cell, pass, counts, j);
      assert pass[j] && counts[cell[j].name] > 0;
    } else {
      forall i | 0 <= i < |cell| && pass[i]
        ensures counts[cell[i].name] <= 0
      {
        if i < n {
          assert !(fpass[i] && counts[front[i].name] > 0);
        }
      }
    }
  }


  /** How a sample's label is chosen once the loop has elected a glyph:
      `src/musicdata.py` maps names outside the relevant set to `'Other'`,
      the `autoscore` copies keep the name. */
  datatype LabelRule = NameOrOther(relevant: set<string>) | NameOnly

  function Named(rule: LabelRule, name: string): string
  {
    if rule.NameOrOther? && name !in rule.relevant then "Other" else name
  }

  /** The label as written: `'None'` when no glyph was elected, otherwise
      the name of the glyph the loop variable was left on, the last of the
      division, whichever glyph was elected. */
  function Label(rule: LabelRule, cell: seq<Glyph>, p: Poll): (l: string)
    requires p.winner.Some? ==> p.winner.value in cell
  {
    if p.winner.None? then "None" else Named(rule, cell[|cell| - 1].name)
  }

  /** The label the election evidently meant: the name of the elected
      glyph. */
  function LabelCorrected(rule: LabelRule, p: Poll): string
  {
    if p.winner.None? then "None" else Named(rule, p.winner.value.name)
  }

  /** A sample: the division's pixels and its label. */
  datatype Sample<T> = Sample(image: seq<seq<T>>, name: string)

  predicate GridProper(sh: Sheet, kern: Kernel, grid: Grid)
    requires |grid| <= |sh.starts|
  {
    forall k, d :: 0 <= k < |grid| && 0 <= d < |grid[k]| ==> CellProper(DivisionBox(sh, kern, k, d), grid[k][d])
  }

  /** What the sample loops require of a sheet and its grid: a computed
      kernel, the grid of the constructor (or of `locate`), and boxes that
      satisfy the assertion of `cross_section`. */
  predicate Labellable(sh: Sheet, kern: Kernel, grid: Grid)
  {
    Ready(sh, kern) && Shaped(grid, |sh.starts|, kern.nDivisions) && GridProper(sh, kern, grid)
  }

  /** One iteration of the division loop: the division's box, the election
      over its glyphs, `img[ymin:ymax, xmin:xmax]` and the label; with
      `corrected` unset the label is the one the loops write, with it set
      the one they evidently meant. */
  function CellSample<T>(sh: Sheet, kern: Kernel, img: seq<seq<T>>, grid: Grid, k: nat, d: nat,
                         counts: map<string, int>, thresh: real, rule: LabelRule, corrected: bool): (r: Result<Sample<T>>)
    requires Labellable(sh, kern, grid) && k < |grid| && d < |grid[k]|
  {
    var div := DivisionBox(sh, kern, k, d);
    var p :- Polled(div, grid[k][d], counts, thresh);
    var name := if corrected then LabelCorrected(rule, p) else Label(rule, grid[k][d], p);
    Ok(Sample(PySeq.Slice2(img, div.ymin, div.ymax, div.xmin, div.xmax), name))
  }

  /** A cell fails exactly when a glyph passing the overlap test has no
      count. Otherwise its image is the division box cut from the page and
      its label is `'None'` unless some passing glyph has a positive count;
      then it is, as written, the name of the division's last glyph, and,
      corrected, the name of the first passing glyph with the largest
      count. */
  lemma CellSampleLabel<T>(sh: Sheet, kern: Kernel, img: seq<seq<T>>, grid: Grid, k: nat, d: nat,
                           counts: map<string, int>, thresh: real, rule: LabelRule, corrected: bool)
    requires Labellable(sh, kern, grid) && k < |grid| && d < |grid[k]|
    ensures var div := DivisionBox(sh, kern, k, d);
      var cell := grid[k][d];
      && (CellSample(sh, kern, img, grid, k, d, counts, thresh, rule, corrected).Ok? <==>
            forall j :: 0 <= j < |cell| && Passes(div, cell[j], thresh) ==> cell[j].name in counts)
      && (CellSample(sh, kern, img, grid, k, d, counts, thresh, rule, corrected).Ok? ==>
            var smp := CellSample(sh, kern, img, grid, k, d, counts, thresh, rule, corrected).value;
            && smp.image == PySeq.Slice2(img, div.ymin, div.ymax, div.xmin, div.xmax)
            && (if exists j :: 0 <= j < |cell| && Passes(div, cell[j], thresh) && counts[cell[j].name] > 0
                then (if corrected
                      then exists j :: Winner(cell, PassFlags(div, cell, thresh), counts, j) && smp.name == Named(rule, cell[j].name)
                      else smp.name == Named(rule, cell[|cell| - 1].name))
                else smp.name == "None"))
  {
    var div := DivisionBox(sh, kern, k, d);
    var cell := grid[k][d];
    PollLoopMeaning(cell, PassFlags(div, cell, thresh), counts);
  }

  /** A loop that stops at the first failing step: the values of all
      steps, or the first failure. */
  function Collect<X>(rs: seq<Result<X>>): (r: Result<seq<X>>)
    ensures r.Ok? ==> |r.value| == |rs|
  {
    if |rs| == 0 then Ok([])
    else
      var prev :- Collect(rs[..|rs| - 1]);
      var x :- rs[|rs| - 1];
      Ok(prev + [x])
  }

  lemma {:induction false} CollectAt<X>(rs: seq<Result<X>>)
    ensures Collect(rs).Ok? <==> forall i :: 0 <= i < |rs| ==> rs[i].Ok?
    ensures Collect(rs).Ok? ==> forall i :: 0 <= i < |rs| ==> Collect(rs).value[i] == rs[i].value
  {
    if |rs| > 0 {
      var front := rs[..|rs| - 1];
      CollectAt(front);
      assert forall i :: 0 <= i < |front| ==> front[i] == rs[i];
    }
  }

  /** Two nested loops that stop at the first failing step, row by row. */
  function CollectRows<X>(rows: seq<seq<Result<X>>>): (r: Result<seq<X>>)
  {
    if |rows| == 0 then Ok([])
    else
      var prev :- CollectRows(rows[..|rows| - 1]);
      var row :- Collect(rows[|rows| - 1]);
      Ok(prev + row)
  }

  lemma {:induction false} CollectRowsOk<X>(rows: seq<seq<Result<X>>>)
    ensures CollectRows(rows).Ok? <==> forall k, d :: 0 <= k < |rows| && 0 <= d < |rows[k]| ==> rows[k][d].Ok?
  {
    if |rows| > 0 {
      var m := |rows| - 1;
      CollectRowsOk(rows[..m]);
      CollectAt(rows[m]);
      assert forall k :: 0 <= k < m ==> rows[..m][k] == rows[k];
    }
  }

  predicate Uniform<X>(rows: seq<seq<X>>, n: nat)
  {
    forall k :: 0 <= k < |rows| ==> |rows[k]| == n
  }

  predicate AllOk<X>(rows: seq<seq<Result<X>>>)
  {
    forall k, d :: 0 <= k < |rows| && 0 <= d < |rows[k]| ==> rows[k][d].Ok?
  }

  lemma {:induction false} CollectRowsLen<X>(rows: seq<seq<Result<X>>>, n: nat)
    requires Uniform(rows, n) && AllOk(rows)
    ensures CollectRows(rows).Ok? && |CollectRows(rows).value| == |rows| * n
  {
    if |rows| > 0 {
      var m := |rows| - 1;
      CollectRowsLen(rows[..m], n);
      CollectAt(rows[m]);
      assert (m + 1) * n == m * n + n;
    }
  }

  /** Rows of `n` steps each are collected row after row: step `d` of row
      `k` lands at `k * n + d`. */
  lemma {:induction false} CollectRowsAt<X>(rows: seq<seq<Result<X>>>, n: nat, k: nat, d: nat)
    requires Uniform(rows, n) && AllOk(rows) && k < |rows| && d < n
    ensures CollectRows(rows).Ok? && k * n + d < |CollectRows(rows).value|
    ensures CollectRows(rows).value[k * n + d] == rows[k][d].value
  {
    var m := |rows| - 1;
    CollectRowsLen(rows, n);
    CollectRowsLen(rows[..m], n);
    CollectAt(rows[m]);
    var prev := CollectRows(rows[..m]).value;
    var row := Collect(rows[m]).value;
    assert CollectRows(rows).value == prev + row;
    if k < m {
      CollectRowsAt(rows[..m], n, k, d);
      Offsets(k, d, n, m);
    } else {
      assert k * n + d == |prev| + d;
    }
  }

  lemma Offsets(k: nat, d: nat, n: nat, m: nat)
    requires k < m && d < n
    ensures k * n + d < m * n
  {
    assert (k + 1) * n <= m * n;
  }

  /** The step results of the staff and division loops, one per cell. */
  function CellResults<T>(sh: Sheet, kern: Kernel, img: seq<seq<T>>, grid: Grid,
                          counts: map<string, int>, thresh: real, rule: LabelRule, corrected: bool): (rows: seq<seq<Result<Sample<T>>>>)
    requires Labellable(sh, kern, grid)
    ensures |rows| == |grid|
    ensures forall k :: 0 <= k < |grid| ==> |rows[k]| == |grid[k]|
    ensures forall k, d :: 0 <= k < |grid| && 0 <= d < |grid[k]| ==>
      rows[k][d] == CellSample(sh, kern, img, grid, k, d, counts, thresh, rule, corrected)
  {
    seq(|grid|, k requires 0 <= k < |grid| && Labellable(sh, kern, grid) =>
      seq(|grid[k]|, d requires 0 <= d < |grid[k]| => CellSample(sh, kern, img, grid, k, d, counts, thresh, rule, corrected)))
  }

  /** The staff and division loops of both sample extractors. */
  function Samples<T>(sh: Sheet, kern: Kernel, img: seq<seq<T>>, grid: Grid,
                      counts: map<string, int>, thresh: real, rule: LabelRule, corrected: bool): (r: Result<seq<Sample<T>>>)
    requires Labellable(sh, kern, grid)
  {
    CollectRows(CellResults(sh, kern, img, grid, counts, thresh, rule, corrected))
  }

  /** The loops fail exactly when some cell does. */
  lemma SamplesOk<T>(sh: Sheet, kern: Kernel, img: seq<seq<T>>, grid: Grid,
                     counts: map<string, int>, thresh: real, rule: LabelRule, corrected: bool)
    requires Labellable(sh, kern, grid)
    ensures Samples(sh, kern, img, grid, counts, thresh, rule, corrected).Ok? <==>
      forall k, d :: 0 <= k < |grid| && 0 <= d < |grid[k]| ==> CellSample(sh, kern, img, grid, k, d, counts, thresh, rule, corrected).Ok?
  {
    CollectRowsOk(CellResults(sh, kern, img, grid, counts, thresh, rule, corrected));
  }

  /** One sample per cell, staff by staff and within a staff division by
      division: sample `k * n + d` is that of division `d` of staff `k`,
      `n` being the number of divisions. */
  lemma SampleAt<T>(sh: Sheet, kern: Kernel, img: seq<seq<T>>, grid: Grid,
                    counts: map<string, int>, thresh: real, rule: LabelRule, corrected: bool, k: nat, d: nat)
    requires Labellable(sh, kern, grid) && Samples(sh, kern, img, grid, counts, thresh, rule, corrected).Ok?
    requires k < |grid| && d < Max(0, kern.nDivisions)
    ensures var r := Samples(sh, kern, img, grid, counts, thresh, rule, corrected).value;
      var i := Slot(k, Max(0, kern.nDivisions), d);
      && |r| == |sh.starts| * Max(0, kern.nDivisions)
      && i < |r|
      && Ok(r[i]) == CellSample(sh, kern, img, grid, k, d, counts, thresh, rule, corrected)
  {
    var n := Max(0, kern.nDivisions);
    var rows := CellResults(sh, kern, img, grid, counts, thresh, rule, corrected);
    assert CollectRows(rows).Ok?;
    CollectRowsOk(rows);
    CollectRowsIndex(rows, n, k, d);
    var r := CollectRows(rows).value;
    assert |rows| == |sh.starts|;
    assert rows[k][d] == CellSample(sh, kern, img, grid, k, d, counts, thresh, rule, corrected);
    assert Ok(r[Slot(k, n, d)]) == rows[k][d];
  }

  /** The position of step `d` of row `k` when every row has `n` steps. */
  function Slot(k: nat, n: nat, d: nat): nat
  {
    k * n + d
  }

  lemma CollectRowsIndex<X>(rows: seq<seq<Result<X>>>, n: nat, k: nat, d: nat)
    requires Uniform(rows, n) && AllOk(rows) && k < |rows| && d < n
    ensures CollectRows(rows).Ok?
    ensures var r := CollectRows(rows).value;
      |r| == |rows| * n && Slot(k, n, d) < |r| && r[Slot(k, n, d)] == rows[k][d].value
  {
    CollectRowsLen(rows, n);
    CollectRowsAt(rows, n, k, d);
  }

  /** `extract_training_data(img, glyph_dict, relevant_glyphs,
      area_overlap_thresh)` of `src/musicdata.py`, labels corrected unless
      `corrected` is unset. */
  function ExtractTrainingData<T>(sh: Sheet, kern: Kernel, img: seq<seq<T>>, grid: Grid, counts: map<string, int>,
                                  relevant: set<string>, thresh: real, corrected: bool): Result<seq<Sample<T>>>
    requires Labellable(sh, kern, grid)
  {
    Samples(sh, kern, img, grid, counts, thresh, NameOrOther(relevant), corrected)
  }

  /** `extract_samples(img, glyph_dict, thresh)` of the `autoscore`
      copies, labels corrected unless `corrected` is unset. */
  function ExtractSamples<T>(sh: Sheet, kern: Kernel, img: seq<seq<T>>, grid: Grid, counts: map<string, int>,
                             thresh: real, corrected: bool): Result<seq<Sample<T>>>
    requires Labellable(sh, kern, grid)
  {
    Samples(sh, kern, img, grid, counts, thresh, NameOnly, corrected)
  }

  /** The corrected label names the elected glyph: `'None'` when no passing
      glyph has a positive count, otherwise the first passing glyph with
      the largest count. */
  lemma LabelCorrectedNamesWinner(div: Box, cell: seq<Glyph>, counts: map<string, int>, thresh: real, rule: LabelRule)
    requires CellProper(div, cell) && Polled(div, cell, counts, thresh).Ok?
    ensures var pass := PassFlags(div, cell, thresh);
      var l := LabelCorrected(rule, Polled(div, cell, counts, thresh).value);
      && NamesKnown(cell, pass, counts)
      && ((forall i :: 0 <= i < |cell| && pass[i] ==> counts[cell[i].name] <= 0) ==> l == "None")
      && ((exists i :: 0 <= i < |cell| && pass[i] && counts[cell[i].name] > 0) ==>
            exists j :: Winner(cell, pass, counts, j) && l == Named(rule, cell[j].name))
  {
    PollLoopMeaning(cell, PassFlags(div, cell, thresh), counts);
  }

  /** As written, the label names the division's last glyph even when it
      fails the overlap test: in the division `[0, 10) x [0, 10)` holding a
      glyph `a` inside it and then a glyph `b` outside it, both counted 300
      times, `a` is elected but the sample is labelled `b`. */
  lemma LabelNamesLastGlyph()
    ensures var div := Box(0, 10, 0, 10);
      var cell := [Glyph("a", Box(1, 2, 1, 2)), Glyph("b", Box(20, 21, 20, 21))];
      var counts := map["a" := 300, "b" := 300];
      && CellProper(div, cell)
      && Polled(div, cell, counts, SampleThresh) == Ok(Poll(Some(cell[0]), 300))
      && Label(NameOnly, cell, Poll(Some(cell[0]), 300)) == "b"
      && LabelCorrected(NameOnly, Poll(Some(cell[0]), 300)) == "a"
  {
    var div := Box(0, 10, 0, 10);
    var cell := [Glyph("a", Box(1, 2, 1, 2)), Glyph("b", Box(20, 21, 20, 21))];
    var counts := map["a" := 300, "b" := 300];
    assert CellProper(div, cell);
    assert Overlap(div, cell[0].box) == 1 && Area(cell[0].box) == 1;
    assert Passes(div, cell[0], SampleThresh);
    assert Overlap(div, cell[1].box) == 0;
    assert !Passes(div, cell[1], SampleThresh);
    var pass := PassFlags(div, cell, SampleThresh);
    assert pass == [true, false];
    assert cell[..1] == [cell[0]] && pass[..1] == [true];
    assert PollLoop([cell[0]], [true], counts) == Ok(Poll(Some(cell[0]), 300)) by {
      assert [cell[0]][..0] == [] && [true][..0] == [];
    }
  }
}
