/** The polarity vote of `blackOnWhite`: the top-left quadrant of the grey
    source image decides whether the page must be inverted before any other
    processing. */
module Polarity {
  import opened Raster

  /** `BINARY_THRESH_VAL`: after inversion, grey levels up to it are ink. */
  const BinaryThreshold: nat := 220
  /** An 8-bit grey level. */
  type Pixel = x: int | 0 <= x < 256

  type GrayImage = seq<seq<Pixel>>

  predicate IsGrayRect(src: GrayImage)
  {
    forall i :: 0 <= i < |src| ==> |src[i]| == |src[0]|
  }

  function GrayWidth(src: GrayImage): nat
  {
    if |src| == 0 then 0 else |src[0]|
  }

  /** Non-zero samples in the first `cols` entries of a row. */
  function RowLit(row: seq<Pixel>, cols: nat): nat
    requires cols <= |row|
  {
    if cols == 0 then 0 else RowLit(row, cols - 1) + (if row[cols - 1] != 0 then 1 else 0)
  }

  /** Non-zero samples in the `rows` x `cols` top-left block. */
  function BlockLit(src: GrayImage, rows: nat, cols: nat): nat
    requires rows <= |src|
    requires forall i :: 0 <= i < rows ==> cols <= |src[i]|
  {
    if rows == 0 then 0 else BlockLit(src, rows - 1, cols) + RowLit(src[rows - 1], cols)
  }

  /** The page is black on white: in the `rows/2` x `cols/2` top-left
      quadrant the non-zero (white) samples are at least as many as the zero
      (black) ones. */
  predicate LitMajority(src: GrayImage)
    requires IsGrayRect(src)
  {
    2 * BlockLit(src, |src| / 2, GrayWidth(src) / 2) >= (|src| / 2) * (GrayWidth(src) / 2)
  }

  /** The vote over the quadrant: a non-zero sample is white, a zero sample
      black, and the page is black on white unless the black samples are
      strictly more. */
  method BlackOnWhite(src: GrayImage) returns (r: bool)
    requires IsGrayRect(src)
    ensures r <==> LitMajority(src)
  {
    var rows := |src| / 2;
    var cols := GrayWidth(src) / 2;
    var black := 0;
    var white := 0;
    var i := 0;
    while i < rows
      invariant 0 <= i <= rows
      invariant white == BlockLit(src, i, cols)
      invariant black + white == i * cols
    {
      var j := 0;
      var rowWhite := 0;
      while j < cols
        invariant 0 <= j <= cols
        invariant rowWhite == RowLit(src[i], j)
        invariant black + white + rowWhite == i * cols + j
      {
        if src[i][j] != 0 {
          rowWhite := rowWhite + 1;
        } else {
          black := black + 1;
        }
        j := j + 1;
      }
      white := white + rowWhite;
      i := i + 1;
    }
    r := !(black > white);
  }

  lemma {:induction false} RowLitBounds(row: seq<Pixel>, cols: nat)
    requires cols <= |row|
    ensures RowLit(row, cols) <= cols
    ensures (forall j :: 0 <= j < cols ==> row[j] != 0) ==> RowLit(row, cols) == cols
    ensures (forall j :: 0 <= j < cols ==> row[j] == 0) ==> RowLit(row, cols) == 0
  {
    if cols > 0 {
      RowLitBounds(row, cols - 1);
    }
  }

  lemma {:induction false} BlockLitUniform(src: GrayImage, rows: nat, cols: nat, lit: bool)
    requires rows <= |src|
    requires forall i :: 0 <= i < rows ==> cols <= |src[i]|
    requires forall i, j :: 0 <= i < rows && 0 <= j < cols ==> (src[i][j] != 0 <==> lit)
    ensures BlockLit(src, rows, cols) == if lit then rows * cols else 0
  {
    if rows > 0 {
      BlockLitUniform(src, rows - 1, cols, lit);
      RowLitBounds(src[rows - 1], cols);
    }
  }

  /** A quadrant of zero samples (a dark page) votes "white on black", so the
      page is not inverted; a quadrant without zero samples, or an empty one,
      votes "black on white". */
  lemma UniformVotes(src: GrayImage, lit: bool)
    requires IsGrayRect(src)
    requires forall i, j :: 0 <= i < |src| / 2 && 0 <= j < GrayWidth(src) / 2 ==> (src[i][j] != 0 <==> lit)
    ensures var q := (|src| / 2) * (GrayWidth(src) / 2);
      2 * BlockLit(src, |src| / 2, GrayWidth(src) / 2) >= q <==> lit || q == 0
  {
    var rows, cols := |src| / 2, GrayWidth(src) / 2;
    assert forall i :: 0 <= i < rows ==> cols <= |src[i]|;
    BlockLitUniform(src, rows, cols, lit);
    VoteOfCount(BlockLit(src, rows, cols), rows, cols, lit);
  }

  lemma VoteOfCount(lit: nat, rows: nat, cols: nat, all: bool)
    requires lit == if all then rows * cols else 0
    ensures 2 * lit >= rows * cols <==> all || rows * cols == 0
  {
    if rows == 0 || cols == 0 {
      assert rows * cols == 0;
    } else {
      assert rows * cols > 0;
    }
  }

  /** The binary image every later step reads: an inverted page keeps as
      ink the samples not brighter than the threshold (`THRESH_BINARY_INV`),
      a page that is not inverted keeps its non-zero samples. */
  function Binarize(src: GrayImage, invert: bool): (img: Grid)
    requires IsGrayRect(src)
    ensures |img| == |src| && WellFormed(img) && Width(img) == GrayWidth(src)
  {
    seq(|src|, y requires 0 <= y < |src| =>
      seq(|src[y]|, x requires 0 <= x < |src[y]| => if invert then src[y][x] <= BinaryThreshold else src[y][x] != 0))
  }

  /** Inversion turns white paper into background and black print into
      ink; without it a sample is ink exactly when it is not black. */
  lemma BinarizePolarity(src: GrayImage, invert: bool, y: nat, x: nat)
    requires IsGrayRect(src) && y < |src| && x < |src[y]|
    ensures invert && src[y][x] == 255 ==> !Binarize(src, invert)[y][x]
    ensures invert && src[y][x] == 0 ==> Binarize(src, invert)[y][x]
    ensures !invert ==> (Binarize(src, invert)[y][x] <==> src[y][x] != 0)
    ensures invert ==> (Binarize(src, invert)[y][x] <==> src[y][x] <= BinaryThreshold)
  {
  }
}
