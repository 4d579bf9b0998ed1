/** The straight/curved decision of `GetStaffModel`: the Hough angles are
    binned into 20 bins of 9 degrees, the fullest bin is chosen, and the page
    counts as straight when that bin holds at least 70% of more than ten
    lines. Angles are given in degrees. */
module PageOrientation {
  import opened Numeric

  const BinCount: nat := 20
  const BinDegrees: nat := 9
  const MinHoughLines: nat := 10

  predicate AnglesInRange(angles: seq<real>)
  {
    forall i :: 0 <= i < |angles| ==> 0.0 <= angles[i] < 180.0
  }

  /** The bin index `(int)theta / 9`. */
  function BinOf(theta: real): (b: nat)
    requires 0.0 <= theta < 180.0
    ensures b < BinCount
    ensures (BinDegrees * b) as real <= theta < (BinDegrees * (b + 1)) as real
  {
    theta.Floor / BinDegrees
  }

  /** The number of angles that fall into bin `b`. */
  function Tally(angles: seq<real>, b: nat): nat
    requires AnglesInRange(angles)
  {
    if |angles| == 0 then 0
    else
      var last := angles[|angles| - 1];
      Tally(angles[..|angles| - 1], b) + (if BinOf(last) == b then 1 else 0)
  }

  /** The sum of the angles that fall into bin `b`. */
  function BinTotal(angles: seq<real>, b: nat): real
    requires AnglesInRange(angles)
  {
    if |angles| == 0 then 0.0
    else
      var last := angles[|angles| - 1];
      BinTotal(angles[..|angles| - 1], b) + (if BinOf(last) == b then last else 0.0)
  }

  function Histogram(angles: seq<real>): (counts: seq<nat>)
    requires AnglesInRange(angles)
    ensures |counts| == BinCount
  {
    seq(BinCount, b requires 0 <= b < BinCount => Tally(angles, b))
  }

  /** The scan `if (size > max_count)` starting from 0: the first bin with
      the highest count. */
  function MajorityBin(counts: seq<nat>): (m: nat)
    requires |counts| > 0
    ensures m < |counts|
    ensures forall j :: 0 <= j < |counts| ==> counts[j] <= counts[m]
    ensures forall j :: 0 <= j < m ==> counts[j] < counts[m]
  {
    if |counts| == 1 then 0
    else
      var m := MajorityBin(counts[..|counts| - 1]);
      assert forall j :: 0 <= j < |counts| - 1 ==> counts[..|counts| - 1][j] == counts[j];
      if counts[|counts| - 1] > counts[m] then |counts| - 1 else m
  }

  datatype Decision = Decision(straight: bool, bin: nat, rot: real)

  /** The page is straight when the majority bin holds at least 70% of the
      lines and there are more than ten of them; its rotation is then the
      damped average angle of that bin, and otherwise 90 degrees. */
  function Decide(angles: seq<real>): (d: Decision)
    requires AnglesInRange(angles)
    ensures d.bin < BinCount
    ensures d.straight <==> |angles| > MinHoughLines && 10 * Tally(angles, d.bin) >= 7 * |angles|
    ensures d.straight ==> d.rot == BinTotal(angles, d.bin) / (Tally(angles, d.bin) as real + Epsilon)
    ensures !d.straight ==> d.rot == 90.0
  {
    var counts := Histogram(angles);
    var m := MajorityBin(counts);
    var n := counts[m];
    if |angles| > MinHoughLines && 10 * n >= 7 * |angles| then
      Decision(true, m, BinTotal(angles, m) / (n as real + Epsilon))
    else
      Decision(false, m, 90.0)
  }

  function SumCounts(counts: seq<nat>): nat
  {
    if |counts| == 0 then 0 else SumCounts(counts[..|counts| - 1]) + counts[|counts| - 1]
  }

  lemma {:induction false} SumCountsBump(counts: seq<nat>, b: nat)
    requires b < |counts|
    ensures SumCounts(counts[b := counts[b] + 1]) == SumCounts(counts) + 1
  {
    var bumped := counts[b := counts[b] + 1];
    if b < |counts| - 1 {
      assert bumped[..|counts| - 1] == counts[..|counts| - 1][b := counts[b] + 1];
      SumCountsBump(counts[..|counts| - 1], b);
    } else {
      assert bumped[..|counts| - 1] == counts[..|counts| - 1];
    }
  }

  /** Every line lands in exactly one bin: the bins hold all the lines. */
  lemma {:induction false} HistogramTotal(angles: seq<real>)
    requires AnglesInRange(angles)
    ensures SumCounts(Histogram(angles)) == |angles|
  {
    if |angles| == 0 {
      assert Histogram(angles) == seq(BinCount, b => 0);
      ZeroCounts(BinCount);
    } else {
      var init := angles[..|angles| - 1];
      var b := BinOf(angles[|angles| - 1]);
      HistogramTotal(init);
      assert Histogram(angles) == Histogram(init)[b := Histogram(init)[b] + 1];
      SumCountsBump(Histogram(init), b);
    }
  }

  lemma {:induction false} ZeroCounts(n: nat)
    ensures SumCounts(seq(n, b => 0)) == 0
  {
    if n > 0 {
      assert seq(n, b => 0)[..n - 1] == seq(n - 1, b => 0);
      ZeroCounts(n - 1);
    }
  }

  /** Ten lines or fewer, in particular no line at all, leave the page
      curved with the default rotation of 90 degrees. */
  lemma FewLinesCurved(angles: seq<real>)
    requires AnglesInRange(angles) && |angles| <= MinHoughLines
    ensures !Decide(angles).straight && Decide(angles).rot == 90.0
  {
  }

  /** The upper edge of bin `b`, in degrees. */
  function Top(b: nat): real
  {
    (BinDegrees * (b + 1)) as real
  }

  /** The upper edge of bin `b` once per angle in the bin. */
  function Cap(angles: seq<real>, b: nat): real
    requires AnglesInRange(angles)
  {
    if |angles| == 0 then 0.0
    else
      var last := angles[|angles| - 1];
      Cap(angles[..|angles| - 1], b) + (if BinOf(last) == b then Top(b) else 0.0)
  }

  lemma {:induction false} CapProduct(angles: seq<real>, b: nat)
    requires AnglesInRange(angles)
    ensures Cap(angles, b) == Tally(angles, b) as real * Top(b)
  {
    if |angles| > 0 {
      var init := angles[..|angles| - 1];
      CapProduct(init, b);
      if BinOf(angles[|angles| - 1]) == b {
        assert (Tally(init, b) + 1) as real * Top(b) == Tally(init, b) as real * Top(b) + Top(b);
      }
    }
  }

  /** Every angle of a bin lies below the bin's upper edge. */
  lemma {:induction false} TotalBelowCap(angles: seq<real>, b: nat)
    requires AnglesInRange(angles)
    ensures 0.0 <= BinTotal(angles, b) <= Cap(angles, b)
    ensures Tally(angles, b) > 0 ==> BinTotal(angles, b) < Cap(angles, b)
  {
    if |angles| > 0 {
      TotalBelowCap(angles[..|angles| - 1], b);
    }
  }

  lemma BinTotalBounds(angles: seq<real>, b: nat)
    requires AnglesInRange(angles)
    ensures 0.0 <= BinTotal(angles, b) <= Tally(angles, b) as real * Top(b)
    ensures Tally(angles, b) > 0 ==> BinTotal(angles, b) < Tally(angles, b) as real * Top(b)
  {
    TotalBelowCap(angles, b);
    CapProduct(angles, b);
  }

  /** A straight page's rotation is a damped average of angles of its bin:
      it is non-negative and below the bin's upper edge. */
  lemma StraightRotationInBin(angles: seq<real>)
    requires AnglesInRange(angles) && Decide(angles).straight
    ensures var d := Decide(angles);
      0.0 <= d.rot < (BinDegrees * (d.bin + 1)) as real
  {
    var d := Decide(angles);
    var n := Tally(angles, d.bin);
    var total := BinTotal(angles, d.bin);
    assert d.rot == total / (n as real + Epsilon);
    assert 10 * n >= 7 * |angles| > 0;
    BinTotalBounds(angles, d.bin);
    DampedAverageBelow(total, n as real, Top(d.bin));
  }

  lemma DampedAverageBelow(total: real, n: real, top: real)
    requires 0.0 <= total < n * top && n > 0.0 && top > 0.0
    ensures 0.0 <= total / (n + Epsilon) < top
  {
    assert total / (n + Epsilon) <= total / n;
    assert total / n < top;
  }

  lemma {:induction false} TallyAllInBin(angles: seq<real>, b: nat)
    requires AnglesInRange(angles)
    requires forall i :: 0 <= i < |angles| ==> BinOf(angles[i]) == b
    ensures Tally(angles, b) == |angles|
  {
    if |angles| > 0 {
      TallyAllInBin(angles[..|angles| - 1], b);
    }
  }

  /** More than ten lines all inside one bin make the page straight, with
      that bin as the majority. */
  lemma OneBinStraight(angles: seq<real>, b: nat)
    requires AnglesInRange(angles) && |angles| > MinHoughLines
    requires forall i :: 0 <= i < |angles| ==> BinOf(angles[i]) == b
    ensures Decide(angles).straight && Decide(angles).bin == b
  {
    var counts := Histogram(angles);
    TallyAllInBin(angles, b);
    HistogramTotal(angles);
    var m := MajorityBin(counts);
    assert b < BinCount by {
      assert BinOf(angles[0]) < BinCount;
    }
    assert counts[b] == |angles|;
    assert counts[m] >= |angles|;
    if m != b {
      SumTwo(counts, m, b);
      assert false;
    }
  }

  lemma {:induction false} SumTwo(counts: seq<nat>, i: nat, j: nat)
    requires i < |counts| && j < |counts| && i != j
    ensures SumCounts(counts) >= counts[i] + counts[j]
  {
    var n := |counts| - 1;
    SumAtLeast(counts[..n], i);
    SumAtLeast(counts[..n], j);
    if i < n && j < n {
      SumTwo(counts[..n], i, j);
    }
  }

  lemma {:induction false} SumAtLeast(counts: seq<nat>, i: nat)
    ensures i < |counts| ==> SumCounts(counts) >= counts[i]
  {
    if |counts| > 0 && i < |counts| - 1 {
      SumAtLeast(counts[..|counts| - 1], i);
    }
  }
}
