/** The per-column orientation of a curved page: every component of a
    column is matched with the nearest component of each of the next five
    columns, and the row offsets per column step are averaged. Columns
    without an estimate keep the sentinel value `rows`. Arithmetic is exact
    (`real`). */
module Orientation {
  import opened Components
  import opened Numeric

  /** `MIN_CONNECTED_COMP`: fewer components leave the column undefined. */
  const MinComponents: nat := 5
  /** `K_NEAREST`: how many following columns are compared. */
  const KNearest: nat := 5

  /** The row a component is compared by: `y - (int)(n / 2)`. */
  function Centre(cc: Component): int
  {
    cc.end - cc.n / 2
  }

  /** The walk over the next column's components: while the end row of the
      candidate is strictly closer than the last stored offset, the offset
      of the centres is stored; the walk stops at the first candidate that
      is not closer. The comparison uses end rows, the stored value centre
      rows. */
  function Nearest(next: seq<Component>, cc: Component, rowDist: int): (d: int)
    ensures d == rowDist || exists i :: 0 <= i < |next| && d == Centre(next[i]) - Centre(cc)
  {
    if |next| == 0 then rowDist
    else if Abs(rowDist) > Abs(next[0].end - cc.end) then
      var d := Nearest(next[1..], cc, Centre(next[0]) - Centre(cc));
      assert d == Centre(next[0]) - Centre(cc) || exists i :: 1 <= i < |next| && d == Centre(next[i]) - Centre(cc) by {
        if d != Centre(next[0]) - Centre(cc) {
          var i :| 0 <= i < |next[1..]| && d == Centre(next[1..][i]) - Centre(cc);
          assert next[1..][i] == next[i + 1];
        }
      }
      d
    else rowDist
  }

  /** The accepted slope samples of component `cc` of column `x` for the
      steps `1..k`: a step whose column lies beyond the image is skipped
      (the loop breaks, and every later step lies beyond too); a step whose
      offset `d` satisfies `|d| <= k` contributes `d / k`. */
  function Samples(comps: seq<seq<Component>>, x: nat, cc: Component, k: nat, rows: nat): (s: seq<real>)
    ensures |s| <= k
    ensures forall i :: 0 <= i < |s| ==> -1.0 <= s[i] <= 1.0
  {
    if k == 0 then []
    else
      var prior := Samples(comps, x, cc, k - 1, rows);
      if x + k >= |comps| then prior
      else
        var d := Nearest(comps[x + k], cc, rows);
        if Abs(d) <= k then
          SlopeBounds(d, k);
          prior + [d as real / k as real]
        else prior
  }

  lemma SlopeBounds(d: int, k: nat)
    requires k > 0 && Abs(d) <= k
    ensures -1.0 <= d as real / k as real <= 1.0
  {
    var kr := k as real;
    assert -kr <= d as real <= kr;
    assert d as real / kr <= kr / kr;
    assert -kr / kr <= d as real / kr;
  }

  function Sum(s: seq<real>): real
  {
    if |s| == 0 then 0.0 else Sum(s[..|s| - 1]) + s[|s| - 1]
  }

  function Mean(s: seq<real>): real
    requires |s| > 0
  {
    Sum(s) / |s| as real
  }

  /** The local averages of the components in `ccs` that gathered at least
      one sample. */
  function LocalAverages(comps: seq<seq<Component>>, x: nat, ccs: seq<Component>, rows: nat): (avgs: seq<real>)
    ensures forall i :: 0 <= i < |avgs| ==> -1.0 <= avgs[i] <= 1.0
  {
    if |ccs| == 0 then []
    else
      var prior := LocalAverages(comps, x, ccs[..|ccs| - 1], rows);
      var s := Samples(comps, x, ccs[|ccs| - 1], KNearest, rows);
      if |s| == 0 then prior
      else
        MeanBounds(s);
        prior + [Mean(s)]
  }

  /** The orientation of column `x`: the mean of the local averages, or the
      sentinel `rows` when the column has too few components or no
      component found a match. */
  function ColumnOrientation(comps: seq<seq<Component>>, x: nat, rows: nat): (r: real)
    requires x < |comps|
    ensures r == rows as real || -1.0 <= r <= 1.0
  {
    if |comps[x]| < MinComponents then rows as real
    else
      var avgs := LocalAverages(comps, x, comps[x], rows);
      if |avgs| == 0 then rows as real
      else
        MeanBounds(avgs);
        Mean(avgs)
  }

  /** `orientations`, one entry per column. */
  function Orientations(comps: seq<seq<Component>>, rows: nat): (o: seq<real>)
    ensures |o| == |comps|
  {
    seq(|comps|, x requires 0 <= x < |comps| => ColumnOrientation(comps, x, rows))
  }

  lemma {:induction false} SumBounds(s: seq<real>)
    requires forall i :: 0 <= i < |s| ==> -1.0 <= s[i] <= 1.0
    ensures -(|s| as real) <= Sum(s) <= |s| as real
  {
    if |s| > 0 {
      SumBounds(s[..|s| - 1]);
    }
  }

  /** The mean of values in `[-1, 1]` stays in `[-1, 1]`. */
  lemma MeanBounds(s: seq<real>)
    requires |s| > 0
    requires forall i :: 0 <= i < |s| ==> -1.0 <= s[i] <= 1.0
    ensures -1.0 <= Mean(s) <= 1.0
  {
    SumBounds(s);
    var n := |s| as real;
    assert Sum(s) / n <= n / n;
    assert -n / n <= Sum(s) / n;
  }

  /** A column with fewer than five components keeps the sentinel. */
  lemma FewComponentsUndefined(comps: seq<seq<Component>>, x: nat, rows: nat)
    requires x < |comps| && |comps[x]| < MinComponents
    ensures Orientations(comps, rows)[x] == rows as real
  {
  }

  lemma {:induction false} NoSamplesAtEdge(comps: seq<seq<Component>>, x: nat, cc: Component, k: nat, rows: nat)
    requires x + 1 == |comps|
    ensures Samples(comps, x, cc, k, rows) == []
  {
    if k > 0 {
      NoSamplesAtEdge(comps, x, cc, k - 1, rows);
    }
  }

  lemma {:induction false} NoAveragesAtEdge(comps: seq<seq<Component>>, x: nat, ccs: seq<Component>, rows: nat)
    requires x + 1 == |comps|
    ensures LocalAverages(comps, x, ccs, rows) == []
  {
    if |ccs| > 0 {
      NoAveragesAtEdge(comps, x, ccs[..|ccs| - 1], rows);
      NoSamplesAtEdge(comps, x, ccs[|ccs| - 1], KNearest, rows);
    }
  }

  /** The last column has no following column to compare with, so it keeps
      the sentinel. */
  lemma LastColumnUndefined(comps: seq<seq<Component>>, rows: nat)
    requires |comps| > 0
    ensures Orientations(comps, rows)[|comps| - 1] == rows as real
  {
    var x := |comps| - 1;
    NoAveragesAtEdge(comps, x, comps[x], rows);
  }

  /** Every defined orientation lies in `[-1, 1]`. */
  lemma OrientationRange(comps: seq<seq<Component>>, rows: nat)
    ensures forall x :: 0 <= x < |comps| ==>
      Orientations(comps, rows)[x] == rows as real || -1.0 <= Orientations(comps, rows)[x] <= 1.0
  {
  }
  /** A component moved `t` rows down. */
  function Lower(cc: Component, t: nat): Component
  {
    Component(cc.end + t, cc.n)
  }

  /** Every component of a column moved `t` rows down. */
  function LowerColumn(col: seq<Component>, t: nat): (r: seq<Component>)
    ensures |r| == |col|
    ensures forall i :: 0 <= i < |col| ==> r[i] == Lower(col[i], t)
  {
    seq(|col|, i requires 0 <= i < |col| => Lower(col[i], t))
  }

  /** Every component of every column moved `t` rows down. */
  function LowerAll(comps: seq<seq<Component>>, t: nat): (r: seq<seq<Component>>)
    ensures |r| == |comps|
    ensures forall x :: 0 <= x < |comps| ==> r[x] == LowerColumn(comps[x], t)
  {
    seq(|comps|, x requires 0 <= x < |comps| => LowerColumn(comps[x], t))
  }

  /** The walk compares and stores only differences of rows, so it finds
      the same offset on a lowered column. */
  lemma {:induction false} NearestLowered(next: seq<Component>, lowered: seq<Component>, cc: Component, t: nat, rowDist: int)
    requires |lowered| == |next|
    requires forall i :: 0 <= i < |next| ==> lowered[i] == Lower(next[i], t)
    ensures Nearest(lowered, Lower(cc, t), rowDist) == Nearest(next, cc, rowDist)
    decreases |next|
  {
    if |next| > 0 {
      assert Centre(lowered[0]) - Centre(Lower(cc, t)) == Centre(next[0]) - Centre(cc);
      NearestLowered(next[1..], lowered[1..], cc, t, Centre(next[0]) - Centre(cc));
    }
  }

  lemma {:induction false} SamplesLowered(comps: seq<seq<Component>>, x: nat, cc: Component, k: nat, rows: nat, t: nat)
    ensures Samples(LowerAll(comps, t), x, Lower(cc, t), k, rows) == Samples(comps, x, cc, k, rows)
  {
    if k > 0 {
      SamplesLowered(comps, x, cc, k - 1, rows, t);
      if x + k < |comps| {
        var col := comps[x + k];
        assert LowerAll(comps, t)[x + k] == LowerColumn(col, t);
        NearestLowered(col, LowerColumn(col, t), cc, t, rows);
      }
    }
  }

  lemma {:induction false} LocalAveragesLowered(comps: seq<seq<Component>>, x: nat, ccs: seq<Component>,
                                                lowered: seq<Component>, rows: nat, t: nat)
    requires |lowered| == |ccs|
    requires forall i :: 0 <= i < |ccs| ==> lowered[i] == Lower(ccs[i], t)
    ensures LocalAverages(LowerAll(comps, t), x, lowered, rows) == LocalAverages(comps, x, ccs, rows)
  {
    if |ccs| > 0 {
      var n := |ccs| - 1;
      LocalAveragesLowered(comps, x, ccs[..n], lowered[..n], rows, t);
      SamplesLowered(comps, x, ccs[n], KNearest, rows, t);
    }
  }

  /** The orientations depend only on the relative rows of the components:
      a page whose ink is moved `t` rows down, with the same sentinel, has
      the same orientation in every column. */
  lemma OrientationsLowered(comps: seq<seq<Component>>, rows: nat, t: nat)
    ensures Orientations(LowerAll(comps, t), rows) == Orientations(comps, rows)
  {
    var lowered := LowerAll(comps, t);
    forall x | 0 <= x < |comps|
      ensures Orientations(lowered, rows)[x] == Orientations(comps, rows)[x]
    {
      assert lowered[x] == LowerColumn(comps[x], t);
      LocalAveragesLowered(comps, x, comps[x], lowered[x], rows, t);
    }
  }
  /** Every value of `s` is `v`. */
  predicate AllAre(s: seq<real>, v: real)
  {
    forall j :: 0 <= j < |s| ==> s[j] == v
  }

  lemma {:induction false} SumConstant(s: seq<real>, v: real)
    requires AllAre(s, v)
    ensures Sum(s) == |s| as real * v
  {
    if |s| > 0 {
      var init := s[..|s| - 1];
      assert AllAre(init, v) by {
        forall j | 0 <= j < |init| ensures init[j] == v { assert init[j] == s[j]; }
      }
      SumConstant(init, v);
      assert |s| as real * v == |init| as real * v + v;
    }
  }

  /** The mean of equal values is that value. */
  lemma MeanConstant(s: seq<real>, v: real)
    requires |s| > 0 && AllAre(s, v)
    ensures Mean(s) == v
  {
    SumConstant(s, v);
    var n := |s| as real;
    assert (n * v) / n == v;
  }

  /** Every component of `ccs` gathers only samples equal to `v`. */
  predicate SamplesAllAre(comps: seq<seq<Component>>, x: nat, ccs: seq<Component>, rows: nat, v: real)
  {
    forall i :: 0 <= i < |ccs| ==> AllAre(Samples(comps, x, ccs[i], KNearest, rows), v)
  }

  /** When every sample is `v`, every local average is `v`, and there is one
      as soon as the component `w` gathered a sample. */
  lemma {:induction false} LocalAveragesConstant(comps: seq<seq<Component>>, x: nat, ccs: seq<Component>, rows: nat,
                                                 v: real, w: nat)
    requires SamplesAllAre(comps, x, ccs, rows, v)
    ensures AllAre(LocalAverages(comps, x, ccs, rows), v)
    ensures w < |ccs| && |Samples(comps, x, ccs[w], KNearest, rows)| > 0 ==> |LocalAverages(comps, x, ccs, rows)| > 0
  {
    if |ccs| > 0 {
      var n := |ccs| - 1;
      var init := ccs[..n];
      assert SamplesAllAre(comps, x, init, rows, v) by {
        forall i | 0 <= i < |init|
          ensures AllAre(Samples(comps, x, init[i], KNearest, rows), v)
        {
          assert init[i] == ccs[i];
        }
      }
      LocalAveragesConstant(comps, x, init, rows, v, w);
      var smp := Samples(comps, x, ccs[n], KNearest, rows);
      assert AllAre(smp, v);
      if |smp| > 0 {
        MeanConstant(smp, v);
      }
      if w < n {
        assert init[w] == ccs[w];
      }
    }
  }

  /** A reference value for the orientation: a column with at least five
      components in which every accepted slope sample is `v`, and some
      component gathered one, has orientation `v`. */
  lemma OrientationOfConstantSlope(comps: seq<seq<Component>>, x: nat, rows: nat, v: real, w: nat)
    requires x < |comps| && |comps[x]| >= MinComponents
    requires SamplesAllAre(comps, x, comps[x], rows, v)
    requires w < |comps[x]| && |Samples(comps, x, comps[x][w], KNearest, rows)| > 0
    ensures Orientations(comps, rows)[x] == v
  {
    LocalAveragesConstant(comps, x, comps[x], rows, v, w);
    MeanConstant(LocalAverages(comps, x, comps[x], rows), v);
  }

  /** One step of a column moved down by `d` rows per column step: the
      nearest component of column `x + k` is the own component moved down
      `d * k` rows, which gives the sample `d`. */
  lemma SampleOfMovedComponent(cc: Component, d: nat, k: nat, rows: nat)
    requires 0 < k && d <= 1 && k <= KNearest < rows
    ensures Nearest([Lower(cc, d * k)], cc, rows) == d * k
    ensures (d * k) as real / k as real == d as real
  {
  }
}
