/** Per-column vertical components of `GetStaffModel` on a curved page: the
    ink runs of every column of the cleaned image, each given by its last
    row and its length. */
module Components {
  import opened Raster
  import opened Runs

  /** `ConnectedComponent` with `y` (the last row) and `n` (the length);
      the column is the index of the list that holds it. */
  datatype Component = Component(end: nat, n: nat)

  /** The component of an ink run `[a, b)` closed by background. */
  function OfRun(r: Run): Component
    requires r.len >= 1
  {
    Component(r.start + r.len - 1, r.len)
  }

  /** The scan from row `a`: a run closed by a polarity change is reported
      when it is ink; the run that reaches the bottom is cut short by the
      forced close at the last row, so it is reported, one row shorter,
      only when it is ink and spans at least two rows. */
  function ComponentsFrom(c: seq<bool>, a: nat): seq<Component>
    requires a <= |c|
    decreases |c| - a
  {
    if a == |c| then []
    else
      var b := RunEnd(c, a);
      if b == |c| then
        if c[a] && a + 2 <= |c| then [Component(|c| - 2, |c| - 1 - a)] else []
      else
        var rest := ComponentsFrom(c, b);
        if c[a] then [Component(b - 1, b - a)] + rest else rest
  }

  /** A component is a block of ink rows at or below row `a` that ends
      before the last row. */
  predicate InkBlock(c: seq<bool>, a: nat, cc: Component)
  {
    && 1 <= cc.n
    && a + cc.n <= cc.end + 1
    && cc.end + 2 <= |c|
    && (forall k :: cc.end + 1 - cc.n <= k <= cc.end ==> c[k])
  }

  /** The blocks come top to bottom without overlapping. */
  predicate TopToBottom(comps: seq<Component>)
  {
    forall i, j :: 0 <= i < j < |comps| ==> comps[i].end < comps[j].end + 1 - comps[j].n
  }

  lemma {:induction false} ComponentsShape(c: seq<bool>, a: nat)
    requires a <= |c|
    ensures forall i :: 0 <= i < |ComponentsFrom(c, a)| ==> InkBlock(c, a, ComponentsFrom(c, a)[i])
    ensures TopToBottom(ComponentsFrom(c, a))
    decreases |c| - a
  {
    if a < |c| && RunEnd(c, a) < |c| {
      var b := RunEnd(c, a);
      ComponentsShape(c, b);
      var rest := ComponentsFrom(c, b);
      assert forall i :: 0 <= i < |rest| ==> InkBlock(c, a, rest[i]);
      if c[a] {
        var head := Component(b - 1, b - a);
        var comps := [head] + rest;
        assert ComponentsFrom(c, a) == comps;
        assert InkBlock(c, a, head);
        assert forall i :: 1 <= i < |comps| ==> comps[i] == rest[i - 1];
        forall i, j | 0 <= i < j < |comps|
          ensures comps[i].end < comps[j].end + 1 - comps[j].n
        {
          assert InkBlock(c, b, rest[j - 1]);
        }
      }
    }
  }

  function ColumnComponents(c: seq<bool>): seq<Component>
  {
    ComponentsFrom(c, 0)
  }

  /** Components of every column of an image. */
  function ImageComponents(img: Grid): (comps: seq<seq<Component>>)
    requires WellFormed(img)
    ensures |comps| == Width(img)
  {
    seq(Width(img), x requires 0 <= x < Width(img) => ColumnComponents(Column(img, x)))
  }

  /** Every run holds at least one row. */
  predicate NonEmptyRuns(runs: seq<Run>)
  {
    forall i :: 0 <= i < |runs| ==> runs[i].len >= 1
  }

  /** The recorded ink runs, as components. */
  function InkComponents(runs: seq<Run>): seq<Component>
    requires NonEmptyRuns(runs)
  {
    if |runs| == 0 then []
    else (if runs[0].ink then [OfRun(runs[0])] else []) + InkComponents(runs[1..])
  }

  /** What the forced close at the last row adds for the bottom run
      starting at `t`. */
  function BottomComponent(c: seq<bool>, t: nat): seq<Component>
    requires t <= |c|
  {
    if t < |c| && c[t] && t + 2 <= |c| then [Component(|c| - 2, |c| - 1 - t)] else []
  }

  /** Every run closed by a polarity change holds at least one row. */
  lemma {:induction false} ClosedRunsNonEmpty(c: seq<bool>, a: nat)
    requires a <= |c|
    ensures NonEmptyRuns(ClosedRunsFrom(c, a))
    decreases |c| - a
  {
    if a < |c| && RunEnd(c, a) < |c| {
      var b := RunEnd(c, a);
      ClosedRunsNonEmpty(c, b);
      var rest := ClosedRunsFrom(c, b);
      assert ClosedRunsFrom(c, a) == [Run(c[a], a, b - a)] + rest;
    }
  }

  /** `InkComponents` of a run followed by more runs. */
  lemma InkComponentsCons(r: Run, rest: seq<Run>)
    requires r.len >= 1 && NonEmptyRuns(rest)
    ensures NonEmptyRuns([r] + rest)
    ensures InkComponents([r] + rest) == (if r.ink then [OfRun(r)] else []) + InkComponents(rest)
  {
    var runs := [r] + rest;
    assert forall i :: 1 <= i < |runs| ==> runs[i] == rest[i - 1];
    assert runs[1..] == rest;
  }

  /** The components are the ink runs the histogram scan records, followed
      by the shortened bottom run when it is ink and at least two rows
      long. */
  lemma {:induction false} ComponentsAreInkRuns(c: seq<bool>, a: nat)
    requires a <= |c|
    ensures NonEmptyRuns(ClosedRunsFrom(c, a))
    ensures ComponentsFrom(c, a) == InkComponents(ClosedRunsFrom(c, a)) + BottomComponent(c, TailFrom(c, a))
    decreases |c| - a
  {
    ClosedRunsNonEmpty(c, a);
    if a < |c| {
      var b := RunEnd(c, a);
      if b < |c| {
        ComponentsAreInkRuns(c, b);
        var rest := ClosedRunsFrom(c, b);
        var r := Run(c[a], a, b - a);
        assert ClosedRunsFrom(c, a) == [r] + rest;
        InkComponentsCons(r, rest);
        assert TailFrom(c, a) == TailFrom(c, b);
        var head: seq<Component> := if c[a] then [Component(b - 1, b - a)] else [];
        assert ComponentsFrom(c, a) == head + ComponentsFrom(c, b);
        assert head + (InkComponents(rest) + BottomComponent(c, TailFrom(c, b)))
            == (head + InkComponents(rest)) + BottomComponent(c, TailFrom(c, b));
      } else {
        assert ClosedRunsFrom(c, a) == [] && TailFrom(c, a) == a;
      }
    }
  }

  /** A column of a single row has no component. */
  lemma SingleRowNoComponents(c: seq<bool>)
    requires |c| == 1
    ensures ColumnComponents(c) == []
  {
  }
}
