/** Gap filling of the orientations: runs of sentinel entries (`S`, the
    number of rows) are replaced by a ramp between the last value seen and
    the value that closes the gap. The walk keeps the source's quirks: the
    ramp is reversed (the first gap entry gets the closing value), and the
    entry that closes a gap is skipped by the `for` increment, so it never
    becomes the `prev` of the next gap, and a trailing gap uses the `next`
    left over from an earlier gap. */
module Interpolation {
  /** First index at or after `i` that holds a defined value, or `|o|`. */
  function NextDefined(o: seq<real>, s: real, i: nat): (b: nat)
    requires i <= |o|
    ensures i <= b <= |o|
    ensures forall k :: i <= k < b ==> o[k] == s
    ensures b < |o| ==> o[b] != s
    decreases |o| - i
  {
    if i == |o| || o[i] != s then i else NextDefined(o, s, i + 1)
  }

  /** The two ends of a gap after the one-sided copy: a missing side takes
      the value of the other side. */
  datatype Ends = Ends(prev: real, next: real)

  function Adjust(prev: real, next: real, s: real): (e: Ends)
    ensures prev != s ==> e.prev == prev
    ensures prev == s ==> e.prev == next
    ensures e.next == if prev != s && next == s then prev else next
  {
    if prev == s && next != s then Ends(next, next)
    else if prev != s && next == s then Ends(prev, prev)
    else Ends(prev, next)
  }

  /** `prev + (i - j) * delta`: the value written at index `j` of a gap
      closed at `b`. */
  function RampAt(prev: real, delta: real, b: nat, j: nat): real
  {
    prev + (b - j) as real * delta
  }

  /** The ramp over the gap `[a, b)`. */
  function Ramp(a: nat, b: nat, prev: real, delta: real): (r: seq<real>)
    requires a <= b
    ensures |r| == b - a
  {
    seq(b - a, k requires 0 <= k < b - a => RampAt(prev, delta, b, a + k))
  }

  /** The ends of the gap that starts at `i`, after the one-sided copy. */
  function GapEnds(o: seq<real>, s: real, i: nat, prev: real, next: real): Ends
    requires i <= |o|
  {
    var b := NextDefined(o, s, i);
    Adjust(prev, if b < |o| then o[b] else next, s)
  }

  /** The values written into the gap that starts at `i`. */
  function GapBlock(o: seq<real>, s: real, i: nat, prev: real, next: real): (r: seq<real>)
    requires i < |o| && o[i] == s
    ensures |r| == NextDefined(o, s, i) - i
  {
    var b := NextDefined(o, s, i);
    var e := GapEnds(o, s, i, prev, next);
    Ramp(i, b, e.prev, (e.next - e.prev) / (b - i) as real)
  }

  /** The output from index `i` on, with `prev` and `next` the values the
      loop carries when it reaches `i`. */
  function Fill(o: seq<real>, s: real, i: nat, prev: real, next: real): (r: seq<real>)
    requires i <= |o|
    ensures |r| == |o| - i
    decreases |o| - i
  {
    if i == |o| then []
    else if o[i] != s then [o[i]] + Fill(o, s, i + 1, o[i], next)
    else
      var b := NextDefined(o, s, i);
      var e := GapEnds(o, s, i, prev, next);
      var gap := GapBlock(o, s, i, prev, next);
      if b < |o| then gap + [o[b]] + Fill(o, s, b + 1, e.prev, e.next) else gap
  }

  /** The interpolation loop over the whole sequence; both carried values
      start at the sentinel. Length is preserved and no defined entry
      changes. */
  function Interpolate(o: seq<real>, s: real): (r: seq<real>)
    ensures |r| == |o|
    ensures forall j :: 0 <= j < |o| && o[j] != s ==> r[j] == o[j]
  {
    FillKeepsDefined(o, s, 0, s, s);
    Fill(o, s, 0, s, s)
  }

  lemma RampConstant(a: nat, b: nat, prev: real)
    requires a <= b
    ensures forall j :: 0 <= j < b - a ==> Ramp(a, b, prev, 0.0)[j] == prev
  {
    forall j | 0 <= j < b - a
      ensures Ramp(a, b, prev, 0.0)[j] == prev
    {
      assert Ramp(a, b, prev, 0.0)[j] == RampAt(prev, 0.0, b, a + j);
    }
  }

  /** Defined entries are never changed. */
  lemma {:induction false} FillKeepsDefined(o: seq<real>, s: real, i: nat, prev: real, next: real)
    requires i <= |o|
    ensures forall j :: i <= j < |o| && o[j] != s ==> Fill(o, s, i, prev, next)[j - i] == o[j]
    decreases |o| - i
  {
    if i < |o| {
      var r := Fill(o, s, i, prev, next);
      if o[i] != s {
        FillKeepsDefined(o, s, i + 1, o[i], next);
        assert forall k :: 1 <= k < |r| ==> r[k] == Fill(o, s, i + 1, o[i], next)[k - 1];
      } else {
        var b := NextDefined(o, s, i);
        if b < |o| {
          var e := GapEnds(o, s, i, prev, next);
          var rest := Fill(o, s, b + 1, e.prev, e.next);
          FillKeepsDefined(o, s, b + 1, e.prev, e.next);
          var gap := GapBlock(o, s, i, prev, next);
          assert r == gap + [o[b]] + rest;
          assert forall k :: b - i < k < |r| ==> r[k] == rest[k - (b - i) - 1];
        }
      }
    }
  }

  /** A sequence of sentinels stays as it is. */
  lemma AllUndefinedUnchanged(o: seq<real>, s: real)
    requires forall k :: 0 <= k < |o| ==> o[k] == s
    ensures Interpolate(o, s) == o
  {
    if |o| > 0 {
      assert NextDefined(o, s, 0) == |o|;
      RampConstant(0, |o|, s);
    }
  }

  lemma {:induction false} ConstantTail(o: seq<real>, s: real, i: nat, v: real)
    requires i <= |o| && v != s
    requires forall k :: i <= k < |o| ==> o[k] == s
    ensures Fill(o, s, i, v, v) == seq(|o| - i, j => v)
  {
    if i < |o| {
      assert NextDefined(o, s, i) == |o|;
      RampConstant(i, |o|, v);
    }
  }

  /** A single defined value spreads over the whole sequence. */
  lemma SingleValueSpreads(o: seq<real>, s: real, d: nat)
    requires d < |o| && o[d] != s
    requires forall k :: 0 <= k < |o| && k != d ==> o[k] == s
    ensures Interpolate(o, s) == seq(|o|, j => o[d])
  {
    var v := o[d];
    ConstantTail(o, s, d + 1, v);
    if d == 0 {
      assert Interpolate(o, s) == [v] + Fill(o, s, 1, v, s);
      if |o| > 1 {
        assert NextDefined(o, s, 1) == |o|;
        RampConstant(1, |o|, v);
      }
    } else {
      assert NextDefined(o, s, 0) == d;
      RampConstant(0, d, v);
      assert Interpolate(o, s) == Ramp(0, d, v, 0.0) + [v] + Fill(o, s, d + 1, v, v);
    }
  }

  /** One step of the walk over a defined entry. */
  lemma FillDefinedStep(o: seq<real>, s: real, i: nat, prev: real, next: real)
    requires i < |o| && o[i] != s
    ensures Fill(o, s, i, prev, next) == [o[i]] + Fill(o, s, i + 1, o[i], next)
  {
  }

  /** One step of the walk over an inner gap. */
  lemma FillGapStep(o: seq<real>, s: real, i: nat, prev: real, next: real)
    requires i < |o| && o[i] == s && NextDefined(o, s, i) < |o|
    ensures var b := NextDefined(o, s, i);
      var e := GapEnds(o, s, i, prev, next);
      Fill(o, s, i, prev, next) == GapBlock(o, s, i, prev, next) + [o[b]] + Fill(o, s, b + 1, e.prev, e.next)
  {
  }

  /** A suffix of `x + y` that starts inside `y` is a suffix of `y`. */
  lemma DropPrefix(w: seq<real>, x: seq<real>, y: seq<real>, t: seq<real>, k: nat, m: nat)
    requires w == x + y && k <= |y| && m == |x| + k && y[k..] == t
    ensures m <= |w| && w[m..] == t
  {
    assert (x + y)[m..] == y[k..];
  }

  /** The walk reaches every defined entry that does not close a gap, so the
      output from there on is a fresh walk from that entry. */
  lemma {:induction false} FillReaches(o: seq<real>, s: real, a: nat, prev: real, next: real, i: nat)
      returns (p: real, n: real)
    requires a <= i < |o| && o[i] != s
    requires i == a || o[i - 1] != s
    ensures Fill(o, s, a, prev, next)[i - a..] == Fill(o, s, i, p, n)
    decreases i - a
  {
    if i == a {
      p, n := prev, next;
    } else if o[a] != s {
      p, n := ReachDefined(o, s, a, prev, next, i);
    } else {
      p, n := ReachGap(o, s, a, prev, next, i);
    }
  }

  lemma {:induction false} ReachDefined(o: seq<real>, s: real, a: nat, prev: real, next: real, i: nat)
      returns (p: real, n: real)
    requires a < i < |o| && o[i] != s && o[i - 1] != s && o[a] != s
    ensures Fill(o, s, a, prev, next)[i - a..] == Fill(o, s, i, p, n)
    decreases i - a, 0
  {
    var rest := Fill(o, s, a + 1, o[a], next);
    FillDefinedStep(o, s, a, prev, next);
    p, n := FillReaches(o, s, a + 1, o[a], next, i);
    DropPrefix(Fill(o, s, a, prev, next), [o[a]], rest, Fill(o, s, i, p, n), i - a - 1, i - a);
  }

  lemma {:induction false} ReachGap(o: seq<real>, s: real, a: nat, prev: real, next: real, i: nat)
      returns (p: real, n: real)
    requires a < i < |o| && o[i] != s && o[i - 1] != s && o[a] == s
    ensures Fill(o, s, a, prev, next)[i - a..] == Fill(o, s, i, p, n)
    decreases i - a, 0
  {
    var b := NextDefined(o, s, a);
    assert b < i by {
      assert o[i - 1] != s;
    }
    var e := GapEnds(o, s, a, prev, next);
    var gap := GapBlock(o, s, a, prev, next);
    var rest := Fill(o, s, b + 1, e.prev, e.next);
    FillGapStep(o, s, a, prev, next);
    p, n := FillReaches(o, s, b + 1, e.prev, e.next, i);
    DropPrefix(Fill(o, s, a, prev, next), gap + [o[b]], rest, Fill(o, s, i, p, n), i - b - 1, i - a);
  }

  lemma {:induction false} NextDefinedAt(o: seq<real>, s: real, a: nat, b: nat)
    requires a <= b < |o| && o[b] != s
    requires forall k :: a <= k < b ==> o[k] == s
    ensures NextDefined(o, s, a) == b
    decreases b - a
  {
    if a < b {
      NextDefinedAt(o, s, a + 1, b);
    }
  }

  /** The reversed ramp starts at `next`. */
  lemma RampStartsAtNext(prev: real, next: real, a: nat, b: nat)
    requires a < b
    ensures RampAt(prev, (next - prev) / (b - a) as real, b, a) == next
  {
    var l := (b - a) as real;
    assert l * ((next - prev) / l) == next - prev;
  }

  /** The gap right after a visited defined entry `prev`. */
  lemma GapAfterDefined(o: seq<real>, s: real, a: nat, b: nat, prev: real, n: real)
    requires a < b < |o| && prev != s
    requires forall k :: a <= k < b ==> o[k] == s
    requires o[b] != s
    ensures forall k :: 0 <= k < b - a ==>
      Fill(o, s, a, prev, n)[k] == RampAt(prev, (o[b] - prev) / (b - a) as real, b, a + k)
  {
    NextDefinedAt(o, s, a, b);
    var delta := (o[b] - prev) / (b - a) as real;
    var e := GapEnds(o, s, a, prev, n);
    assert e == Ends(prev, o[b]);
    var gap := GapBlock(o, s, a, prev, n);
    assert gap == Ramp(a, b, prev, delta);
    var r := Fill(o, s, a, prev, n);
    assert r == gap + [o[b]] + Fill(o, s, b + 1, e.prev, e.next);
    forall k | 0 <= k < b - a
      ensures r[k] == RampAt(prev, delta, b, a + k)
    {
      assert r[k] == gap[k];
    }
  }

  /** A gap `[a, b)` preceded by an entry the walk visits and closed by a
      defined entry is filled with `prev + (b - j) * (next - prev) / (b - a)`,
      where `prev` is the entry before the gap and `next` the one after it;
      in particular the first gap entry gets `next`. */
  lemma GapFill(o: seq<real>, s: real, a: nat, b: nat)
    requires 1 <= a < b < |o|
    requires o[a - 1] != s && (a == 1 || o[a - 2] != s)
    requires forall k :: a <= k < b ==> o[k] == s
    requires o[b] != s
    ensures forall j :: a <= j < b ==>
      Interpolate(o, s)[j] == RampAt(o[a - 1], (o[b] - o[a - 1]) / (b - a) as real, b, j)
    ensures Interpolate(o, s)[a] == o[b]
  {
    var p, n := FillReaches(o, s, 0, s, s, a - 1);
    GapInOutput(o, s, a, b, Interpolate(o, s), p, n);
  }

  /** The gap as it appears in an output whose tail from the entry before
      the gap is a walk from that entry. */
  lemma GapInOutput(o: seq<real>, s: real, a: nat, b: nat, out: seq<real>, p: real, n: real)
    requires 1 <= a < b < |o| && |out| == |o|
    requires o[a - 1] != s
    requires forall k :: a <= k < b ==> o[k] == s
    requires o[b] != s
    requires out[a - 1..] == Fill(o, s, a - 1, p, n)
    ensures forall j :: a <= j < b ==>
      out[j] == RampAt(o[a - 1], (o[b] - o[a - 1]) / (b - a) as real, b, j)
    ensures out[a] == o[b]
  {
    var prev := o[a - 1];
    var delta := (o[b] - prev) / (b - a) as real;
    var r := Fill(o, s, a, prev, n);
    assert Fill(o, s, a - 1, p, n) == [prev] + r;
    assert out[a..] == r;
    GapAfterDefined(o, s, a, b, prev, n);
    forall j | a <= j < b
      ensures out[j] == RampAt(prev, delta, b, j)
    {
      assert out[j] == r[j - a];
    }
    RampStartsAtNext(prev, o[b], a, b);
  }

  /** The entry closing a gap is skipped, so the next gap ramps from the
      stale `prev`: in `[1, S, 4, S, S, 6]` the second gap ramps from 1, not
      from 4, and gets `[6, 3.5]` where a fresh `prev` would give `[6, 5]`. */
  lemma StalePrevExample()
    ensures Interpolate([1.0, 9.0, 4.0, 9.0, 9.0, 6.0], 9.0) == [1.0, 4.0, 4.0, 6.0, 3.5, 6.0]
  {
    var o := [1.0, 9.0, 4.0, 9.0, 9.0, 6.0];
    assert NextDefined(o, 9.0, 1) == 2;
    assert NextDefined(o, 9.0, 3) == 5;
    assert Fill(o, 9.0, 6, 1.0, 6.0) == [];
    assert Fill(o, 9.0, 3, 1.0, 4.0) == [6.0, 3.5] + [6.0];
    assert Fill(o, 9.0, 1, 1.0, 9.0) == [4.0] + [4.0] + Fill(o, 9.0, 3, 1.0, 4.0);
  }

  /** A trailing gap after an earlier gap uses the `next` that gap left
      behind: in `[0, S, 5, 7, S, S]` the trailing gap ramps from 7 towards
      the stale 5 instead of copying 7. */
  lemma StaleNextExample()
    ensures Interpolate([0.0, 9.0, 5.0, 7.0, 9.0, 9.0], 9.0) == [0.0, 5.0, 5.0, 7.0, 5.0, 6.0]
  {
    var o := [0.0, 9.0, 5.0, 7.0, 9.0, 9.0];
    assert NextDefined(o, 9.0, 1) == 2;
    assert NextDefined(o, 9.0, 4) == 6;
    assert Fill(o, 9.0, 4, 7.0, 5.0) == [5.0, 6.0];
    assert Fill(o, 9.0, 3, 0.0, 5.0) == [7.0] + Fill(o, 9.0, 4, 7.0, 5.0);
    assert Fill(o, 9.0, 1, 0.0, 9.0) == [5.0] + [5.0] + Fill(o, 9.0, 3, 0.0, 5.0);
  }
}
