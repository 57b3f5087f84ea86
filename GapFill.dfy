/**
 * Gap filling of the water-area series (streamlit_app.py line 41):
 * `pd.Series(v).interpolate(method='linear').fillna(0)`.
 *
 * pandas interpolates linearly on positions 0, 1, 2, ... with numpy's `interp`
 * over the known points, and with its default forward limit direction it puts
 * the missing run before the first known value back to missing; `fillna(0)`
 * then turns whatever is still missing into 0.
 */
module GapFill {
  import opened Wrappers

  /** A known sample of the series: its position and its value (numpy's `xp` and `fp`). */
  datatype Knot = Knot(pos: nat, val: real)

  predicate Increasing(ks: seq<Knot>)
  {
    forall p, q :: 0 <= p < q < |ks| ==> ks[p].pos < ks[q].pos
  }

  /** The known positions of `s` with their values, in ascending position order. */
  function Known(s: seq<Option<real>>): (ks: seq<Knot>)
    ensures Increasing(ks)
    ensures forall p :: 0 <= p < |ks| ==> ks[p].pos < |s| && s[ks[p].pos] == Some(ks[p].val)
  {
    if s == [] then []
    else
      var init := Known(s[..|s| - 1]);
      assert forall k :: 0 <= k < |s| - 1 ==> s[k] == s[..|s| - 1][k];
      match s[|s| - 1]
      case None => init
      case Some(v) =>
        init + [Knot(|s| - 1, v)]
  }

  /** Every known position of `s` is one of its knots. */
  lemma {:induction false} KnownHas(s: seq<Option<real>>, k: nat) returns (p: nat)
    requires k < |s| && s[k].Some?
    ensures p < |Known(s)| && Known(s)[p].pos == k
  {
    var init := s[..|s| - 1];
    if k == |s| - 1 {
      p := |Known(init)|;
    } else {
      assert s[k] == init[k];
      p := KnownHas(init, k);
    }
  }

  /** No value is known before the first knot. */
  lemma FirstKnot(s: seq<Option<real>>, j: nat)
    requires j < |s| && s[j].Some?
    ensures |Known(s)| > 0 && Known(s)[0].pos <= j
  {
    var p := KnownHas(s, j);
    assert Known(s)[0].pos <= Known(s)[p].pos;
  }

  /** The straight line through two knots, evaluated at `x`. */
  function Line(a: Knot, b: Knot, x: int): real
    requires a.pos < b.pos
  {
    a.val + (b.val - a.val) * (x - a.pos) as real / (b.pos - a.pos) as real
  }

  /**
   * `numpy.interp(x, xp, fp)`: the first value left of the first knot, the last
   * value right of the last knot, and the line through the two bracketing knots
   * in between.
   */
  function Interp(x: int, ks: seq<Knot>): (r: real)
    requires |ks| > 0 && Increasing(ks)
    ensures x <= ks[0].pos ==> r == ks[0].val
    ensures forall p :: 0 <= p < |ks| && ks[p].pos == x ==> r == ks[p].val
  {
    if |ks| == 1 || x < ks[0].pos then ks[0].val
    else if x < ks[1].pos then Line(ks[0], ks[1], x)
    else Interp(x, ks[1..])
  }

  /**
   * `Series.interpolate(method='linear')` with the default `limit_direction='forward'`:
   * known values stay, the missing run before the first known value stays
   * missing, and every other missing position is interpolated.
   */
  function Interpolate(s: seq<Option<real>>): (r: seq<Option<real>>)
    ensures |r| == |s|
    ensures forall k :: 0 <= k < |s| && s[k].Some? ==> r[k] == s[k]
    ensures forall k :: 0 <= k < |s| ==> (r[k].None? <==> forall j :: 0 <= j <= k ==> s[j].None?)
  {
    var ks := Known(s);
    assert forall j :: 0 <= j < |s| && s[j].Some? ==> |ks| > 0 && ks[0].pos <= j by {
      forall j | 0 <= j < |s| && s[j].Some? ensures |ks| > 0 && ks[0].pos <= j {
        FirstKnot(s, j);
      }
    }
    if |ks| == 0 then
      s
    else
      var first := ks[0].pos;
      seq(|s|, k requires 0 <= k < |s| =>
        if s[k].Some? then s[k] else if k < first then None else Some(Interp(k, ks)))
  }

  /** `fillna(v)`: every missing position becomes `v`. */
  function FillNa(s: seq<Option<real>>, v: real): (r: seq<real>)
    ensures |r| == |s|
  {
    seq(|s|, k requires 0 <= k < |s| => match s[k] case Some(x) => x case None => v)
  }

  /** Line 41: interpolate, then fill what is left with 0. */
  function FillGaps(s: seq<Option<real>>): (r: seq<real>)
    ensures |r| == |s|
  {
    FillNa(Interpolate(s), 0.0)
  }

  /** What line 41 leaves at a missing position that has a known value before it. */
  lemma FillGapsInterpolated(s: seq<Option<real>>, k: nat, i: nat)
    requires i < k < |s| && s[i].Some? && s[k].None?
    ensures |Known(s)| > 0 && FillGaps(s)[k] == Interp(k, Known(s))
  {
    FirstKnot(s, i);
  }

  lemma LineFormula(a: real, b: real, i: nat, k: nat, j: nat, v: real)
    requires i < j && v == Line(Knot(i, a), Knot(j, b), k)
    ensures v == a + (b - a) * (k - i) as real / (j - i) as real
  {
  }

  /** A point of the line between two knots lies between their values. */
  lemma LineBetween(a: Knot, b: Knot, x: int)
    requires a.pos <= x <= b.pos && a.pos < b.pos
    ensures a.val <= b.val ==> a.val <= Line(a, b, x) <= b.val
    ensures b.val <= a.val ==> b.val <= Line(a, b, x) <= a.val
  {
    var d := (b.pos - a.pos) as real;
    var e := (x - a.pos) as real;
    var diff := b.val - a.val;
    assert Line(a, b, x) == a.val + diff * e / d;
    ScaledBetween(diff, e, d);
  }

  /** For 0 <= e <= d, the fraction e/d of `diff` lies between 0 and `diff`. */
  lemma ScaledBetween(diff: real, e: real, d: real)
    requires 0.0 <= e <= d && 0.0 < d
    ensures diff >= 0.0 ==> 0.0 <= diff * e / d <= diff
    ensures diff <= 0.0 ==> diff <= diff * e / d <= 0.0
  {
    var t := e / d;
    assert 0.0 <= t <= 1.0;
    assert diff * e / d == diff * t;
    var u := if diff >= 0.0 then diff else -diff;
    MulNonNegative(u, t);
    MulNonNegative(u, 1.0 - t);
  }

  lemma MulNonNegative(x: real, y: real)
    requires 0.0 <= x && 0.0 <= y
    ensures 0.0 <= x * y
  {
  }

  /** Between two consecutive knots numpy's `interp` is the line through them. */
  lemma {:induction false} InterpBetween(x: int, ks: seq<Knot>, p: nat)
    requires Increasing(ks) && p + 1 < |ks|
    requires ks[p].pos <= x < ks[p + 1].pos
    ensures Interp(x, ks) == Line(ks[p], ks[p + 1], x)
  {
    if p > 0 {
      assert ks[1].pos <= ks[p].pos;
      InterpBetween(x, ks[1..], p - 1);
    }
  }

  /** At or beyond the last knot numpy's `interp` is the last value. */
  lemma {:induction false} InterpBeyond(x: int, ks: seq<Knot>)
    requires |ks| > 0 && Increasing(ks)
    requires ks[|ks| - 1].pos <= x
    ensures Interp(x, ks) == ks[|ks| - 1].val
  {
    if |ks| > 1 {
      assert ks[1].pos <= ks[|ks| - 1].pos;
      InterpBeyond(x, ks[1..]);
    }
  }

  /** Two known positions with only missing ones between them are consecutive knots. */
  lemma AdjacentKnots(s: seq<Option<real>>, i: nat, j: nat) returns (p: nat)
    requires i < j < |s| && s[i].Some? && s[j].Some?
    requires forall m :: i < m < j ==> s[m].None?
    ensures p + 1 < |Known(s)|
    ensures Known(s)[p] == Knot(i, s[i].value) && Known(s)[p + 1] == Knot(j, s[j].value)
  {
    var ks := Known(s);
    p := KnownHas(s, i);
    var q := KnownHas(s, j);
    assert p < q;
    assert ks[p + 1].pos <= ks[q].pos;
    assert i < ks[p + 1].pos && s[ks[p + 1].pos].Some?;
    assert ks[p + 1].pos == j;
  }

  /** A known position is the last knot when everything after it is missing. */
  lemma LastKnot(s: seq<Option<real>>, i: nat)
    requires i < |s| && s[i].Some?
    requires forall m :: i < m < |s| ==> s[m].None?
    ensures |Known(s)| > 0 && Known(s)[|Known(s)| - 1] == Knot(i, s[i].value)
  {
    var ks := Known(s);
    var p := KnownHas(s, i);
    var last := |ks| - 1;
    assert ks[p].pos <= ks[last].pos;
    assert s[ks[last].pos].Some?;
    assert ks[last].pos == i;
  }

  /** Values that were already known come out unchanged. */
  lemma KnownValuesKept(s: seq<Option<real>>, k: nat)
    requires k < |s| && s[k].Some?
    ensures FillGaps(s)[k] == s[k].value
  {
  }

  /** A missing position with no known value before it (a leading run) becomes 0. */
  lemma LeadingRunIsZero(s: seq<Option<real>>, k: nat)
    requires k < |s|
    requires forall j :: 0 <= j <= k ==> s[j].None?
    ensures FillGaps(s)[k] == 0.0
  {
  }

  /** An all-missing series becomes all zeros. */
  lemma AllMissingIsZero(s: seq<Option<real>>)
    requires forall k :: 0 <= k < |s| ==> s[k].None?
    ensures forall k :: 0 <= k < |s| ==> FillGaps(s)[k] == 0.0
  {
  }

  /** A missing position between consecutive known positions lies on the line through them. */
  lemma GapOnLine(s: seq<Option<real>>, i: nat, k: nat, j: nat)
    requires i < k < j < |s| && s[i].Some? && s[j].Some?
    requires forall m :: i < m < j ==> s[m].None?
    ensures FillGaps(s)[k] == Line(Knot(i, s[i].value), Knot(j, s[j].value), k)
  {
    var ks := Known(s);
    var p := AdjacentKnots(s, i, j);
    FillGapsInterpolated(s, k, i);
    InterpBetween(k, ks, p);
  }

  /**
   * A missing position k between its nearest known neighbours i (value a) and
   * j (value b) gets a + (b - a)(k - i)/(j - i).
   */
  lemma InteriorGap(s: seq<Option<real>>, i: nat, k: nat, j: nat, a: real, b: real)
    requires i < k < j < |s| && s[i] == Some(a) && s[j] == Some(b)
    requires forall m :: i < m < j ==> s[m].None?
    ensures FillGaps(s)[k] == a + (b - a) * (k - i) as real / (j - i) as real
  {
    GapOnLine(s, i, k, j);
    LineFormula(a, b, i, k, j, FillGaps(s)[k]);
  }

  /** So an interpolated value lies between its two neighbours. */
  lemma InteriorGapBetween(s: seq<Option<real>>, i: nat, k: nat, j: nat)
    requires i < k < j < |s| && s[i].Some? && s[j].Some?
    requires forall m :: i < m < j ==> s[m].None?
    ensures s[i].value <= s[j].value ==> s[i].value <= FillGaps(s)[k] <= s[j].value
    ensures s[j].value <= s[i].value ==> s[j].value <= FillGaps(s)[k] <= s[i].value
  {
    GapOnLine(s, i, k, j);
    LineBetween(Knot(i, s[i].value), Knot(j, s[j].value), k);
  }

  /** A missing position after the last known value takes that value. */
  lemma TrailingRunKeepsLast(s: seq<Option<real>>, i: nat, k: nat)
    requires i < k < |s| && s[i].Some?
    requires forall m :: i < m < |s| ==> s[m].None?
    ensures FillGaps(s)[k] == s[i].value
  {
    var ks := Known(s);
    LastKnot(s, i);
    var last := ks[|ks| - 1];
    assert last.pos == i && last.val == s[i].value;
    assert s[k].None?;
    FillGapsInterpolated(s, k, i);
    InterpBeyond(k, ks);
  }

  /**
   * The rules line 41 follows, position by position: known values stay, a
   * leading run becomes 0, a gap between two known values lies on the line
   * through them, and a trailing run repeats the last known value.
   */
  ghost predicate FilledAsPandas(s: seq<Option<real>>, r: seq<real>)
  {
    && |r| == |s|
    && (forall k :: 0 <= k < |s| && s[k].Some? ==> r[k] == s[k].value)
    && (forall k :: 0 <= k < |s| && (forall j :: 0 <= j <= k ==> s[j].None?) ==> r[k] == 0.0)
    && (forall i, k, j :: 0 <= i < k < j < |s| && s[i].Some? && s[j].Some? && NoneBetween(s, i, j) ==>
          r[k] == Line(Knot(i, s[i].value), Knot(j, s[j].value), k))
    && (forall i, k :: 0 <= i < k < |s| && s[i].Some? && NoneBetween(s, i, |s|) ==> r[k] == s[i].value)
  }

  /** Every position strictly between `i` and `j` is missing. */
  predicate NoneBetween(s: seq<Option<real>>, i: nat, j: nat)
    requires j <= |s|
  {
    forall m :: i < m < j ==> s[m].None?
  }

  /** Line 41 follows those rules. */
  lemma FillGapsFollowsRules(s: seq<Option<real>>)
    ensures FilledAsPandas(s, FillGaps(s))
  {
    forall i, k, j | 0 <= i < k < j < |s| && s[i].Some? && s[j].Some? && NoneBetween(s, i, j)
      ensures FillGaps(s)[k] == Line(Knot(i, s[i].value), Knot(j, s[j].value), k)
    {
      GapOnLine(s, i, k, j);
    }
    forall i, k | 0 <= i < k < |s| && s[i].Some? && NoneBetween(s, i, |s|)
      ensures FillGaps(s)[k] == s[i].value
    {
      TrailingRunKeepsLast(s, i, k);
    }
  }

  /** The nearest known position at or before `k`. */
  lemma {:induction false} LastKnownUpTo(s: seq<Option<real>>, k: nat, j0: nat) returns (i: nat)
    requires j0 <= k < |s| && s[j0].Some?
    ensures j0 <= i <= k && s[i].Some?
    ensures forall m :: i < m <= k ==> s[m].None?
  {
    if s[k].Some? {
      i := k;
    } else {
      i := LastKnownUpTo(s, k - 1, j0);
    }
  }

  /** The nearest known position at or after `k`. */
  lemma {:induction false} FirstKnownFrom(s: seq<Option<real>>, k: nat, j0: nat) returns (j: nat)
    requires k <= j0 < |s| && s[j0].Some?
    ensures k <= j <= j0 && s[j].Some?
    ensures forall m :: k <= m < j ==> s[m].None?
    decreases j0 - k
  {
    if s[k].Some? {
      j := k;
    } else {
      j := FirstKnownFrom(s, k + 1, j0);
    }
  }

  /** The rules fix the value at each position. */
  lemma RulesAgreeAt(s: seq<Option<real>>, r1: seq<real>, r2: seq<real>, k: nat)
    requires FilledAsPandas(s, r1) && FilledAsPandas(s, r2) && k < |s|
    ensures r1[k] == r2[k]
  {
    if s[k].None? && exists j0 :: 0 <= j0 <= k && s[j0].Some? {
      var j0 :| 0 <= j0 <= k && s[j0].Some?;
      var i := LastKnownUpTo(s, k, j0);
      if exists j1 :: k < j1 < |s| && s[j1].Some? {
        var j1 :| k < j1 < |s| && s[j1].Some?;
        var j := FirstKnownFrom(s, k + 1, j1);
        assert NoneBetween(s, i, j);
      } else {
        assert NoneBetween(s, i, |s|);
      }
    }
  }

  /** The rules leave no choice: at most one series follows them. */
  lemma RulesDetermineResult(s: seq<Option<real>>, r1: seq<real>, r2: seq<real>)
    requires FilledAsPandas(s, r1) && FilledAsPandas(s, r2)
    ensures r1 == r2
  {
    forall k | 0 <= k < |s|
      ensures r1[k] == r2[k]
    {
      RulesAgreeAt(s, r1, r2, k);
    }
  }

  /** So the rules are a complete description of line 41. */
  lemma FillGapsIsTheRules(s: seq<Option<real>>, r: seq<real>)
    ensures FilledAsPandas(s, r) <==> r == FillGaps(s)
  {
    FillGapsFollowsRules(s);
    if FilledAsPandas(s, r) {
      RulesDetermineResult(s, r, FillGaps(s));
    }
  }

  lemma InterpolationExample()
    ensures FillGaps([Some(1.0), None, Some(3.0)]) == [1.0, 2.0, 3.0]
  {
    var s := [Some(1.0), None, Some(3.0)];
    InteriorGap(s, 0, 1, 2, 1.0, 3.0);
    KnownValuesKept(s, 0);
    KnownValuesKept(s, 2);
  }

  lemma LeadingRunExample()
    ensures FillGaps([None, None, Some(5.0)]) == [0.0, 0.0, 5.0]
  {
    var s := [None, None, Some(5.0)];
    LeadingRunIsZero(s, 0);
    LeadingRunIsZero(s, 1);
    KnownValuesKept(s, 2);
  }

  lemma TrailingRunExample()
    ensures FillGaps([Some(1.0), None]) == [1.0, 1.0]
  {
    var s := [Some(1.0), None];
    KnownValuesKept(s, 0);
    TrailingRunKeepsLast(s, 0, 1);
  }
}
