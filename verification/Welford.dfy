/**
 Online averages and squared deviations over the reals, for one name: what they are when the
 name is in every update of the window, and exactly when they are right otherwise.
 */
module Welford {
  import opened Prelude

  function Sum(xs: seq<real>): real {
    if xs == [] then 0.0 else Sum(xs[..|xs| - 1]) + xs[|xs| - 1]
  }

  function SumSquares(xs: seq<real>): real {
    if xs == [] then 0.0 else SumSquares(xs[..|xs| - 1]) + xs[|xs| - 1] * xs[|xs| - 1]
  }

  /** The sum of the squared deviations from m. */
  function SquaredDeviations(xs: seq<real>, m: real): real {
    if xs == [] then 0.0
    else SquaredDeviations(xs[..|xs| - 1], m) + (xs[|xs| - 1] - m) * (xs[|xs| - 1] - m)
  }

  lemma SquareOfDifference(x: real, m: real)
    ensures (x - m) * (x - m) == x * x - 2.0 * (m * x) + m * m
  {
  }

  /** The squared deviations, by the sums of the values and of their squares. */
  function Expansion(squares: real, sum: real, n: real, m: real): real {
    squares - 2.0 * (m * sum) + (m * m) * n
  }

  lemma ExpandStep(squares: real, sum: real, n: real, x: real, m: real)
    ensures Expansion(squares, sum, n, m) + (x - m) * (x - m) == Expansion(squares + x * x, sum + x, n + 1.0, m)
  {
    SquareOfDifference(x, m);
  }

  lemma SumsStep(xs: seq<real>, x: real, m: real)
    ensures Sum(xs + [x]) == Sum(xs) + x && SumSquares(xs + [x]) == SumSquares(xs) + x * x
    ensures SquaredDeviations(xs + [x], m) == SquaredDeviations(xs, m) + (x - m) * (x - m)
    ensures |xs + [x]| as real == |xs| as real + 1.0
  {
    assert (xs + [x])[..|xs|] == xs;
  }

  lemma {:induction false} DeviationsExpand(xs: seq<real>, m: real)
    ensures SquaredDeviations(xs, m) == Expansion(SumSquares(xs), Sum(xs), |xs| as real, m)
  {
    if xs == [] {
      assert SquaredDeviations(xs, m) == 0.0 && SumSquares(xs) == 0.0 && Sum(xs) == 0.0;
    } else {
      var ys, x := xs[..|xs| - 1], xs[|xs| - 1];
      DeviationsExpand(ys, m);
      ExpandStep(SumSquares(ys), Sum(ys), |ys| as real, x, m);
      SumsStep(ys, x, m);
      assert xs == ys + [x];
    }
  }

  lemma {:induction false} DeviationsNonNegative(xs: seq<real>, m: real)
    ensures SquaredDeviations(xs, m) >= 0.0
  {
    if xs == [] {
    } else {
      DeviationsNonNegative(xs[..|xs| - 1], m);
      SquareNonNegative(xs[|xs| - 1] - m);
    }
  }

  lemma SquareNonNegative(x: real)
    ensures x * x >= 0.0
  {
    if x < 0.0 { assert (-x) * (-x) >= 0.0; }
  }

  /** n times the mean is the sum, and q is the sum of squares less n times the squared mean. */
  ghost predicate Welford(xs: seq<real>, mean: real, q: real) {
    && (|xs| as real) * mean == Sum(xs)
    && q + (|xs| as real) * (mean * mean) == SumSquares(xs)
  }

  /** The new average of a name in the n-th update. */
  function NextAverage(avg: real, n: nat, v: real): real
    requires n > 0
  {
    avg + (v - avg) / (n as real)
  }

  /** The new sum of squared deviations, after the average has moved from prev to next. */
  function NextSquares(q: real, prev: real, next: real, v: real): real {
    q + (v - prev) * (v - next)
  }

  lemma MeanStep(n: real, mean: real, x: real) returns (next: real)
    requires n >= 0.0
    ensures next == mean + (x - mean) / (n + 1.0)
    ensures (n + 1.0) * next == n * mean + x
  {
    next := mean + (x - mean) / (n + 1.0);
    assert (n + 1.0) * ((x - mean) / (n + 1.0)) == x - mean;
  }

  lemma QStep(n: real, a: real, b: real, x: real)
    requires (n + 1.0) * b == n * a + x
    ensures (x - a) * (x - b) + (n + 1.0) * (b * b) == n * (a * a) + x * x
  {
    assert (x - a) * (x - b) == x * x - x * b - a * x + a * b;
    assert (n + 1.0) * (b * b) == ((n + 1.0) * b) * b == (n * a + x) * b == n * a * b + x * b;
    assert (n + 1.0) * b * a == (n * a + x) * a == n * (a * a) + x * a;
    assert (n + 1.0) * b * a == n * a * b + a * b;
  }

  lemma WelfordAlgebra(n: real, mean: real, q: real, sum: real, squares: real, x: real, next: real)
    requires n >= 0.0 && n * mean == sum && q + n * (mean * mean) == squares
    requires next == mean + (x - mean) / (n + 1.0)
    ensures (n + 1.0) * next == sum + x
    ensures q + (x - mean) * (x - next) + (n + 1.0) * (next * next) == squares + x * x
  {
    var next' := MeanStep(n, mean, x);
    QStep(n, mean, next, x);
  }

  /** One update of the online formulas keeps them exact. */
  lemma WelfordStep(xs: seq<real>, mean: real, q: real, x: real)
    requires Welford(xs, mean, q)
    ensures var next := NextAverage(mean, |xs| + 1, x);
      Welford(xs + [x], next, NextSquares(q, mean, next, x))
  {
    var n := |xs| as real;
    assert (|xs| + 1) as real == n + 1.0;
    assert (xs + [x])[..|xs|] == xs;
    WelfordAlgebra(n, mean, q, Sum(xs), SumSquares(xs), x, mean + (x - mean) / (n + 1.0));
  }

  lemma MeaningAlgebra(n: real, mean: real, sum: real, squares: real, q: real, d: real)
    requires n * mean == sum && q + n * (mean * mean) == squares
    requires d == Expansion(squares, sum, n, mean)
    ensures q == d
  {
    assert mean * (n * mean) == (mean * mean) * n;
  }

  lemma DivideBack(n: real, mean: real, sum: real)
    requires n > 0.0 && n * mean == sum
    ensures mean == sum / n
  {
  }

  lemma SquaresAreDeviations(n: real, mean: real, sum: real, squares: real, q: real, d: real)
    requires n * mean == sum && q + n * (mean * mean) == squares
    ensures d == Expansion(squares, sum, n, mean) ==> q == d
  {
    if d == Expansion(squares, sum, n, mean) {
      MeaningAlgebra(n, mean, sum, squares, q, d);
    }
  }

  lemma WelfordSquares(xs: seq<real>, mean: real, q: real)
    requires Welford(xs, mean, q)
    ensures q == SquaredDeviations(xs, mean)
  {
    var d := SquaredDeviations(xs, mean);
    SquaresAreDeviations(|xs| as real, mean, Sum(xs), SumSquares(xs), q, d);
    DeviationsExpand(xs, mean);
  }

  lemma WelfordMean(xs: seq<real>, mean: real, q: real)
    requires Welford(xs, mean, q) && xs != []
    ensures mean == Sum(xs) / (|xs| as real)
  {
    DivideBack(|xs| as real, mean, Sum(xs));
  }

  /** Welford's quantities are the mean and the sum of the squared deviations from it. */
  lemma WelfordMeaning(xs: seq<real>, mean: real, q: real)
    requires Welford(xs, mean, q)
    ensures q == SquaredDeviations(xs, mean) && q >= 0.0
    ensures xs != [] ==> mean == Sum(xs) / (|xs| as real)
  {
    WelfordSquares(xs, mean, q);
    DeviationsNonNegative(xs, mean);
    if xs != [] {
      WelfordMean(xs, mean, q);
    }
  }

  ghost predicate MeanOf(xs: seq<real>, mean: real) {
    (|xs| as real) * mean == Sum(xs)
  }

  lemma SumAppend(xs: seq<real>, x: real)
    ensures Sum(xs + [x]) == Sum(xs) + x
    ensures SumSquares(xs + [x]) == SumSquares(xs) + x * x
  {
    assert (xs + [x])[..|xs|] == xs;
  }

  // One name over a window of updates, some of which carry it.

  /** What the updates of a window hold for one name. */
  type Trace = seq<Option<real>>

  /** The stored average: an update that carries the name moves it, by the number of all updates. */
  function Average(t: Trace): real {
    if t == [] then 0.0
    else
      var before, last := t[..|t| - 1], t[|t| - 1];
      if last.Some? then NextAverage(Average(before), |t|, last.value) else Average(before)
  }

  /** The stored squared deviations. */
  function Squares(t: Trace): real {
    if t == [] then 0.0
    else
      var before, last := t[..|t| - 1], t[|t| - 1];
      if last.Some? then NextSquares(Squares(before), Average(before), Average(t), last.value) else Squares(before)
  }

  /** The values that the name really had. */
  function Own(t: Trace): seq<real> {
    if t == [] then []
    else
      var before, last := t[..|t| - 1], t[|t| - 1];
      if last.Some? then Own(before) + [last.value] else Own(before)
  }

  /** Which updates carry the name. */
  type Pattern = seq<bool>

  ghost predicate Fits(t: Trace, p: Pattern) {
    |t| == |p| && forall i :: 0 <= i < |t| ==> (t[i].Some? <==> p[i])
  }

  predicate Always(p: Pattern) {
    forall i :: 0 <= i < |p| ==> p[i]
  }

  /** Once the name is missing it stays away. */
  predicate FirstOnly(p: Pattern) {
    forall i, j :: 0 <= i < j < |p| && p[j] ==> p[i]
  }

  function Carried(p: Pattern): nat {
    if p == [] then 0 else Carried(p[..|p| - 1]) + if p[|p| - 1] then 1 else 0
  }

  lemma {:induction false} CarriedBound(p: Pattern)
    ensures Carried(p) <= |p|
    ensures Carried(p) == |p| <==> Always(p)
  {
    if p == [] {
    } else {
      var q := p[..|p| - 1];
      CarriedBound(q);
      assert Always(p) <==> Always(q) && p[|p| - 1];
    }
  }

  lemma FitsInit(t: Trace, p: Pattern)
    requires Fits(t, p) && t != []
    ensures Fits(t[..|t| - 1], p[..|p| - 1]) && (t[|t| - 1].Some? <==> p[|p| - 1])
  {
  }

  lemma {:induction false} OwnLength(t: Trace, p: Pattern)
    requires Fits(t, p)
    ensures |Own(t)| == Carried(p)
  {
    if t == [] {
    } else {
      FitsInit(t, p);
      OwnLength(t[..|t| - 1], p[..|p| - 1]);
    }
  }

  /** A name that is in every update has exact quantities, whatever other names do. */
  lemma {:induction false} AlwaysIsWelford(t: Trace, p: Pattern)
    requires Fits(t, p) && Always(p)
    ensures |Own(t)| == |t| && Welford(Own(t), Average(t), Squares(t))
  {
    if t != [] {
      var before, v := t[..|t| - 1], t[|t| - 1].value;
      FitsInit(t, p);
      AlwaysIsWelford(before, p[..|p| - 1]);
      WelfordStep(Own(before), Average(before), Squares(before), v);
    } else {
      assert Sum(Own(t)) == 0.0 && SumSquares(Own(t)) == 0.0;
    }
  }

  /** The average is that of the name's own values. */
  ghost predicate AverageRight(t: Trace) {
    MeanOf(Own(t), Average(t))
  }

  lemma {:induction false} FirstOnlyIsRight(t: Trace, p: Pattern)
    requires Fits(t, p) && FirstOnly(p)
    ensures AverageRight(t)
  {
    if t == [] {
      assert Sum(Own(t)) == 0.0;
    } else {
      var before, q := t[..|t| - 1], p[..|p| - 1];
      FitsInit(t, p);
      FirstOnlyIsRight(before, q);
      if p[|p| - 1] {
        assert Always(p);
        AlwaysIsWelford(t, p);
      }
    }
  }

  // Values that show the failure: zero everywhere but in the last update that carries the name.

  function Zeros(p: Pattern): Trace {
    if p == [] then [] else Zeros(p[..|p| - 1]) + [if p[|p| - 1] then Some(0.0) else None]
  }

  function LastIsOne(p: Pattern): Trace {
    if p == [] then []
    else if p[|p| - 1] then Zeros(p[..|p| - 1]) + [Some(1.0)]
    else LastIsOne(p[..|p| - 1]) + [None]
  }

  lemma Extended(t: Trace, p: Pattern, x: Option<real>)
    requires p != [] && Fits(t, p[..|p| - 1]) && (x.Some? <==> p[|p| - 1])
    ensures Fits(t + [x], p) && (t + [x])[..|t|] == t
  {
  }

  lemma {:induction false} ZerosAre(p: Pattern)
    ensures Fits(Zeros(p), p) && Average(Zeros(p)) == 0.0 && Squares(Zeros(p)) == 0.0
    ensures Sum(Own(Zeros(p))) == 0.0 && SumSquares(Own(Zeros(p))) == 0.0
  {
    if p == [] {
    } else {
      var z := Zeros(p[..|p| - 1]);
      ZerosAre(p[..|p| - 1]);
      Extended(z, p, if p[|p| - 1] then Some(0.0) else None);
      SumAppend(Own(z), 0.0);
    }
  }

  lemma OneAfterZeros(p: Pattern)
    requires p != [] && p[|p| - 1]
    ensures var t := LastIsOne(p);
      && Fits(t, p) && |Own(t)| == Carried(p) && Sum(Own(t)) == 1.0 && SumSquares(Own(t)) == 1.0
      && Average(t) == NextAverage(0.0, |p|, 1.0) && Squares(t) == NextSquares(0.0, 0.0, Average(t), 1.0)
  {
    var z := Zeros(p[..|p| - 1]);
    ZerosAre(p[..|p| - 1]);
    Extended(z, p, Some(1.0));
    SumAppend(Own(z), 1.0);
    OwnLength(LastIsOne(p), p);
  }

  /** One value of 1 among n updates, c of which carry the name. */
  lemma OneOverAll(c: nat, n: nat)
    requires 0 < c <= n
    ensures NextSquares(0.0, 0.0, NextAverage(0.0, n, 1.0), 1.0) < 1.0
    ensures (c as real) * NextAverage(0.0, n, 1.0) == 1.0 ==> c == n
  {
    var a := NextAverage(0.0, n, 1.0);
    assert a == 1.0 / (n as real) && a > 0.0;
    assert (n as real) * a == 1.0;
  }

  lemma RightIsOne(t: Trace)
    ensures AverageRight(t) && Sum(Own(t)) == 1.0 ==> (|Own(t)| as real) * Average(t) == 1.0
  {
  }

  /** For those values the mean is wrong unless the first updates carry the name. */
  lemma {:induction false} LastIsOneGives(p: Pattern)
    requires Carried(p) > 0
    ensures var t := LastIsOne(p);
      && Fits(t, p) && Sum(Own(t)) == 1.0 && SumSquares(Own(t)) == 1.0 && Squares(t) < 1.0
      && (AverageRight(t) ==> FirstOnly(p))
  {
    var t := LastIsOne(p);
    CarriedBound(p);
    if p[|p| - 1] {
      OneAfterZeros(p);
      OneOverAll(Carried(p), |p|);
      RightIsOne(t);
    } else {
      var q := p[..|p| - 1];
      LastIsOneGives(q);
      Extended(LastIsOne(q), p, None);
      FirstOnlyExtends(p);
    }
  }

  lemma FirstOnlyExtends(p: Pattern)
    requires p != [] && !p[|p| - 1]
    ensures FirstOnly(p[..|p| - 1]) ==> FirstOnly(p)
  {
  }

  lemma {:induction false} SomeCarried(p: Pattern)
    requires exists i :: 0 <= i < |p| && p[i]
    ensures Carried(p) > 0
  {
    var i :| 0 <= i < |p| && p[i];
    if !p[|p| - 1] {
      assert p[..|p| - 1][i];
      SomeCarried(p[..|p| - 1]);
    }
  }

  /** The sample variance, of two values or more. */
  function SampleVariance(xs: seq<real>): real
    requires |xs| >= 2
  {
    SquaredDeviations(xs, Sum(xs) / (|xs| as real)) / ((|xs| - 1) as real)
  }

  /** The variance that is delivered is the sample variance of the name's own values. */
  ghost predicate VarianceRight(t: Trace)
    requires |t| >= 2 && |Own(t)| >= 2
  {
    Squares(t) / ((|t| - 1) as real) == SampleVariance(Own(t))
  }

  lemma AlwaysVarianceRight(t: Trace, p: Pattern)
    requires Fits(t, p) && Always(p) && |t| >= 2
    ensures |Own(t)| == |t| && VarianceRight(t)
  {
    AlwaysIsWelford(t, p);
    WelfordMeaning(Own(t), Average(t), Squares(t));
  }

  /** The sample variance of zeros and a single one. */
  lemma VarianceOfOne(xs: seq<real>)
    requires |xs| >= 2 && Sum(xs) == 1.0 && SumSquares(xs) == 1.0
    ensures SampleVariance(xs) == 1.0 / (|xs| as real)
  {
    var c := |xs| as real;
    var m := 1.0 / c;
    DeviationsExpand(xs, m);
    OneDeviations(c, m, SquaredDeviations(xs, m));
    assert (|xs| - 1) as real == c - 1.0;
  }

  lemma OneDeviations(c: real, m: real, d: real)
    requires c >= 2.0 && m == 1.0 / c && d == Expansion(1.0, 1.0, c, m)
    ensures d / (c - 1.0) == 1.0 / c
  {
    assert c * m == 1.0;
    assert (m * m) * c == m * (c * m) == m;
    assert d == 1.0 - m;
    assert m * (c - 1.0) == c * m - m == d;
  }

  lemma SmallerQuotient(q: real, n: real, c: real)
    requires q < 1.0 && n >= c >= 1.0
    ensures q / n < 1.0 / c
  {
    assert q / n < 1.0 / n;
    assert c * (1.0 / n) <= 1.0;
  }

  lemma MissingIsWrong(t: Trace)
    requires |t| > |Own(t)| >= 2 && Sum(Own(t)) == 1.0 && SumSquares(Own(t)) == 1.0 && Squares(t) < 1.0
    ensures !VarianceRight(t)
  {
    VarianceOfOne(Own(t));
    SmallerQuotient(Squares(t), (|t| - 1) as real, |Own(t)| as real);
  }
}
