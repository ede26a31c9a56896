/** The aggregators as objects, and the aggregating wrapper with each of them. */
module Aggregators {
  import opened Prelude
  import opened Welford

  /** One update: the numeric arguments of a call, by name. */
  type Data = seq<(string, real)>

  /** A dictionary's items: no name twice. */
  ghost predicate Items(d: Data) {
    forall i, j :: 0 <= i < j < |d| ==> d[i].0 != d[j].0
  }

  /** A default dictionary: zero for what is not there. */
  function At(m: map<string, real>, k: string): real {
    if k in m then m[k] else 0.0
  }

  function Names(d: Data): set<string> {
    set i | 0 <= i < |d| :: d[i].0
  }

  function ValueOf(d: Data, k: string): real {
    if d == [] then 0.0 else if d[0].0 == k then d[0].1 else ValueOf(d[1..], k)
  }

  lemma {:induction false} ValueOfAt(d: Data, i: nat)
    requires Items(d) && i < |d|
    ensures ValueOf(d, d[i].0) == d[i].1
  {
    if i == 0 {
    } else {
      assert d[0].0 != d[i].0;
      forall a, b | 0 <= a < b < |d[1..]| ensures d[1..][a].0 != d[1..][b].0 {
        assert d[a + 1].0 != d[b + 1].0;
      }
      ValueOfAt(d[1..], i - 1);
    }
  }

  lemma {:induction false} ValueOfAbsent(d: Data, k: string)
    requires k !in Names(d)
    ensures ValueOf(d, k) == 0.0
  {
    if d == [] {
    } else {
      assert d[0].0 in Names(d);
      forall n | n in Names(d[1..]) ensures n in Names(d) {
        var i :| 0 <= i < |d[1..]| && d[1..][i].0 == n;
        assert d[i + 1].0 == n;
      }
      ValueOfAbsent(d[1..], k);
    }
  }

  lemma NamesPrefix(d: Data, i: nat)
    requires Items(d) && i < |d|
    ensures Names(d[..i + 1]) == Names(d[..i]) + {d[i].0} && d[i].0 !in Names(d[..i])
  {
    forall n | n in Names(d[..i + 1]) ensures n in Names(d[..i]) + {d[i].0} {
      var j :| 0 <= j < i + 1 && d[..i + 1][j].0 == n;
      if j < i { assert d[..i][j].0 == n; }
    }
    forall n | n in Names(d[..i]) ensures n in Names(d[..i + 1]) && n != d[i].0 {
      var j :| 0 <= j < i && d[..i][j].0 == n;
      assert d[..i + 1][j].0 == n && d[j].0 != d[i].0;
    }
    assert d[..i + 1][i].0 == d[i].0;
  }

  /** What a window of updates holds for one name. */
  function TraceOf(window: seq<Data>, k: string): (t: Trace)
    ensures |t| == |window|
  {
    seq(|window|, i requires 0 <= i < |window| => ValueIn(window[i], k))
  }

  function ValueIn(d: Data, k: string): Option<real> {
    if k in Names(d) then Some(ValueOf(d, k)) else None
  }

  /** Which updates of a window carry a name. */
  function PatternOf(window: seq<Data>, k: string): (p: Pattern)
    ensures |p| == |window| && Fits(TraceOf(window, k), p)
  {
    seq(|window|, i requires 0 <= i < |window| => k in Names(window[i]))
  }

  function AllNames(window: seq<Data>): set<string> {
    set i, k | 0 <= i < |window| && k in Names(window[i]) :: k
  }

  lemma TraceAppend(window: seq<Data>, d: Data, k: string)
    ensures var t := TraceOf(window + [d], k);
      t == TraceOf(window, k) + [ValueIn(d, k)] && t[..|t| - 1] == TraceOf(window, k)
  {
  }

  lemma NamesAppend(window: seq<Data>, d: Data)
    ensures AllNames(window + [d]) == AllNames(window) + Names(d)
  {
    var all := window + [d];
    forall k | k in AllNames(window) + Names(d) ensures k in AllNames(all) {
      if k in Names(d) {
        assert all[|window|] == d;
      } else {
        var i :| 0 <= i < |window| && k in Names(window[i]);
        assert all[i] == window[i];
      }
    }
  }

  lemma {:induction false} AbsentIsZero(window: seq<Data>, k: string)
    requires k !in AllNames(window)
    ensures Average(TraceOf(window, k)) == 0.0 && Squares(TraceOf(window, k)) == 0.0
  {
    if window == [] {
    } else {
      var before, d := window[..|window| - 1], window[|window| - 1];
      assert window == before + [d];
      NamesAppend(before, d);
      TraceAppend(before, d, k);
      AbsentIsZero(before, k);
    }
  }

  /** One update moves the quantities of a name as the loop does, and only if it carries the name. */
  lemma OneUpdate(window: seq<Data>, d: Data, k: string)
    ensures var a, q := Average(TraceOf(window, k)), Squares(TraceOf(window, k));
      var a', q' := Average(TraceOf(window + [d], k)), Squares(TraceOf(window + [d], k));
      if k in Names(d)
      then a' == NextAverage(a, |window| + 1, ValueOf(d, k)) && q' == NextSquares(q, a, a', ValueOf(d, k))
      else a' == a && q' == q
  {
    TraceAppend(window, d, k);
  }

  /** These are the averages that a window gives, for all its names. */
  ghost predicate AveragesOf(window: seq<Data>, a: map<string, real>) {
    a.Keys == AllNames(window) && forall k :: k in a ==> a[k] == Average(TraceOf(window, k))
  }

  ghost predicate SquaresOf(window: seq<Data>, q: map<string, real>) {
    q.Keys == AllNames(window) && forall k :: k in q ==> q[k] == Squares(TraceOf(window, k))
  }

  /** The averages when the first i names of the n-th update have been taken in. */
  function AveragesAfter(a: map<string, real>, d: Data, i: nat, n: nat): map<string, real>
    requires i <= |d| && n > 0
    decreases i
  {
    if i == 0 then a
    else
      var m, k := AveragesAfter(a, d, i - 1, n), d[i - 1].0;
      m[k := NextAverage(At(m, k), n, d[i - 1].1)]
  }

  /** And the squared deviations. */
  function SquaresAfter(q: map<string, real>, a: map<string, real>, d: Data, i: nat, n: nat): map<string, real>
    requires i <= |d| && n > 0
    decreases i
  {
    if i == 0 then q
    else
      var m, k, prev := SquaresAfter(q, a, d, i - 1, n), d[i - 1].0, At(AveragesAfter(a, d, i - 1, n), d[i - 1].0);
      m[k := NextSquares(At(m, k), prev, NextAverage(prev, n, d[i - 1].1), d[i - 1].1)]
  }

  ghost predicate AllItems(window: seq<Data>) {
    forall i :: 0 <= i < |window| ==> Items(window[i])
  }

  /** What is stored after a window of updates. */
  function AveragesIn(window: seq<Data>): map<string, real> {
    if window == [] then map[]
    else
      var before, d := window[..|window| - 1], window[|window| - 1];
      AveragesAfter(AveragesIn(before), d, |d|, |window|)
  }

  function SquaresIn(window: seq<Data>): map<string, real> {
    if window == [] then map[]
    else
      var before, d := window[..|window| - 1], window[|window| - 1];
      SquaresAfter(SquaresIn(before), AveragesIn(before), d, |d|, |window|)
  }

  lemma InAppend(window: seq<Data>, d: Data)
    ensures AveragesIn(window + [d]) == AveragesAfter(AveragesIn(window), d, |d|, |window| + 1)
    ensures SquaresIn(window + [d]) == SquaresAfter(SquaresIn(window), AveragesIn(window), d, |d|, |window| + 1)
    ensures AllItems(window) && Items(d) ==> AllItems(window + [d])
  {
    assert (window + [d])[..|window|] == window;
  }

  lemma {:induction false} AfterKeys(q: map<string, real>, a: map<string, real>, d: Data, i: nat, n: nat)
    requires i <= |d| && n > 0 && Items(d)
    ensures AveragesAfter(a, d, i, n).Keys == a.Keys + Names(d[..i])
    ensures SquaresAfter(q, a, d, i, n).Keys == q.Keys + Names(d[..i])
    decreases i
  {
    if i == 0 {
    } else {
      AfterKeys(q, a, d, i - 1, n);
      NamesPrefix(d, i - 1);
    }
  }

  /** Each name has been moved once, from where it was. */
  lemma {:induction false} AverageAfterAt(a: map<string, real>, d: Data, i: nat, n: nat, k: string)
    requires i <= |d| && n > 0 && Items(d)
    ensures At(AveragesAfter(a, d, i, n), k)
         == if k in Names(d[..i]) then NextAverage(At(a, k), n, ValueOf(d, k)) else At(a, k)
    decreases i
  {
    if i == 0 {
    } else {
      AverageAfterAt(a, d, i - 1, n, k);
      NamesPrefix(d, i - 1);
      ValueOfAt(d, i - 1);
    }
  }

  lemma {:induction false} SquareAfterAt(q: map<string, real>, a: map<string, real>, d: Data, i: nat, n: nat, k: string)
    requires i <= |d| && n > 0 && Items(d)
    ensures At(SquaresAfter(q, a, d, i, n), k)
         == if k in Names(d[..i])
            then NextSquares(At(q, k), At(a, k), NextAverage(At(a, k), n, ValueOf(d, k)), ValueOf(d, k)) else At(q, k)
    decreases i
  {
    if i == 0 {
    } else {
      SquareAfterAt(q, a, d, i - 1, n, k);
      AverageAfterAt(a, d, i - 1, n, k);
      NamesPrefix(d, i - 1);
      ValueOfAt(d, i - 1);
    }
  }

  datatype StandardDeviation = StandardDeviation(average: real, count: nat, variance: real)

  /** Needs more than one update, like the division it does. */
  function MakeDeviation(count: nat, avg: real, q: real): StandardDeviation
    requires count != 1
  {
    StandardDeviation(avg, count, q / ((count - 1) as real))
  }

  /** The mean and the sample variance of the values. */
  ghost predicate Describes(d: StandardDeviation, xs: seq<real>) {
    && d.count == |xs| >= 2
    && d.average == Sum(xs) / (|xs| as real)
    && d.variance == SampleVariance(xs)
    && d.variance >= 0.0
  }

  lemma AlwaysDescribes(t: Trace, p: Pattern)
    requires Fits(t, p) && Always(p) && |t| >= 2
    ensures Describes(MakeDeviation(|t|, Average(t), Squares(t)), Own(t))
  {
    AlwaysVarianceRight(t, p);
    AlwaysIsWelford(t, p);
    WelfordMeaning(Own(t), Average(t), Squares(t));
    QuotientNonNegative(Squares(t), (|t| - 1) as real);
  }

  lemma QuotientNonNegative(q: real, n: real)
    requires q >= 0.0 && n > 0.0
    ensures q / n >= 0.0
  {
  }

  class StandardDeviationAggregator {
    var avg: map<string, real>
    var variance: map<string, real>
    var count: nat
    ghost var window: seq<Data>

    /** What is stored follows from the window alone. */
    ghost predicate Valid()
      reads this
    {
      count == |window| && AllItems(window) && avg == AveragesIn(window) && variance == SquaresIn(window)
    }

    constructor ()
      ensures Valid() && window == []
    {
      avg, variance, count, window := map[], map[], 0, [];
    }

    /** One loop over the names of an update. */
    method Update(data: Data)
      requires Valid() && Items(data)
      modifies this
      ensures Valid() && window == old(window) + [data]
    {
      count := count + 1;
      ghost var a, q := avg, variance;
      for i := 0 to |data|
        invariant count == |window| + 1 && window == old(window)
        invariant avg == AveragesAfter(a, data, i, count) && variance == SquaresAfter(q, a, data, i, count)
      {
        Take(data, i, a, q);
      }
      InAppend(window, data);
      window := window + [data];
    }

    /** One name of an update. */
    method Take(data: Data, i: nat, ghost a: map<string, real>, ghost q: map<string, real>)
      requires i < |data| && count > 0
      requires avg == AveragesAfter(a, data, i, count) && variance == SquaresAfter(q, a, data, i, count)
      modifies `avg, `variance
      ensures avg == AveragesAfter(a, data, i + 1, count) && variance == SquaresAfter(q, a, data, i + 1, count)
    {
      var (k, v) := data[i];
      var prev := At(avg, k);
      avg := avg[k := NextAverage(prev, count, v)];
      variance := variance[k := NextSquares(At(variance, k), prev, avg[k], v)];
    }

    /**
     Averages and variances, and a fresh window. None is the ZeroDivisionError after one update
     with a name, which leaves everything as it was. Of a name that is in every update they are
     the mean and the sample variance.
     */
    method Result() returns (r: Option<map<string, StandardDeviation>>)
      requires Valid()
      modifies this
      ensures Valid()
      ensures r.None? <==> Single(old(window))
      ensures window == if r.None? then old(window) else []
      ensures r.Some? ==> r.value == Deviations(old(window))
      ensures r.Some? ==> forall k :: k in r.value && Always(PatternOf(old(window), k)) ==>
        Describes(r.value[k], Own(TraceOf(old(window), k)))
    {
      MadeIsDelivered(window);
      DeviationsDescribe(window);
      if count == 1 && avg != map[] {
        return None;
      }
      r := Some(if avg == map[] then map[] else MakeAll(count, avg, variance));
      count, avg, variance, window := 0, map[], map[], [];
    }
  }

  /** One update, with a name. */
  ghost predicate Single(window: seq<Data>) {
    |window| == 1 && window[0] != []
  }

  lemma SingleHasName(window: seq<Data>)
    requires |window| == 1
    ensures AllNames(window) == {} <==> window[0] == []
  {
    if window[0] != [] {
      assert window[0][0].0 in Names(window[0]);
      assert window[0][0].0 in AllNames(window);
    }
  }

  /** What a window of more than one update delivers. */
  ghost function Deviations(window: seq<Data>): map<string, StandardDeviation>
  {
    map k | k in AllNames(window) && |window| != 1 ::
      MakeDeviation(|window|, Average(TraceOf(window, k)), Squares(TraceOf(window, k)))
  }

  function MakeAll(count: nat, avg: map<string, real>, variance: map<string, real>): map<string, StandardDeviation>
    requires count != 1 && avg.Keys == variance.Keys
  {
    map k | k in avg :: MakeDeviation(count, avg[k], variance[k])
  }

  lemma MadeIsDelivered(window: seq<Data>)
    requires AllItems(window)
    ensures var a, q := AveragesIn(window), SquaresIn(window);
      && (Single(window) <==> |window| == 1 && a != map[])
      && a.Keys == q.Keys && (a != map[] ==> window != [])
      && (!Single(window) ==>
           Deviations(window) == if a == map[] then map[] else MakeAll(|window|, a, q))
  {
    StoredIs(window);
    MadeFromStored(window, AveragesIn(window), SquaresIn(window));
  }

  lemma MadeFromStored(window: seq<Data>, a: map<string, real>, q: map<string, real>)
    requires AveragesOf(window, a) && SquaresOf(window, q)
    ensures a.Keys == q.Keys && (Single(window) <==> |window| == 1 && a != map[]) && (a != map[] ==> window != [])
    ensures !Single(window) ==> Deviations(window) == if a == map[] then map[] else MakeAll(|window|, a, q)
  {
    if |window| == 1 { SingleHasName(window); }
    assert a == map[] <==> a.Keys == {};
    if |window| != 1 { MadeEqual(window, a, q); }
  }

  lemma MadeEqual(window: seq<Data>, a: map<string, real>, q: map<string, real>)
    requires AveragesOf(window, a) && SquaresOf(window, q) && |window| != 1
    ensures MakeAll(|window|, a, q) == Deviations(window)
  {
    var made := MakeAll(|window|, a, q);
    forall k | k in made ensures made[k] == Deviations(window)[k] {
      assert a[k] == Average(TraceOf(window, k)) && q[k] == Squares(TraceOf(window, k));
    }
  }

  lemma DeviationsDescribe(window: seq<Data>)
    ensures forall k :: k in Deviations(window) && Always(PatternOf(window, k)) ==>
      Describes(Deviations(window)[k], Own(TraceOf(window, k)))
  {
    forall k | k in Deviations(window) && Always(PatternOf(window, k))
      ensures Describes(Deviations(window)[k], Own(TraceOf(window, k)))
    {
      AlwaysDescribes(TraceOf(window, k), PatternOf(window, k));
    }
  }

  lemma UpdatedAverages(window: seq<Data>, d: Data, a: map<string, real>)
    requires AveragesOf(window, a) && Items(d)
    ensures AveragesOf(window + [d], AveragesAfter(a, d, |d|, |window| + 1))
  {
    var m := AveragesAfter(a, d, |d|, |window| + 1);
    assert d[..|d|] == d;
    NamesAppend(window, d);
    AfterKeys(a, a, d, |d|, |window| + 1);
    forall k | k in m ensures m[k] == Average(TraceOf(window + [d], k)) {
      AverageAfterAt(a, d, |d|, |window| + 1, k);
      OneUpdate(window, d, k);
      if k !in a { AbsentIsZero(window, k); }
    }
  }

  lemma UpdatedSquares(window: seq<Data>, d: Data, a: map<string, real>, q: map<string, real>)
    requires AveragesOf(window, a) && SquaresOf(window, q) && Items(d)
    ensures SquaresOf(window + [d], SquaresAfter(q, a, d, |d|, |window| + 1))
  {
    var m := SquaresAfter(q, a, d, |d|, |window| + 1);
    assert d[..|d|] == d;
    NamesAppend(window, d);
    AfterKeys(q, a, d, |d|, |window| + 1);
    forall k | k in m ensures m[k] == Squares(TraceOf(window + [d], k)) {
      SquareAfterAt(q, a, d, |d|, |window| + 1, k);
      OneUpdate(window, d, k);
      if k !in a { AbsentIsZero(window, k); }
    }
  }

  /** What is stored for a name follows from the trace of the name in the window. */
  lemma {:induction false} StoredIs(window: seq<Data>)
    requires AllItems(window)
    ensures AveragesOf(window, AveragesIn(window)) && SquaresOf(window, SquaresIn(window))
  {
    if window == [] {
    } else {
      var before, d := window[..|window| - 1], window[|window| - 1];
      StoredIs(before);
      assert window == before + [d];
      UpdatedAverages(before, d, AveragesIn(before));
      UpdatedSquares(before, d, AveragesIn(before), SquaresIn(before));
    }
  }

  class AverageAggregator {
    var data: map<string, real>
    var count: nat
    ghost var window: seq<Data>

    ghost predicate Valid()
      reads this
    {
      count == |window| && AllItems(window) && data == AveragesIn(window)
    }

    constructor ()
      ensures Valid() && window == []
    {
      data, count, window := map[], 0, [];
    }

    method Update(args: Data)
      requires Valid() && Items(args)
      modifies this
      ensures Valid() && window == old(window) + [args]
    {
      count := count + 1;
      for i := 0 to |args|
        invariant count == |window| + 1 && window == old(window)
        invariant data == AveragesAfter(old(data), args, i, count)
      {
        var (k, v) := args[i];
        data := data[k := NextAverage(At(data, k), count, v)];
      }
      InAppend(window, args);
      window := window + [args];
    }

    /** The averages, and a fresh window. For a name that the first updates carry it is the mean of its values. */
    method Result() returns (r: map<string, real>)
      requires Valid()
      modifies this
      ensures Valid() && window == [] && r == Averages(old(window))
      ensures forall k :: k in r && FirstOnly(PatternOf(old(window), k)) ==> MeanOf(Own(TraceOf(old(window), k)), r[k])
    {
      StoredIs(window);
      r := data;
      forall k | k in r && FirstOnly(PatternOf(window, k)) ensures MeanOf(Own(TraceOf(window, k)), r[k]) {
        FirstOnlyIsRight(TraceOf(window, k), PatternOf(window, k));
      }
      data, count, window := map[], 0, [];
    }
  }

  /** What a window delivers. */
  ghost function Averages(window: seq<Data>): map<string, real> {
    map k | k in AllNames(window) :: Average(TraceOf(window, k))
  }

  // Exactly when what is delivered for a name is right, over all windows that carry it alike.

  /** The window that holds these values of one name and nothing else. */
  function WindowOf(t: Trace, k: string): seq<Data> {
    seq(|t|, i requires 0 <= i < |t| => if t[i].Some? then [(k, t[i].value)] else [])
  }

  lemma WindowOfTrace(t: Trace, p: Pattern, k: string)
    requires Fits(t, p)
    ensures TraceOf(WindowOf(t, k), k) == t && PatternOf(WindowOf(t, k), k) == p && AllItems(WindowOf(t, k))
  {
    var w := WindowOf(t, k);
    forall i | 0 <= i < |t| ensures ValueIn(w[i], k) == t[i] && (k in Names(w[i]) <==> p[i]) {
      if t[i].Some? { assert w[i][0].0 in Names(w[i]); }
    }
  }

  ghost predicate Carries(window: seq<Data>, k: string, p: Pattern) {
    AllItems(window) && PatternOf(window, k) == p
  }

  lemma {:induction false} CarriedIsDelivered(window: seq<Data>, k: string)
    ensures k in AllNames(window) <==> Carried(PatternOf(window, k)) > 0
  {
    var p := PatternOf(window, k);
    if k in AllNames(window) {
      var i :| 0 <= i < |window| && k in Names(window[i]);
      assert p[i];
      SomeCarried(p);
    } else {
      NoneCarried(p);
    }
  }

  lemma {:induction false} NoneCarried(p: Pattern)
    requires forall i :: 0 <= i < |p| ==> !p[i]
    ensures Carried(p) == 0
  {
    if p == [] {
    } else {
      NoneCarried(p[..|p| - 1]);
    }
  }

  /** The average that the window delivers for the name is the mean of its own values. */
  ghost predicate AverageDelivered(window: seq<Data>, k: string) {
    k in Averages(window) ==> MeanOf(Own(TraceOf(window, k)), Averages(window)[k])
  }

  /**
   The average of a name is the mean of its own values, in all windows whose updates carry it
   alike, if and only if the updates that carry it are the first ones.
   */
  lemma AverageDeliveredIff(k: string, p: Pattern)
    ensures (forall window :: Carries(window, k, p) ==> AverageDelivered(window, k)) <==> FirstOnly(p)
  {
    if FirstOnly(p) {
      forall window | Carries(window, k, p) ensures AverageDelivered(window, k) {
        FirstOnlyIsRight(TraceOf(window, k), p);
      }
    } else {
      SomeCarried(p);
      LastIsOneGives(p);
      var window := WindowOf(LastIsOne(p), k);
      WindowOfTrace(LastIsOne(p), p, k);
      CarriedIsDelivered(window, k);
      assert Carries(window, k, p) && !AverageDelivered(window, k);
    }
  }

  /** The variance that the window delivers for the name is the sample variance of its own values. */
  ghost predicate VarianceDelivered(window: seq<Data>, k: string) {
    var xs := Own(TraceOf(window, k));
    k in Deviations(window) && |xs| >= 2 && Deviations(window)[k].variance == SampleVariance(xs)
  }

  lemma VarianceIsRight(window: seq<Data>, k: string, p: Pattern)
    requires PatternOf(window, k) == p && Carried(p) >= 2
    ensures var t := TraceOf(window, k);
      && |t| >= |Own(t)| >= 2 && (VarianceDelivered(window, k) <==> VarianceRight(t))
      && (|t| == |Own(t)| <==> Always(p))
  {
    CarriedBound(p);
    OwnLength(TraceOf(window, k), p);
    CarriedIsDelivered(window, k);
  }

  /**
   The variance of a name, given twice or more, is the sample variance of its own values, in
   all windows whose updates carry it alike, if and only if every update carries it.
   */
  lemma VarianceDeliveredIff(k: string, p: Pattern)
    requires Carried(p) >= 2
    ensures (forall window :: Carries(window, k, p) ==> VarianceDelivered(window, k)) <==> Always(p)
  {
    if Always(p) {
      forall window | Carries(window, k, p) ensures VarianceDelivered(window, k) {
        VarianceIsRight(window, k, p);
        AlwaysVarianceRight(TraceOf(window, k), p);
      }
    } else {
      var t := LastIsOne(p);
      LastIsOneGives(p);
      WindowOfTrace(t, p, k);
      VarianceIsRight(WindowOf(t, k), k, p);
      MissingIsWrong(t);
      assert Carries(WindowOf(t, k), k, p) && !VarianceDelivered(WindowOf(t, k), k);
    }
  }

  // The aggregating wrapper.

  /** Windows one after the other. */
  function Flat(windows: seq<seq<Data>>): seq<Data> {
    if windows == [] then [] else Flat(windows[..|windows| - 1]) + windows[|windows| - 1]
  }

  /** One more call joins the open window, and closing the window changes nothing. */
  lemma FlatNext(windows: seq<seq<Data>>, open: seq<Data>, args: Data)
    ensures Flat(windows) + (open + [args]) == Flat(windows) + open + [args]
    ensures Flat(windows + [open + [args]]) + [] == Flat(windows) + (open + [args])
  {
    assert (windows + [open + [args]])[..|windows|] == windows;
  }

  class AverageAggregate {
    const ttl: real
    const aggregator: AverageAggregator
    var expire: real
    ghost var inputs: seq<Data>              // all calls
    ghost var windows: seq<seq<Data>>        // the calls of each window that has been delivered

    /** Every call belongs to one window, in order, and the last window is open. */
    ghost predicate Valid()
      reads this, aggregator
    {
      aggregator.Valid() && Flat(windows) + aggregator.window == inputs
    }

    constructor (ttl: real, now: real)
      ensures Valid() && fresh(aggregator) && inputs == [] && windows == [] && expire == now + ttl && this.ttl == ttl
    {
      this.ttl, expire, inputs, windows := ttl, now + ttl, [], [];
      aggregator := new AverageAggregator();
    }

    /** One call of the wrapped function; at the end of a window its averages are delivered. */
    method Call(args: Data, now: real) returns (r: Option<map<string, real>>)
      requires Valid() && Items(args)
      modifies this, aggregator
      ensures Valid() && inputs == old(inputs) + [args]
      ensures r.Some? <==> now > old(expire)
      ensures r.Some? ==>
        && windows == old(windows) + [old(aggregator.window) + [args]] && expire == now + ttl
        && r.value == Averages(windows[|old(windows)|])
      ensures r.None? ==> windows == old(windows) && expire == old(expire)
    {
      FlatNext(windows, aggregator.window, args);
      aggregator.Update(args);
      inputs := inputs + [args];
      if now > expire {
        expire := now + ttl;
        windows := windows + [aggregator.window];
        var averages := aggregator.Result();
        return Some(averages);
      }
      return None;
    }
  }

  datatype Outcome = Pending | Delivered(value: map<string, StandardDeviation>) | ZeroDivisionError

  class DeviationAggregate {
    const ttl: real
    const aggregator: StandardDeviationAggregator
    var expire: real
    ghost var inputs: seq<Data>
    ghost var windows: seq<seq<Data>>

    ghost predicate Valid()
      reads this, aggregator
    {
      aggregator.Valid() && Flat(windows) + aggregator.window == inputs
    }

    constructor (ttl: real, now: real)
      ensures Valid() && fresh(aggregator) && inputs == [] && windows == [] && expire == now + ttl && this.ttl == ttl
    {
      this.ttl, expire, inputs, windows := ttl, now + ttl, [], [];
      aggregator := new StandardDeviationAggregator();
    }

    /**
     One call; when the time has come the window is delivered, unless it holds this call alone
     with a name: then the call fails, the next window begins, and the update stays in it.
     */
    method Call(args: Data, now: real) returns (r: Outcome)
      requires Valid() && Items(args)
      modifies this, aggregator
      ensures Valid() && inputs == old(inputs) + [args]
      ensures r.Pending? <==> now <= old(expire)
      ensures expire == if r.Pending? then old(expire) else now + ttl
      ensures r.ZeroDivisionError? <==> now > old(expire) && Single(old(aggregator.window) + [args])
      ensures r.Delivered? ==>
        && windows == old(windows) + [old(aggregator.window) + [args]]
        && r.value == Deviations(windows[|old(windows)|])
      ensures !r.Delivered? ==> windows == old(windows)
    {
      FlatNext(windows, aggregator.window, args);
      aggregator.Update(args);
      inputs := inputs + [args];
      ghost var window := aggregator.window;
      if now > expire {
        expire := now + ttl;
        var deviations := aggregator.Result();
        if deviations.None? {
          return ZeroDivisionError;
        }
        windows := windows + [window];
        return Delivered(deviations.value);
      }
      return Pending;
    }
  }

  // Sums.

  /** The values of one name over a window of updates. */
  function Column(window: seq<Data>, k: string): (xs: seq<real>)
    ensures |xs| == |window|
  {
    seq(|window|, i requires 0 <= i < |window| => ValueOf(window[i], k))
  }

  lemma ColumnAppend(window: seq<Data>, d: Data, k: string)
    ensures Column(window + [d], k) == Column(window, k) + [ValueOf(d, k)]
  {
  }

  class SumAggregate {
    const ttl: real
    var data: map<string, real>
    var expire: real
    ghost var since: seq<Data>                      // the calls of the window that is open
    ghost var inputs: seq<Data>                     // all calls
    ghost var delivered: seq<map<string, real>>     // all results

    /** What is pending is the sum of the open window, and nothing is lost or counted twice. */
    ghost predicate Valid()
      reads this
    {
      && (forall k :: At(data, k) == Sum(Column(since, k)))
      && forall k :: SumAt(delivered, k) + At(data, k) == Sum(Column(inputs, k))
    }

    constructor (ttl: real, now: real)
      ensures Valid() && since == inputs == [] && delivered == [] && expire == now + ttl && this.ttl == ttl
    {
      this.ttl, expire, data := ttl, now + ttl, map[];
      since, inputs, delivered := [], [], [];
    }

    /** `SumAggregator.update`. */
    method Update(args: Data)
      requires Valid() && Items(args)
      modifies this`data, this`since, this`inputs
      ensures Valid() && since == old(since) + [args] && inputs == old(inputs) + [args]
    {
      for i := 0 to |args|
        invariant forall k :: At(data, k) == At(old(data), k) + if k in Names(args[..i]) then ValueOf(args, k) else 0.0
        invariant since == old(since) && inputs == old(inputs)
      {
        NamesPrefix(args, i);
        ValueOfAt(args, i);
        data := data[args[i].0 := At(data, args[i].0) + args[i].1];
      }
      assert args[..|args|] == args;
      since, inputs := since + [args], inputs + [args];
      forall k
        ensures At(data, k) == Sum(Column(since, k))
        ensures SumAt(delivered, k) + At(data, k) == Sum(Column(inputs, k))
      {
        ColumnAppend(old(since), args, k);
        SumAppend(Column(old(since), k), ValueOf(args, k));
        ColumnAppend(old(inputs), args, k);
        SumAppend(Column(old(inputs), k), ValueOf(args, k));
        if k !in Names(args) { ValueOfAbsent(args, k); }
      }
    }

    /** One call of the wrapped function; at the end of a window its sums are delivered. */
    method Call(args: Data, now: real) returns (r: Option<map<string, real>>)
      requires Valid() && Items(args)
      modifies this
      ensures Valid() && inputs == old(inputs) + [args]
      ensures r.Some? <==> now > old(expire)
      ensures r.Some? ==>
        && (forall k :: At(r.value, k) == Sum(Column(old(since) + [args], k)))
        && since == [] && delivered == old(delivered) + [r.value] && expire == now + ttl
      ensures r.None? ==> since == old(since) + [args] && delivered == old(delivered) && expire == old(expire)
    {
      Update(args);
      if now > expire {
        expire := now + ttl;
        forall k ensures SumAt(delivered + [data], k) == SumAt(delivered, k) + At(data, k) {
          assert (delivered + [data])[..|delivered|] == delivered;
        }
        delivered := delivered + [data];
        r := Some(data);
        data, since := map[], [];
      } else {
        r := None;
      }
    }
  }

  function SumAt(ds: seq<map<string, real>>, k: string): real {
    if ds == [] then 0.0 else SumAt(ds[..|ds| - 1], k) + At(ds[|ds| - 1], k)
  }
}
