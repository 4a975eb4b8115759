/** The statistics of `BenchSuite::Log`: Welford's online mean and second moment, over the reals,
    against their definitions on the whole sample. */
module Welford {

  datatype PhaseResult = PhaseResult(time: real, rate: real, period: real)

  datatype RunResult = RunResult(init: PhaseResult, run: PhaseResult)

  /** The six numbers of a result. */
  datatype Field = InitTime | InitRate | InitPeriod | RunTime | RunRate | RunPeriod

  function Get(r: RunResult, f: Field): real {
    match f
    case InitTime => r.init.time
    case InitRate => r.init.rate
    case InitPeriod => r.init.period
    case RunTime => r.run.time
    case RunRate => r.run.rate
    case RunPeriod => r.run.period
  }

  function Samples(results: seq<RunResult>, f: Field): seq<real> {
    seq(|results|, i requires 0 <= i < |results| => Get(results[i], f))
  }

  function Sum(xs: seq<real>): real {
    if xs == [] then 0.0 else Sum(xs[..|xs| - 1]) + xs[|xs| - 1]
  }

  // ----- products

  // Products are functions here so that a proof can treat them as atoms and use one law at a time.
  function Times(a: real, b: real): real {
    a * b
  }

  function Square(a: real): real {
    a * a
  }

  lemma TimesPlus(a: real, b: real, c: real)
    ensures Times(a, b + c) == Times(a, b) + Times(a, c)
  {
  }

  lemma PlusTimes(a: real, b: real, c: real)
    ensures Times(a + b, c) == Times(a, c) + Times(b, c)
  {
  }

  lemma TimesUnits(a: real)
    ensures Times(1.0, a) == a && Times(0.0, a) == 0.0 && Times(a, 0.0) == 0.0
  {
  }

  lemma SquarePlus(a: real, b: real)
    ensures Square(a + b) == Square(a) + 2.0 * Times(a, b) + Square(b)
  {
  }

  lemma SquareSigns(a: real)
    ensures Square(a) >= 0.0 && (Square(a) == 0.0 <==> a == 0.0) && Square(-a) == Square(a)
  {
    assert Square(a) == Times(a, a) == Times(-a, -a);
    TimesSigns(a, a);
    TimesSigns(-a, -a);
    hide Times;
  }

  lemma TimesSigns(a: real, b: real)
    ensures a > 0.0 && b > 0.0 ==> Times(a, b) > 0.0
  {
  }

  // ----- mean and deviations

  predicate IsMean(xs: seq<real>, mean: real) {
    Times(|xs| as real, mean) == Sum(xs)
  }

  /** Sum of squared deviations from `m`. */
  function Deviations(xs: seq<real>, m: real): real {
    if xs == [] then 0.0 else Deviations(xs[..|xs| - 1], m) + Square(xs[|xs| - 1] - m)
  }

  lemma {:induction false} DeviationsNonNegative(xs: seq<real>, m: real)
    ensures Deviations(xs, m) >= 0.0
    decreases |xs|
  {
    hide Square;
    if xs != [] {
      DeviationsNonNegative(xs[..|xs| - 1], m);
      SquareSigns(xs[|xs| - 1] - m);
    }
  }

  /** How far the sum is from that of as many samples equal to `a`. */
  function Excess(xs: seq<real>, a: real): real {
    Sum(xs) - Times(|xs| as real, a)
  }

  lemma ExcessSnoc(xs: seq<real>, a: real)
    requires xs != []
    ensures Excess(xs, a) == Excess(xs[..|xs| - 1], a) + (xs[|xs| - 1] - a)
  {
    hide Times;
    PlusTimes((|xs| - 1) as real, 1.0, a);
    TimesUnits(a);
  }

  /** Moving the reference point from `a` to `a - t`. */
  lemma {:induction false} DeviationsShift(xs: seq<real>, a: real, t: real)
    ensures Deviations(xs, a - t)
         == Deviations(xs, a) + 2.0 * Times(t, Excess(xs, a)) + Times(|xs| as real, Square(t))
    decreases |xs|
  {
    hide Times, Square;
    if xs == [] {
      TimesUnits(a);
      TimesUnits(t);
      TimesUnits(Square(t));
    } else {
      var n := |xs| - 1;
      var y := xs[n] - a;
      DeviationsShift(xs[..n], a, t);
      ExcessSnoc(xs, a);
      hide Excess, Sum;
      TimesPlus(t, Excess(xs[..n], a), y);
      SquarePlus(t, y);
      PlusTimes(n as real, 1.0, Square(t));
      TimesUnits(Square(t));
      assert xs[n] - (a - t) == t + y;
    }
  }

  lemma ShiftFromMean(xs: seq<real>, mean: real, m: real)
    requires IsMean(xs, mean)
    ensures Deviations(xs, m) == Deviations(xs, mean) + Times(|xs| as real, Square(mean - m))
  {
    hide Times, Square, Deviations, Sum;
    DeviationsShift(xs, mean, mean - m);
    assert Excess(xs, mean) == 0.0;
    TimesUnits(mean - m);
    assert mean - (mean - m) == m;
  }

  /** Around the mean, and nowhere else, the deviations are smallest. */
  lemma MeanMinimises(xs: seq<real>, mean: real, m: real)
    requires xs != [] && IsMean(xs, mean)
    ensures Deviations(xs, mean) <= Deviations(xs, m)
    ensures Deviations(xs, mean) == Deviations(xs, m) ==> m == mean
  {
    hide Times, Square, Deviations, IsMean;
    ShiftFromMean(xs, mean, m);
    SquareSigns(mean - m);
    TimesUnits(|xs| as real);
    TimesSigns(|xs| as real, Square(mean - m));
  }

  // ----- the online update

  function NextAverage(x: real, average: real, count: real): real
    requires count != 0.0
  {
    average + (x - average) / count
  }

  function NextMoment(x: real, average: real, moment2: real, count: real): real
    requires count != 0.0
  {
    moment2 + Times(x - average, x - NextAverage(x, average, count))
  }

  lemma Quotient(d: real, count: real)
    requires count != 0.0
    ensures Times(count, d / count) == d
  {
  }

  /** The deviations with one more sample. */
  lemma DeviationsSnoc(xs: seq<real>, x: real, m: real)
    ensures Deviations(xs + [x], m) == Deviations(xs, m) + Square(x - m)
    ensures Sum(xs + [x]) == Sum(xs) + x
  {
    hide Square;
    assert (xs + [x])[..|xs|] == xs;
  }

  /** The new average moves by `q`, one `(k + 1)`-th of the way to the new sample. */
  lemma NextMean(xs: seq<real>, x: real, average: real, q: real)
    requires IsMean(xs, average) && Times(|xs| as real + 1.0, q) == x - average
    ensures IsMean(xs + [x], average + q)
  {
    hide Times, Sum, Deviations;
    var k := |xs| as real;
    DeviationsSnoc(xs, x, 0.0);
    TimesPlus(k + 1.0, average, q);
    PlusTimes(k, 1.0, average);
    TimesUnits(average);
  }

  /** `d` is the distance of the new sample from the old average and `d - q` that from the new one. */
  lemma MomentsAgree(k: real, d: real, q: real)
    requires Times(k + 1.0, q) == d
    ensures Times(d, d - q) == Times(k, Square(q)) + Square(d - q)
  {
    PlusTimes(k, 1.0, q);
    TimesUnits(q);
    var e := Times(k, q);
    assert e == d - q;
    Associate(k, q, e);
    PlusTimes(e, q, e);
  }

  lemma Associate(k: real, q: real, e: real)
    requires e == Times(k, q)
    ensures Times(q, e) == Times(k, Square(q)) && Times(e, e) == Square(e)
  {
    assert q * (k * q) == k * (q * q);
  }

  /** One application of the ACCUMULATE macro: from the mean and second moment of `xs` to those of
      `xs` with `x` behind. */
  lemma WelfordStep(xs: seq<real>, x: real, average: real, moment2: real)
    requires IsMean(xs, average) && moment2 == Deviations(xs, average)
    ensures var count := |xs| as real + 1.0;
            && IsMean(xs + [x], NextAverage(x, average, count))
            && NextMoment(x, average, moment2, count) == Deviations(xs + [x], NextAverage(x, average, count))
  {
    hide Deviations, Sum, Times, Square, IsMean;
    var k := |xs| as real;
    var d := x - average;
    var q := d / (k + 1.0);
    Quotient(d, k + 1.0);
    NextMean(xs, x, average, q);
    NextDeviations(xs, x, average, q);
  }

  lemma NextDeviations(xs: seq<real>, x: real, average: real, q: real)
    requires IsMean(xs, average) && Times(|xs| as real + 1.0, q) == x - average
    ensures Deviations(xs + [x], average + q) == Deviations(xs, average) + Times(x - average, x - (average + q))
  {
    hide Deviations, Sum, Times, Square, IsMean;
    DeviationsSnoc(xs, x, average + q);
    ShiftFromMean(xs, average, average + q);
    assert average - (average + q) == -q && x - (average + q) == (x - average) - q;
    SquareSigns(q);
    MomentsAgree(|xs| as real, x - average, q);
  }

  /** `average` and `moment2` are those of the field over these results. */
  predicate Tracks(results: seq<RunResult>, f: Field, average: real, moment2: real) {
    IsMean(Samples(results, f), average) && moment2 == Deviations(Samples(results, f), average)
  }

  lemma TracksStart(r: RunResult, f: Field)
    ensures Tracks([], f, Get(r, f), 0.0)
  {
    TimesUnits(Get(r, f));
    hide Times, Square, Get;
  }

  lemma TracksMore(results: seq<RunResult>, n: nat, f: Field, average: real, moment2: real)
    requires n < |results| && Tracks(results[..n], f, average, moment2)
    ensures Tracks(results[..n + 1], f, NextAverage(Get(results[n], f), average, n as real + 1.0),
                   NextMoment(Get(results[n], f), average, moment2, n as real + 1.0))
  {
    hide IsMean, Deviations, NextAverage, NextMoment;
    assert Samples(results[..n + 1], f) == Samples(results[..n], f) + [Get(results[n], f)];
    hide Get;
    WelfordStep(Samples(results[..n], f), Get(results[n], f), average, moment2);
  }

  /** A tracked field holds the mean, and divided by the number of samples the variance. */
  lemma TracksEnd(results: seq<RunResult>, f: Field, average: real, moment2: real)
    requires Tracks(results, f, average, moment2) && results != []
    ensures average == Sum(Samples(results, f)) / |results| as real
    ensures moment2 / |results| as real == Deviations(Samples(results, f), average) / |results| as real >= 0.0
  {
    hide Sum, Deviations, Times, Square, Get;
    DeviationsNonNegative(Samples(results, f), average);
    Divide(average, |results| as real, Sum(Samples(results, f)));
    DivideNonNegative(moment2, |results| as real);
  }

  lemma Divide(a: real, k: real, s: real)
    requires k > 0.0 && Times(k, a) == s
    ensures a == s / k
  {
  }

  lemma DivideNonNegative(m: real, k: real)
    requires k > 0.0 && m >= 0.0
    ensures m / k >= 0.0
  {
  }

  class BenchSuite {
    var m_results: seq<RunResult>

    /** The macro for one field. */
    static method Accumulate(x: real, average: real, moment2: real, count: real) returns (average': real, moment2': real)
      requires count != 0.0
      ensures average' == NextAverage(x, average, count)
      ensures moment2' == NextMoment(x, average, moment2, count)
    {
      var deltaPre := x - average;
      average' := average + deltaPre / count;
      var deltaPost := x - average';
      moment2' := moment2 + deltaPre * deltaPost;
    }

    /** The six applications of the macro in one iteration. */
    static method AccumulateAll(run: RunResult, average: RunResult, moment2: RunResult, count: real)
      returns (average': RunResult, moment2': RunResult)
      requires count != 0.0
      ensures forall f: Field :: Get(average', f) == NextAverage(Get(run, f), Get(average, f), count)
      ensures forall f: Field :: Get(moment2', f) == NextMoment(Get(run, f), Get(average, f), Get(moment2, f), count)
    {
      hide NextAverage, NextMoment;
      var a1, m1 := Accumulate(run.init.time, average.init.time, moment2.init.time, count);
      var a2, m2 := Accumulate(run.init.rate, average.init.rate, moment2.init.rate, count);
      var a3, m3 := Accumulate(run.init.period, average.init.period, moment2.init.period, count);
      var a4, m4 := Accumulate(run.run.time, average.run.time, moment2.run.time, count);
      var a5, m5 := Accumulate(run.run.rate, average.run.rate, moment2.run.rate, count);
      var a6, m6 := Accumulate(run.run.period, average.run.period, moment2.run.period, count);
      average' := RunResult(PhaseResult(a1, a2, a3), PhaseResult(a4, a5, a6));
      moment2' := RunResult(PhaseResult(m1, m2, m3), PhaseResult(m4, m5, m6));
    }

    static function Roots(m: RunResult, k: real, sqrt: real -> real): (r: RunResult)
      requires k != 0.0
      ensures forall f: Field :: Get(r, f) == sqrt(Get(m, f) / k)
    {
      RunResult(PhaseResult(sqrt(m.init.time / k), sqrt(m.init.rate / k), sqrt(m.init.period / k)),
                PhaseResult(sqrt(m.run.time / k), sqrt(m.run.rate / k), sqrt(m.run.period / k)))
    }

    /** The mean squared deviation of one field from its average. */
    ghost function Variance(f: Field, average: real): real
      requires m_results != []
      reads this
    {
      Deviations(Samples(m_results, f), average) / |m_results| as real
    }

    /** The loop of `Log` and the standard deviations after it; with fewer than two results nothing is
        computed. `sqrt` stands for `std::sqrt`, which is never given a negative number. */
    method Log(sqrt: real -> real) returns (logged: bool, average: RunResult, stdev: RunResult)
      ensures logged <==> |m_results| >= 2
      ensures logged ==> forall f: Field ::
                Get(average, f) == Sum(Samples(m_results, f)) / |m_results| as real
      ensures logged ==> forall f: Field ::
                Get(stdev, f) == sqrt(Variance(f, Get(average, f))) && Variance(f, Get(average, f)) >= 0.0
    {
      var zero := PhaseResult(0.0, 0.0, 0.0);
      average, stdev := RunResult(zero, zero), RunResult(zero, zero);
      if |m_results| < 2 {
        return false, average, stdev;
      }
      average := m_results[0];
      var moment2 := RunResult(zero, zero);
      forall f: Field ensures Tracks(m_results[..0], f, Get(average, f), Get(moment2, f)) {
        TracksStart(average, f);
        assert m_results[..0] == [];
      }
      hide Tracks, NextAverage, NextMoment, Sum, Deviations, Get, Times, Square;
      var n := 0;
      while n < |m_results|
        invariant n <= |m_results|
        invariant forall f: Field :: Tracks(m_results[..n], f, Get(average, f), Get(moment2, f))
      {
        ghost var average0, moment0 := average, moment2;
        average, moment2 := AccumulateAll(m_results[n], average, moment2, n as real + 1.0);
        forall f: Field ensures Tracks(m_results[..n + 1], f, Get(average, f), Get(moment2, f)) {
          TracksMore(m_results, n, f, Get(average0, f), Get(moment0, f));
        }
        n := n + 1;
      }
      assert m_results[..n] == m_results;
      stdev := Roots(moment2, n as real, sqrt);
      logged := true;
      forall f: Field
        ensures Get(average, f) == Sum(Samples(m_results, f)) / n as real
        ensures Get(moment2, f) / n as real == Variance(f, Get(average, f)) >= 0.0
      {
        TracksEnd(m_results, f, Get(average, f), Get(moment2, f));
      }
    }
  }
}
