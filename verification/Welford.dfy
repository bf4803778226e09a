/**
 The statistics of `BenchSuite::Log` in utils/bench-scheduler.cc: Welford's one-pass average and second
 moment, accumulated for six fields of every result.

 `IsMoments` is the two-pass definition. The loop is proved to reach it, which makes the result
 non-negative, independent of the order of the runs, and equal to the textbook formula that the
 one-pass form is there to avoid.
 */
module Welford {
  import opened Basics
  import opened Bags

  datatype Phase = Phase(time: real, rate: real, period: real)

  datatype Result = Result(init: Phase, run: Phase)

  datatype Statistics = Statistics(average: Result, moment2: Result, n: nat)

  function InitTime(r: Result): real { r.init.time }
  function InitRate(r: Result): real { r.init.rate }
  function InitPeriod(r: Result): real { r.init.period }
  function RunTime(r: Result): real { r.run.time }
  function RunRate(r: Result): real { r.run.rate }
  function RunPeriod(r: Result): real { r.run.period }

  lemma Measurements(r: Result)
    ensures InitTime(r) == r.init.time && InitRate(r) == r.init.rate && InitPeriod(r) == r.init.period
    ensures RunTime(r) == r.run.time && RunRate(r) == r.run.rate && RunPeriod(r) == r.run.period
  {
  }

  // ---------- the two-pass definition ----------

  ghost function SquaredDeviations(f: Result -> real, rs: seq<Result>, center: real): real {
    SumOf((r: Result) => (f(r) - center) * (f(r) - center), rs)
  }

  /** `average` is the mean of the field, `moment2` the sum of the squared deviations from that mean. */
  ghost predicate IsMoments(f: Result -> real, rs: seq<Result>, average: real, moment2: real) {
    average * |rs| as real == SumOf(f, rs) && moment2 == SquaredDeviations(f, rs, average)
  }

  ghost predicate AllMoments(rs: seq<Result>, average: Result, moment2: Result) {
    && IsMoments(InitTime, rs, average.init.time, moment2.init.time)
    && IsMoments(InitRate, rs, average.init.rate, moment2.init.rate)
    && IsMoments(InitPeriod, rs, average.init.period, moment2.init.period)
    && IsMoments(RunTime, rs, average.run.time, moment2.run.time)
    && IsMoments(RunRate, rs, average.run.rate, moment2.run.rate)
    && IsMoments(RunPeriod, rs, average.run.period, moment2.run.period)
  }

  // ---------- one step ----------

  /** The squared deviations from `c`, given those from `a`, the sum `s` and the number `n` of the samples. */
  ghost function Shifted(deviations: real, s: real, n: real, a: real, c: real): real {
    deviations + 2.0 * ((a - c) * (s - a * n)) + ((a - c) * (a - c)) * n
  }

  lemma Distribute(x: real, y: real, z: real)
    ensures x * (y + z) == x * y + x * z
  {
  }

  lemma SquareOfSum(d: real, e: real)
    ensures (d + e) * (d + e) == d * d + 2.0 * (d * e) + e * e
  {
    Distribute(d + e, d, e);
    Distribute(d, d, e);
    Distribute(e, d, e);
  }

  /** One more sample `x`. */
  lemma ShiftOne(deviations: real, s: real, n: real, a: real, c: real, x: real)
    ensures Shifted(deviations, s, n, a, c) + (x - c) * (x - c)
         == Shifted(deviations + (x - a) * (x - a), s + x, n + 1.0, a, c)
  {
    var d, e, off := a - c, x - a, s - a * n;
    SquareOfSum(d, e);
    assert x - c == d + e;
    Distribute(a, n, 1.0);
    assert s + x - a * (n + 1.0) == off + e;
    Distribute(d, off, e);
    Distribute(d * d, n, 1.0);
  }

  /** The sum of squared deviations from `c` in terms of that from `a`. */
  ghost predicate Shifts(f: Result -> real, rs: seq<Result>, a: real, c: real) {
    SquaredDeviations(f, rs, c) == Shifted(SquaredDeviations(f, rs, a), SumOf(f, rs), |rs| as real, a, c)
  }

  lemma DeviationsNext(f: Result -> real, rs: seq<Result>, center: real, x: real, square: real)
    requires rs != [] && x == f(rs[|rs| - 1]) && square == (x - center) * (x - center)
    ensures SquaredDeviations(f, rs, center) == SquaredDeviations(f, rs[..|rs| - 1], center) + square
  {
  }

  /** One more sample, with its two squares given. */
  lemma ShiftGiven(atC: real, atA: real, s: real, n: real, a: real, c: real, x: real, fromC: real, fromA: real)
    requires fromC == (x - c) * (x - c) && fromA == (x - a) * (x - a)
    requires atC == Shifted(atA, s, n, a, c)
    ensures atC + fromC == Shifted(atA + fromA, s + x, n + 1.0, a, c)
  {
    ShiftOne(atA, s, n, a, c, x);
  }

  lemma CenterNext(f: Result -> real, rs: seq<Result>, a: real, c: real, x: real, fromC: real, fromA: real)
    requires rs != [] && x == f(rs[|rs| - 1]) && Shifts(f, rs[..|rs| - 1], a, c)
    requires fromC == (x - c) * (x - c) && fromA == (x - a) * (x - a)
    ensures Shifts(f, rs, a, c)
  {
    var front := rs[..|rs| - 1];
    ShiftGiven(SquaredDeviations(f, front, c), SquaredDeviations(f, front, a), SumOf(f, front), |front| as real,
               a, c, x, fromC, fromA);
    DeviationsNext(f, rs, a, x, fromA);
    DeviationsNext(f, rs, c, x, fromC);
  }

  lemma {:induction false} ShiftCenter(f: Result -> real, rs: seq<Result>, a: real, c: real)
    ensures Shifts(f, rs, a, c)
  {
    if rs != [] {
      var x := f(rs[|rs| - 1]);
      ShiftCenter(f, rs[..|rs| - 1], a, c);
      CenterNext(f, rs, a, c, x, (x - c) * (x - c), (x - a) * (x - a));
    }
  }

  /** Welford's identity: the step of the average raises the second moment by `deltaPre * deltaPost`. */
  lemma WelfordStep(deviations: real, s: real, n: real, count: real, average: real, x: real, average': real)
    requires n > 0.0 && count == n + 1.0 && average * n == s && average' == average + (x - average) / count
    ensures average' * count == s + x
    ensures Shifted(deviations, s, n, average, average') + (x - average') * (x - average')
         == deviations + (x - average) * (x - average')
  {
    var d := x - average;
    var e := d / (n + 1.0);
    assert e * (n + 1.0) == d;
    Distribute(e, n, 1.0);
    assert x - average' == e * n;
    Distribute(average', n, 1.0);
    Distribute(n, average, e);
    assert average' * n == average * n + e * n;
    var p := e * n;
    assert (average - average') * (average - average') == e * e;
    assert (e * e) * n == e * p;
    Distribute(p, p, e);
    assert p * p + e * p == d * p;
  }

  lemma Appended(f: Result -> real, rs: seq<Result>, r: Result)
    ensures (rs + [r])[..|rs + [r]| - 1] == rs && |rs + [r]| == |rs| + 1
    ensures SumOf(f, rs + [r]) == SumOf(f, rs) + f(r)
  {
    assert (rs + [r])[..|rs + [r]| - 1] == rs;
  }

  lemma DeviationsAppended(f: Result -> real, rs: seq<Result>, r: Result, average: real, square: real)
    requires square == (f(r) - average) * (f(r) - average)
    ensures SquaredDeviations(f, rs + [r], average) == SquaredDeviations(f, rs, average) + square
  {
    Appended(f, rs, r);
    DeviationsNext(f, rs + [r], average, f(r), square);
  }

  lemma MomentsNext(f: Result -> real, rs: seq<Result>, r: Result, average: real, moment2: real)
    requires average * (|rs| + 1) as real == SumOf(f, rs) + f(r)
    requires moment2 == SquaredDeviations(f, rs + [r], average)
    ensures IsMoments(f, rs + [r], average, moment2)
  {
    Appended(f, rs, r);
  }

  lemma DeviationsStep(f: Result -> real, rs: seq<Result>, r: Result, average: real, average': real, square: real, product: real)
    requires Shifts(f, rs, average, average')
    requires SquaredDeviations(f, rs + [r], average') == SquaredDeviations(f, rs, average') + square
    requires Shifted(SquaredDeviations(f, rs, average), SumOf(f, rs), |rs| as real, average, average') + square
          == SquaredDeviations(f, rs, average) + product
    ensures SquaredDeviations(f, rs + [r], average') == SquaredDeviations(f, rs, average) + product
  {
  }

  /** The same of the samples so far, with the two products given. */
  lemma WelfordGiven(f: Result -> real, rs: seq<Result>, x: real, average: real, moment2: real, average': real,
                     square: real, product: real)
    requires rs != [] && IsMoments(f, rs, average, moment2)
    requires average' == average + (x - average) / (|rs| + 1) as real
    requires square == (x - average') * (x - average') && product == (x - average) * (x - average')
    ensures average' * (|rs| + 1) as real == SumOf(f, rs) + x
    ensures Shifted(SquaredDeviations(f, rs, average), SumOf(f, rs), |rs| as real, average, average') + square
         == SquaredDeviations(f, rs, average) + product
  {
    WelfordStep(moment2, SumOf(f, rs), |rs| as real, (|rs| + 1) as real, average, x, average');
  }

  /** One step. */
  lemma StepGiven(f: Result -> real, rs: seq<Result>, r: Result, x: real, average: real, moment2: real, average': real,
                  square: real, product: real)
    requires rs != [] && IsMoments(f, rs, average, moment2) && x == f(r)
    requires average' == average + (x - average) / (|rs| + 1) as real
    requires square == (x - average') * (x - average') && product == (x - average) * (x - average')
    ensures SquaredDeviations(f, rs + [r], average') == moment2 + product
    ensures average' * (|rs| + 1) as real == SumOf(f, rs) + x
  {
    WelfordGiven(f, rs, x, average, moment2, average', square, product);
    DeviationsAppended(f, rs, r, average', square);
    ShiftCenter(f, rs, average, average');
    DeviationsStep(f, rs, r, average, average', square, product);
  }

  lemma Step(f: Result -> real, rs: seq<Result>, r: Result, average: real, moment2: real, average': real, moment2': real)
    requires rs != [] && IsMoments(f, rs, average, moment2)
    requires average' == average + (f(r) - average) / (|rs| + 1) as real
    requires moment2' == moment2 + (f(r) - average) * (f(r) - average')
    ensures IsMoments(f, rs + [r], average', moment2')
  {
    StepGiven(f, rs, r, f(r), average, moment2, average',
              (f(r) - average') * (f(r) - average'), (f(r) - average) * (f(r) - average'));
    MomentsNext(f, rs, r, average', moment2');
  }

  /** The accumulator starts out as the first sample, so that sample changes nothing. */
  lemma FirstSample(f: Result -> real, r: Result, average: real, moment2: real)
    requires average == f(r) + (f(r) - f(r)) / 1.0 && moment2 == 0.0 + (f(r) - f(r)) * (f(r) - average)
    ensures IsMoments(f, [r], average, moment2)
  {
    assert average == f(r) && moment2 == 0.0;
    SumOfOne(f, r);
    SumOfOne((q: Result) => (f(q) - average) * (f(q) - average), r);
  }

  // ---------- the code ----------

  /** The state of one accumulator after `n` samples; it starts out as the first sample. */
  ghost predicate Accumulated(f: Result -> real, rs: seq<Result>, n: nat, average: real, moment2: real)
    requires n <= |rs| && rs != []
  {
    if n == 0 then average == f(rs[0]) && moment2 == 0.0 else IsMoments(f, rs[..n], average, moment2)
  }

  /** The ACCUMULATE macro. */
  method Accumulate(ghost f: Result -> real, ghost rs: seq<Result>, x: real, n: nat, average0: real, moment20: real)
    returns (average: real, moment2: real)
    requires n < |rs| && x == f(rs[n]) && Accumulated(f, rs, n, average0, moment20)
    ensures Accumulated(f, rs, n + 1, average, moment2)
  {
    average, moment2 := average0, moment20;
    var count := n + 1;
    var deltaPre := x - average;
    average := average + deltaPre / count as real;
    var deltaPost := x - average;
    moment2 := moment2 + deltaPre * deltaPost;
    NextAccumulated(f, rs, n, average0, moment20, average, moment2);
  }

  lemma NextAccumulated(f: Result -> real, rs: seq<Result>, n: nat, average: real, moment2: real, average': real, moment2': real)
    requires n < |rs| && Accumulated(f, rs, n, average, moment2)
    requires average' == average + (f(rs[n]) - average) / (n + 1) as real
    requires moment2' == moment2 + (f(rs[n]) - average) * (f(rs[n]) - average')
    ensures Accumulated(f, rs, n + 1, average', moment2')
  {
    assert rs[..n + 1] == rs[..n] + [rs[n]];
    if n == 0 {
      assert rs[..1] == [rs[0]];
      FirstSample(f, rs[0], average', moment2');
    } else {
      Step(f, rs[..n], rs[n], average, moment2, average', moment2');
    }
  }

  class BenchSuite {
    var results: seq<Result>

    constructor (results: seq<Result>)
      ensures this.results == results
    {
      this.results := results;
    }

    /** Nothing is reported for fewer than two results. */
    method Log() returns (s: Option<Statistics>)
      ensures s == None <==> |results| < 2
      ensures s.Some? ==> s.value.n == |results| && AllMoments(results, s.value.average, s.value.moment2)
      ensures s.Some? ==>
                var average, moment2 := s.value.average, s.value.moment2;
                && IsMoments(InitTime, results, average.init.time, moment2.init.time)
                && IsMoments(InitRate, results, average.init.rate, moment2.init.rate)
                && IsMoments(InitPeriod, results, average.init.period, moment2.init.period)
                && IsMoments(RunTime, results, average.run.time, moment2.run.time)
                && IsMoments(RunRate, results, average.run.rate, moment2.run.rate)
                && IsMoments(RunPeriod, results, average.run.period, moment2.run.period)
    {
      if |results| < 2 {
        return None;
      }
      var n := 0;
      var average := results[0];
      var moment2 := Result(Phase(0.0, 0.0, 0.0), Phase(0.0, 0.0, 0.0));
      while n < |results|
        invariant n <= |results|
        invariant Accumulated(InitTime, results, n, average.init.time, moment2.init.time)
        invariant Accumulated(InitRate, results, n, average.init.rate, moment2.init.rate)
        invariant Accumulated(InitPeriod, results, n, average.init.period, moment2.init.period)
        invariant Accumulated(RunTime, results, n, average.run.time, moment2.run.time)
        invariant Accumulated(RunRate, results, n, average.run.rate, moment2.run.rate)
        invariant Accumulated(RunPeriod, results, n, average.run.period, moment2.run.period)
      {
        var run := results[n];
        var a1, m1 := Accumulate(InitTime, results, run.init.time, n, average.init.time, moment2.init.time);
        var a2, m2 := Accumulate(InitRate, results, run.init.rate, n, average.init.rate, moment2.init.rate);
        var a3, m3 := Accumulate(InitPeriod, results, run.init.period, n, average.init.period, moment2.init.period);
        var a4, m4 := Accumulate(RunTime, results, run.run.time, n, average.run.time, moment2.run.time);
        var a5, m5 := Accumulate(RunRate, results, run.run.rate, n, average.run.rate, moment2.run.rate);
        var a6, m6 := Accumulate(RunPeriod, results, run.run.period, n, average.run.period, moment2.run.period);
        average := Result(Phase(a1, a2, a3), Phase(a4, a5, a6));
        moment2 := Result(Phase(m1, m2, m3), Phase(m4, m5, m6));
        n := n + 1;
      }
      assert results[..|results|] == results;
      return Some(Statistics(average, moment2, n));
    }
  }

  // ---------- what the moments mean ----------

  lemma ProductPositive(x: real, y: real, product: real)
    requires product == x * y && x > 0.0 && y > 0.0
    ensures product > 0.0
  {
  }

  lemma SquareSign(x: real, square: real)
    requires square == x * x
    ensures square >= 0.0
    ensures square == 0.0 <==> x == 0.0
  {
    if x > 0.0 {
      ProductPositive(x, x, square);
    } else if x < 0.0 {
      ProductPositive(-x, -x, square);
    } else {
    }
  }

  /** The second moment is never negative, and 0 only for equal samples. */
  lemma {:induction false} DeviationsNonNegative(f: Result -> real, rs: seq<Result>, center: real)
    ensures SquaredDeviations(f, rs, center) >= 0.0
    ensures SquaredDeviations(f, rs, center) == 0.0 <==> forall r :: r in rs ==> f(r) == center
  {
    if rs != [] {
      var front, last := rs[..|rs| - 1], rs[|rs| - 1];
      assert rs == front + [last];
      DeviationsNonNegative(f, front, center);
      SquareSign(f(last) - center, SquaredDeviations(f, rs, center) - SquaredDeviations(f, front, center));
    }
  }

  lemma MomentsNonNegative(f: Result -> real, rs: seq<Result>, average: real, moment2: real)
    requires IsMoments(f, rs, average, moment2)
    ensures moment2 >= 0.0
    ensures moment2 == 0.0 <==> forall r :: r in rs ==> f(r) == average
  {
    DeviationsNonNegative(f, rs, average);
  }

  lemma MeanUnique(a: real, b: real, n: real)
    requires n > 0.0 && a * n == b * n
    ensures a == b
  {
    assert (a - b) * n == 0.0;
  }

  /** The order of the runs does not matter. */
  lemma MomentsOrderFree(f: Result -> real, rs: seq<Result>, rs': seq<Result>,
                         average: real, moment2: real, average': real, moment2': real)
    requires multiset(rs) == multiset(rs') && rs != []
    requires IsMoments(f, rs, average, moment2) && IsMoments(f, rs', average', moment2')
    ensures average == average' && moment2 == moment2'
  {
    assert |rs| == |multiset(rs)| == |multiset(rs')| == |rs'|;
    SumOrderFree(f, rs, rs');
    MeanUnique(average, average', |rs| as real);
    SumOrderFree((r: Result) => (f(r) - average) * (f(r) - average), rs, rs');
  }

  /** No other centre is closer to the samples than the average. */
  lemma AverageMinimizes(f: Result -> real, rs: seq<Result>, average: real, moment2: real, center: real)
    requires IsMoments(f, rs, average, moment2)
    ensures moment2 <= SquaredDeviations(f, rs, center)
  {
    ShiftCenter(f, rs, average, center);
    ShiftedFromMean(moment2, SumOf(f, rs), |rs| as real, average, center);
  }

  /** Away from the mean the sum of squared deviations can only grow. */
  lemma ShiftedFromMean(deviations: real, s: real, n: real, a: real, c: real)
    requires a * n == s && n >= 0.0
    ensures Shifted(deviations, s, n, a, c) >= deviations
  {
    var square := (a - c) * (a - c);
    SquareSign(a - c, square);
    ProductNonNegative(square, n, square * n);
    assert (a - c) * (s - a * n) == 0.0;
  }

  lemma ProductNonNegative(x: real, y: real, product: real)
    requires product == x * y && x >= 0.0 && y >= 0.0
    ensures product >= 0.0
  {
  }

  /** The textbook formula, whose subtraction of large numbers the one-pass form avoids. */
  lemma TextbookFormula(f: Result -> real, rs: seq<Result>, average: real, moment2: real)
    requires IsMoments(f, rs, average, moment2)
    ensures moment2 == SumOf((r: Result) => f(r) * f(r), rs) - (average * average) * |rs| as real
  {
    ShiftCenter(f, rs, average, 0.0);
    SumEqual((r: Result) => (f(r) - 0.0) * (f(r) - 0.0), (r: Result) => f(r) * f(r), rs);
    assert average - 0.0 == average && average * (SumOf(f, rs) - average * |rs| as real) == 0.0;
  }
}
