/**
 Jain's fairness index as examples/tcp/dctcp-example.cc computes it: two 64-bit sums over the byte
 counters of a group of flows, and the quotient of two 64-bit products.

 `IndexIsFormulaIff` says exactly when the printed index is that of the formula although its operands
 wrap around, and `ExactIff` when they do not. Where nothing wraps, the index lies between 1/n and 1 and
 reaches those ends as `IndexBounds` describes; `FairFlowsWrap` is a group of equal flows whose index is
 lost, and `WrongIndexPrinted` one that gets a wrong index.
 */
module Fairness {
  import opened Basics
  import MixedRadix

  const TWO_64: nat := 0x1_0000_0000_0000_0000

  const UINT32_MAX: nat := 0xFFFF_FFFF

  /** Unsigned 64-bit arithmetic. */
  function Wrap(x: nat): (r: nat)
    ensures r < TWO_64
    ensures x < TWO_64 ==> r == x
  {
    x % TWO_64
  }

  function Square(x: nat): nat {
    x * x
  }

  ghost function Sum(flows: seq<nat>): nat {
    if flows == [] then 0 else Sum(flows[..|flows| - 1]) + flows[|flows| - 1]
  }

  ghost function SumSquares(flows: seq<nat>): nat {
    if flows == [] then 0 else SumSquares(flows[..|flows| - 1]) + Square(flows[|flows| - 1])
  }

  ghost predicate AllEqual(flows: seq<nat>) {
    forall i, j :: 0 <= i < |flows| && 0 <= j < |flows| ==> flows[i] == flows[j]
  }

  /** At most one flow got anything through. */
  ghost predicate AtMostOneActive(flows: seq<nat>) {
    forall i, j :: 0 <= i < j < |flows| ==> flows[i] == 0 || flows[j] == 0
  }

  // ---------- the code ----------

  /** The two operands of the quotient, and the quotient unless the divisor is zero. */
  datatype Index = Index(numerator: nat, denominator: nat, fairness: Option<real>)

  /** The average throughput of a flow in Mbps: a 64-bit number of bits over the length of the window. */
  function AverageMbps(sum: nat, n: nat, seconds: real): real
    requires n > 0 && seconds > 0.0
  {
    Wrap(sum / n * 8) as real / seconds / 1000000.0
  }

  /** Up to the division into whole bytes, the average times the flows and the seconds is what was received,
      in bits, unless the bits of one flow wrap, for which the groups have too many flows. */
  lemma AverageIs(sum: nat, n: nat, seconds: real)
    requires n > 0 && sum < TWO_64 && seconds > 0.0
    requires n >= 8 || sum / n * 8 < TWO_64
    ensures var bits := AverageMbps(sum, n, seconds) * seconds * 1000000.0;
            (8 * sum - 8 * n) as real < n as real * bits <= (8 * sum) as real
  {
    var q := sum / n;
    ShareOf(sum, n);
    RemainderBelow(sum, n);
    if n >= 8 {
      MixedRadix.MulMonotone(8, n, q);
    }
    assert q * 8 < TWO_64;
    Unscaled((q * 8) as real, seconds);
    assert n as real * (q * 8) as real == (8 * (n * q)) as real;
  }

  lemma RemainderBelow(whole: nat, n: nat)
    requires n > 0
    ensures whole - n < n * (whole / n)
  {
  }

  lemma Unscaled(x: real, seconds: real)
    requires seconds > 0.0
    ensures x / seconds / 1000000.0 * seconds * 1000000.0 == x
  {
    var q := x / seconds;
    assert q * seconds == x;
    assert q / 1000000.0 * seconds * 1000000.0 == q * seconds;
  }

  class FlowGroup {
    var rxBytes: array<nat>

    ghost predicate Valid()
      reads this, rxBytes
    {
      forall i :: 0 <= i < rxBytes.Length ==> rxBytes[i] < TWO_64
    }

    constructor (n: nat)
      ensures Valid() && fresh(rxBytes) && rxBytes.Length == n && forall i :: 0 <= i < n ==> rxBytes[i] == 0
    {
      rxBytes := new nat[n](_ => 0);
    }

    /** A packet arrives: its size, a 32-bit number, is added to the flow's counter. */
    method TraceSink(index: nat, size: nat)
      requires Valid() && index < rxBytes.Length && size <= UINT32_MAX
      modifies rxBytes
      ensures Valid()
      ensures rxBytes[..] == old(rxBytes[..])[index := Wrap(old(rxBytes[index]) + size)]
    {
      rxBytes[index] := Wrap(rxBytes[index] + size);
    }

    method InitializeCounters()
      modifies rxBytes
      ensures Valid() && forall i :: 0 <= i < rxBytes.Length ==> rxBytes[i] == 0
    {
      for i := 0 to rxBytes.Length
        invariant forall k :: 0 <= k < i ==> rxBytes[k] == 0
      {
        rxBytes[i] := 0;
      }
    }

    /** The two sums, in 64-bit arithmetic. */
    method SumFlows() returns (sum: nat, sumSquares: nat)
      requires Valid()
      ensures sum == Wrap(Sum(rxBytes[..])) && sumSquares == Wrap(SumSquares(rxBytes[..]))
    {
      sumSquares, sum := 0, 0;
      ghost var flows := rxBytes[..];
      for i := 0 to rxBytes.Length
        invariant sum == Wrap(Sum(flows[..i])) && sumSquares == Wrap(SumSquares(flows[..i]))
      {
        NextFlow(flows, i);
        WrapSum(Sum(flows[..i]), flows[i]);
        WrapSum(SumSquares(flows[..i]), Square(flows[i]));
        sum := Wrap(sum + rxBytes[i]);
        sumSquares := Wrap(sumSquares + Wrap(Square(rxBytes[i])));
      }
      assert flows[..|flows|] == flows;
    }

    method PrintFairness(seconds: real) returns (average: real, r: Index)
      requires Valid() && rxBytes.Length > 0 && seconds > 0.0
      ensures average == AverageMbps(Wrap(Sum(rxBytes[..])), rxBytes.Length, seconds)
      ensures IsIndex(rxBytes[..], r)
    {
      var sum, sumSquares := SumFlows();
      average := AverageMbps(sum, rxBytes.Length, seconds);
      var numerator := Wrap(sum * sum);
      var denominator := Wrap(rxBytes.Length * sumSquares);
      r := Index(numerator, denominator,
                 if denominator == 0 then None else Some(numerator as real / denominator as real));
      WrapProduct(Sum(rxBytes[..]), Sum(rxBytes[..]));
      WrapFactor(SumSquares(rxBytes[..]), rxBytes.Length);
    }
  }

  lemma NextFlow(flows: seq<nat>, i: nat)
    requires i < |flows|
    ensures Sum(flows[..i + 1]) == Sum(flows[..i]) + flows[i]
    ensures SumSquares(flows[..i + 1]) == SumSquares(flows[..i]) + Square(flows[i])
  {
    assert flows[..i + 1][..i] == flows[..i];
  }

  /** What the printed index is made of: both operands modulo 2^64. */
  ghost predicate IsIndex(flows: seq<nat>, r: Index) {
    && r.numerator == Wrap(Sum(flows) * Sum(flows))
    && r.denominator == Wrap(|flows| * SumSquares(flows))
    && r.fairness == if r.denominator == 0 then None else Some(r.numerator as real / r.denominator as real)
  }

  ghost predicate Exact(flows: seq<nat>, r: Index) {
    r.numerator == Sum(flows) * Sum(flows) && r.denominator == |flows| * SumSquares(flows)
  }

  /** Both operands are exact iff n times the sum of squares fits in 64 bits. */
  lemma ExactIff(flows: seq<nat>, r: Index)
    requires IsIndex(flows, r)
    ensures Exact(flows, r) <==> |flows| * SumSquares(flows) < TWO_64
  {
    GapSign(flows);
  }

  // ---------- arithmetic modulo 2^64 ----------

  lemma WrapMultiple(k: nat, x: nat)
    ensures Wrap(k * TWO_64 + x) == Wrap(x)
  {
    var q, r := x / TWO_64, x % TWO_64;
    assert k * TWO_64 + x == (k + q) * TWO_64 + r;
    MixedRadix.DivMod(k + q, TWO_64, r);
  }

  lemma WrapSum(x: nat, y: nat)
    ensures Wrap(Wrap(x) + y) == Wrap(x + y) && Wrap(Wrap(x) + Wrap(y)) == Wrap(x + y)
  {
    WrapMultiple(x / TWO_64, Wrap(x) + y);
    WrapMultiple(y / TWO_64, Wrap(x) + Wrap(y));
  }

  lemma WrapFactor(x: nat, y: nat)
    ensures Wrap(y * Wrap(x)) == Wrap(y * x)
  {
    var q, r := x / TWO_64, x % TWO_64;
    assert x == q * TWO_64 + r;
    assert y * x == (y * q) * TWO_64 + y * r;
    WrapMultiple(y * q, y * r);
  }

  lemma WrapProduct(x: nat, y: nat)
    ensures Wrap(Wrap(x) * Wrap(y)) == Wrap(x * y)
  {
    WrapFactor(y, Wrap(x));
    WrapFactor(x, y);
    assert Wrap(x) * y == y * Wrap(x) && x * y == y * x;
  }

  // ---------- sums of squares ----------

  /** The summed squared distances of the flows from `x`. */
  ghost function Distances(flows: seq<nat>, x: int): int {
    if flows == [] then 0
    else Distances(flows[..|flows| - 1], x) + (flows[|flows| - 1] - x) * (flows[|flows| - 1] - x)
  }

  lemma SquareSign(d: int, square: int)
    requires square == d * d
    ensures square >= 0
    ensures square == 0 <==> d == 0
  {
    if d > 0 {
      ProductPositive(d, d, square);
    } else if d < 0 {
      ProductPositive(-d, -d, square);
    } else {
    }
  }

  lemma ProductPositive(x: int, y: int, product: int)
    requires product == x * y && x > 0 && y > 0
    ensures product > 0
  {
  }

  lemma {:induction false} DistancesSign(flows: seq<nat>, x: int)
    ensures Distances(flows, x) >= 0
    ensures Distances(flows, x) == 0 <==> forall i :: 0 <= i < |flows| ==> flows[i] == x
  {
    if flows != [] {
      var front, last := flows[..|flows| - 1], flows[|flows| - 1];
      DistancesSign(front, x);
      SquareSign(last - x, Distances(flows, x) - Distances(front, x));
      assert forall i :: 0 <= i < |front| ==> front[i] == flows[i];
    }
  }

  lemma {:induction false} DistancesExpanded(flows: seq<nat>, x: int)
    ensures Distances(flows, x) == SumSquares(flows) - 2 * (Sum(flows) * x) + |flows| * (x * x)
  {
    if flows != [] {
      var front, last := flows[..|flows| - 1], flows[|flows| - 1];
      DistancesExpanded(front, x);
      SquareOfDifference(last, x);
      MulDistributes(x, Sum(front), last);
      MulDistributes(x * x, |front|, 1);
    }
  }

  lemma SquareOfDifference(a: int, x: int)
    ensures (a - x) * (a - x) == a * a - 2 * (a * x) + x * x
  {
  }

  lemma SquareOfSum(a: int, x: int)
    ensures (a + x) * (a + x) == a * a + 2 * (a * x) + x * x
  {
  }

  lemma MulDistributes(x: int, a: int, b: int)
    ensures (a + b) * x == a * x + b * x
  {
  }

  /** By how much n times the sum of squares exceeds the square of the sum. */
  ghost function Gap(flows: seq<nat>): int {
    |flows| * SumSquares(flows) - Sum(flows) * Sum(flows)
  }

  /** One more flow widens the gap by its squared distances from the others. */
  lemma GapNext(front: seq<nat>, x: nat)
    ensures Gap(front + [x]) == Gap(front) + Distances(front, x)
  {
    var flows, q, s, n := front + [x], SumSquares(front), Sum(front), |front|;
    assert flows[..|flows| - 1] == front;
    DistancesExpanded(front, x);
    SquareOfSum(s, x);
    ProductNext(n, q, x * x);
  }

  lemma ProductNext(n: int, q: int, square: int)
    ensures (n + 1) * (q + square) == n * q + n * square + q + square
  {
    MulDistributes(q + square, n, 1);
    assert n * (q + square) == n * q + n * square;
  }

  /** Cauchy-Schwarz for the flows, with its case of equality. */
  lemma {:induction false} GapSign(flows: seq<nat>)
    ensures Gap(flows) >= 0
    ensures Gap(flows) == 0 <==> AllEqual(flows)
  {
    if flows != [] {
      var front, last := flows[..|flows| - 1], flows[|flows| - 1];
      assert flows == front + [last];
      GapSign(front);
      GapNext(front, last);
      DistancesSign(front, last);
      assert forall i :: 0 <= i < |front| ==> front[i] == flows[i];
      if AllEqual(flows) {
        assert AllEqual(front);
      }
    }
  }

  /** The square of the sum exceeds the sum of squares by twice the mixed products. */
  lemma {:induction false} SquaresWithinSquare(flows: seq<nat>)
    ensures SumSquares(flows) <= Sum(flows) * Sum(flows)
    ensures SumSquares(flows) == Sum(flows) * Sum(flows) <==> AtMostOneActive(flows)
  {
    if flows != [] {
      var front, last := flows[..|flows| - 1], flows[|flows| - 1];
      SquaresWithinSquare(front);
      SquareOfSum(Sum(front), last);
      SumZeroIff(front);
      MixedProduct(Sum(front), last, Sum(front) * last);
      assert forall i :: 0 <= i < |front| ==> front[i] == flows[i];
      if AtMostOneActive(flows) {
        assert last != 0 ==> forall i :: 0 <= i < |front| ==> flows[i] == 0;
      }
    }
  }

  lemma MixedProduct(a: nat, b: nat, product: int)
    requires product == a * b
    ensures product >= 0
    ensures product == 0 <==> a == 0 || b == 0
  {
    if a > 0 && b > 0 {
      ProductPositive(a, b, product);
    }
  }

  lemma {:induction false} SumZeroIff(flows: seq<nat>)
    ensures Sum(flows) == 0 <==> forall i :: 0 <= i < |flows| ==> flows[i] == 0
  {
    if flows != [] {
      SumZeroIff(flows[..|flows| - 1]);
    }
  }

  // ---------- the index ----------

  /** An exact index lies in [1/n, 1]; it is 1 for equal flows only, and 1/n for a single active flow only. */
  lemma IndexBounds(flows: seq<nat>, r: Index)
    requires IsIndex(flows, r) && |flows| * SumSquares(flows) < TWO_64
    requires exists i :: 0 <= i < |flows| && flows[i] > 0
    ensures r.fairness.Some?
    ensures 1.0 / |flows| as real <= r.fairness.value <= 1.0
    ensures r.fairness.value == 1.0 <==> AllEqual(flows)
    ensures r.fairness.value == 1.0 / |flows| as real <==> AtMostOneActive(flows)
  {
    var n, s2, q := |flows|, Sum(flows) * Sum(flows), SumSquares(flows);
    GapSign(flows);
    SquaresWithinSquare(flows);
    SumZeroIff(flows);
    MixedProduct(Sum(flows), Sum(flows), s2);
    SumSquaresPositive(flows);
    MixedProduct(n, q, n * q);
    QuotientBounds(n, s2, q, n * q);
  }

  lemma {:induction false} SumSquaresPositive(flows: seq<nat>)
    ensures SumSquares(flows) == 0 <==> forall i :: 0 <= i < |flows| ==> flows[i] == 0
  {
    if flows != [] {
      SumSquaresPositive(flows[..|flows| - 1]);
      MixedProduct(flows[|flows| - 1], flows[|flows| - 1], Square(flows[|flows| - 1]));
    }
  }

  lemma QuotientBounds(n: nat, s2: nat, q: nat, nq: nat)
    requires n > 0 && q > 0 && nq == n * q && nq > 0 && q <= s2 <= nq
    ensures var index := s2 as real / nq as real;
            && 1.0 / n as real <= index <= 1.0
            && (index == 1.0 <==> s2 == nq)
            && (index == 1.0 / n as real <==> s2 == q)
  {
    var a, b, m := s2 as real, nq as real, n as real;
    var index := a / b;
    assert index * b == a;
    assert nq as real == n as real * q as real;
    assert (1.0 / m) * b == ((1.0 / m) * m) * q as real == q as real;
    Compare(1.0 / m, index, b, q as real, a);
    Compare(index, 1.0, b, a, b);
  }

  /** Quotients by the same positive number compare like their numerators. */
  lemma Compare(x: real, y: real, b: real, xb: real, yb: real)
    requires b > 0.0 && x * b == xb && y * b == yb
    ensures x <= y <==> xb <= yb
    ensures x == y <==> xb == yb
  {
  }

  // ---------- the printed index ----------

  /** Jain's index, where it is defined. */
  ghost function Formula(flows: seq<nat>): real
    requires |flows| * SumSquares(flows) > 0
  {
    (Sum(flows) * Sum(flows)) as real / (|flows| * SumSquares(flows)) as real
  }

  /** What is left of each operand, and how often 2^64 was dropped from it, are in the same proportion. */
  ghost predicate WrapsAlike(numerator: nat, denominator: nat) {
    Wrap(denominator) != 0
    && Wrap(numerator) * (denominator / TWO_64) == (numerator / TWO_64) * Wrap(denominator)
  }

  /** The printed index is that of the formula exactly when its operands wrap alike; nothing wrapping at all
      is one such case. */
  lemma IndexIsFormulaIff(flows: seq<nat>, r: Index)
    requires IsIndex(flows, r) && |flows| * SumSquares(flows) > 0
    ensures r.fairness == Some(Formula(flows)) <==> WrapsAlike(Sum(flows) * Sum(flows), |flows| * SumSquares(flows))
    ensures |flows| * SumSquares(flows) < TWO_64 ==> r.fairness == Some(Formula(flows))
  {
    var s2, nq := Sum(flows) * Sum(flows), |flows| * SumSquares(flows);
    GapSign(flows);
    if Wrap(nq) != 0 {
      SameQuotientIff(s2 / TWO_64, Wrap(s2), nq / TWO_64, Wrap(nq), s2, nq);
    }
  }

  lemma SameQuotientIff(a: nat, x: nat, b: nat, y: nat, s2: nat, nq: nat)
    requires s2 == a * TWO_64 + x && nq == b * TWO_64 + y && y > 0 && nq > 0
    ensures x as real / y as real == s2 as real / nq as real <==> x * b == a * y
  {
    CrossMultiply(x, y, s2, nq);
    MulDistributes(x, b * TWO_64, y);
    MulDistributes(y, a * TWO_64, x);
    Rearrange(b, x, TWO_64);
    Rearrange(a, y, TWO_64);
    SameMultiple(x * b, a * y, TWO_64);
    assert x * y == y * x;
  }

  lemma Rearrange(b: nat, x: nat, m: nat)
    ensures (b * m) * x == (x * b) * m == (b * x) * m
  {
  }

  lemma SameMultiple(x: int, y: int, m: int)
    requires m > 0
    ensures x * m == y * m <==> x == y
  {
  }

  /** Fractions with positive divisors are equal iff the cross products are. */
  lemma CrossMultiply(x: nat, y: nat, u: nat, v: nat)
    requires y > 0 && v > 0
    ensures x as real / y as real == u as real / v as real <==> v * x == y * u
  {
    var p, q := x as real / y as real, u as real / v as real;
    assert p * y as real == x as real && q * v as real == u as real;
    assert (v * x) as real == v as real * x as real && (y * u) as real == y as real * u as real;
    RealCross(p, y as real, q, v as real, v as real * x as real, y as real * u as real);
  }

  lemma RealCross(p: real, y: real, q: real, v: real, vx: real, yu: real)
    requires y > 0.0 && v > 0.0 && vx == v * (p * y) && yu == y * (q * v)
    ensures p == q <==> vx == yu
  {
    assert vx == p * (v * y) && yu == q * (v * y);
    Compare(p, q, v * y, vx, yu);
  }

  /** Equal flows have index 1 exactly when n * n * b * b is not a multiple of 2^64; else there is none. */
  lemma EqualFlowsIndex(flows: seq<nat>, b: nat, r: Index)
    requires IsIndex(flows, r) && forall i :: 0 <= i < |flows| ==> flows[i] == b
    ensures r.fairness == if Wrap(|flows| * (|flows| * Square(b))) != 0 then Some(1.0) else None
  {
    EqualFlows(flows, b);
    assert AllEqual(flows);
    GapSign(flows);
    EqualOperands(Sum(flows) * Sum(flows), |flows| * (|flows| * Square(b)), r);
  }

  lemma EqualOperands(numerator: nat, denominator: nat, r: Index)
    requires numerator == denominator && r.numerator == Wrap(numerator) && r.denominator == Wrap(denominator)
    requires r.fairness == if r.denominator == 0 then None else Some(r.numerator as real / r.denominator as real)
    ensures r.fairness == if Wrap(denominator) != 0 then Some(1.0) else None
  {
    if Wrap(denominator) != 0 {
      SelfQuotient(Wrap(denominator) as real);
    }
  }

  lemma SelfQuotient(d: real)
    requires d > 0.0
    ensures d / d == 1.0
  {
  }

  lemma {:induction false} EqualFlows(flows: seq<nat>, b: nat)
    requires forall i :: 0 <= i < |flows| ==> flows[i] == b
    ensures SumSquares(flows) == |flows| * Square(b)
  {
    if flows != [] {
      EqualFlows(flows[..|flows| - 1], b);
      MulDistributes(Square(b), |flows| - 1, 1);
    }
  }

  /** Equal flows of 2 GiB each: the divisor wraps to zero and there is no index. */
  lemma FairFlowsWrap(flows: seq<nat>, r: Index)
    requires |flows| == 10 && forall i :: 0 <= i < 10 ==> flows[i] == 0x8000_0000
    requires IsIndex(flows, r)
    ensures AllEqual(flows) && r.fairness == None
  {
    EqualFlowsIndex(flows, 0x8000_0000, r);
    assert |flows| * (|flows| * Square(0x8000_0000)) == 25 * TWO_64 + 0;
    WrapMultiple(25, 0);
  }

  lemma {:induction false} OneActive(flows: seq<nat>, b: nat)
    requires flows != [] && flows[0] == b && forall i :: 0 < i < |flows| ==> flows[i] == 0
    ensures Sum(flows) == b && SumSquares(flows) == Square(b)
  {
    var front := flows[..|flows| - 1];
    if front != [] {
      OneActive(front, b);
    }
  }

  /** A single active flow of 2 GiB among ten: 0.5 is printed, and the formula says 0.1. */
  lemma WrongIndexPrinted(flows: seq<nat>, r: Index)
    requires |flows| == 10 && flows[0] == 0x8000_0000 && forall i :: 0 < i < 10 ==> flows[i] == 0
    requires IsIndex(flows, r)
    ensures |flows| * SumSquares(flows) > 0
    ensures r.fairness == Some(0.5) && Formula(flows) == 0.1
  {
    OneActive(flows, 0x8000_0000);
    assert |flows| * SumSquares(flows) == 2 * TWO_64 + 0x8000_0000_0000_0000;
    WrapMultiple(2, 0x8000_0000_0000_0000);
  }

  /** Ten equal flows of one byte more: both operands wrap, and the index is right all the same. */
  lemma WrappedAndRight(flows: seq<nat>, r: Index)
    requires |flows| == 10 && forall i :: 0 <= i < 10 ==> flows[i] == 0x8000_0001
    requires IsIndex(flows, r)
    ensures !Exact(flows, r) && r.fairness == Some(1.0)
  {
    EqualFlowsIndex(flows, 0x8000_0001, r);
    EqualFlows(flows, 0x8000_0001);
    ExactIff(flows, r);
    assert |flows| * (|flows| * Square(0x8000_0001)) == 25 * TWO_64 + 100 * 0x1_0000_0001;
    WrapMultiple(25, 100 * 0x1_0000_0001);
  }

  // ---------- groups that are safe ----------

  lemma {:induction false} SquaresBounded(flows: seq<nat>, b: nat)
    requires forall i :: 0 <= i < |flows| ==> flows[i] <= b
    ensures SumSquares(flows) <= |flows| * Square(b)
  {
    if flows != [] {
      SquaresBounded(flows[..|flows| - 1], b);
      SquareMonotone(flows[|flows| - 1], b);
      MulDistributes(Square(b), |flows| - 1, 1);
    }
  }

  lemma SquareMonotone(x: nat, y: nat)
    requires x <= y
    ensures Square(x) <= Square(y)
  {
    MixedRadix.MulMonotone(x, y, x);
    MixedRadix.MulMonotone(x, y, y);
    assert x * y == y * x;
  }

  lemma SquareOfProduct(n: nat, b: nat)
    ensures Square(n * b) == (n * Square(b)) * n
  {
    var bn := b * n;
    assert (n * b) * bn == n * (b * bn) == n * ((b * b) * n);
  }

  lemma SmallShares(n: nat, b: nat, q: nat)
    requires n * b <= UINT32_MAX && q <= n * Square(b)
    ensures n * q < TWO_64
  {
    MixedRadix.MulMonotone(q, n * Square(b), n);
    SquareOfProduct(n, b);
    SquareMonotone(n * b, UINT32_MAX);
  }

  lemma ShareOf(whole: nat, n: nat)
    requires n > 0
    ensures n * (whole / n) <= whole
  {
  }

  /** Flows of at most (2^32 - 1) / n bytes each are safe. */
  lemma SmallFlowsExact(flows: seq<nat>, r: Index)
    requires IsIndex(flows, r) && flows != []
    requires forall i :: 0 <= i < |flows| ==> flows[i] <= UINT32_MAX / |flows|
    ensures Exact(flows, r)
  {
    SquaresBounded(flows, UINT32_MAX / |flows|);
    ShareOf(UINT32_MAX, |flows|);
    SmallShares(|flows|, UINT32_MAX / |flows|, SumSquares(flows));
    ExactIff(flows, r);
  }
}
