/**
 Python's `round(x, 6)` on mathematical reals: to the nearest millionth, ties to the even one.
 */
module Rounding {

  const MILLION: real := 1000000.0

  function RoundHalfEven(x: real): int {
    var below := x.Floor;
    var rest := x - below as real;
    if rest < 0.5 || (rest == 0.5 && below % 2 == 0) then below else below + 1
  }

  function Round6(x: real): real {
    RoundHalfEven(x * MILLION) as real / MILLION
  }

  lemma RoundMonotone(x: real, y: real)
    requires x <= y
    ensures Round6(x) <= Round6(y)
  {
    var a, b := x * MILLION, y * MILLION;
    assert a <= b && a.Floor <= b.Floor;
    assert RoundHalfEven(a) <= RoundHalfEven(b);
  }

  lemma RoundError(x: real)
    ensures x - 0.0000005 <= Round6(x) <= x + 0.0000005
  {
    var a := x * MILLION;
    assert a - 0.5 <= RoundHalfEven(a) as real <= a + 0.5;
  }

  /** Whole numbers are their own rounding. */
  lemma RoundWhole(n: int)
    ensures Round6(n as real) == n as real
  {
    assert n as real * MILLION == (n * 1000000) as real;
    assert (n as real * MILLION).Floor == n * 1000000;
  }

  /** Halfway between two millionths the even one is taken, from below and from above. */
  lemma RoundTies(k: int)
    ensures Round6(((2 * k) as real + 0.5) / MILLION) == (2 * k) as real / MILLION
    ensures Round6(((2 * k) as real - 0.5) / MILLION) == (2 * k) as real / MILLION
  {
    var up, down := ((2 * k) as real + 0.5) / MILLION, ((2 * k) as real - 0.5) / MILLION;
    assert up * MILLION == (2 * k) as real + 0.5 && down * MILLION == (2 * k) as real - 0.5;
    assert (up * MILLION).Floor == 2 * k && (down * MILLION).Floor == 2 * k - 1;
  }
}
