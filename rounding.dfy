/**
 * Rounding of exact decimal quantities.
 *
 * Python's `round(x)` on a `Decimal` or a `float`, `round(x, 2)` and
 * `Decimal.quantize(Decimal("0.01"))` under the default context all round
 * half to even; the model rounds the exact real value the same way.
 */
module Rounding {

  /** Largest integer not above `x`, with the bounds that define it. */
  function Floor(x: real): (f: int)
    ensures f as real <= x < f as real + 1.0
  {
    x.Floor
  }

  /** `int(x)` in Python: truncation toward zero. */
  function Trunc(x: real): (t: int)
    ensures 0.0 <= x ==> t == Floor(x)
    ensures x < 0.0 ==> t == -Floor(-x)
    ensures (if x < 0.0 then -x else x) - 1.0 < (if t < 0 then -t else t) as real <= (if x < 0.0 then -x else x)
  {
    if x < 0.0 then -Floor(-x) else Floor(x)
  }

  /** Nearest integer to `x`; a tie goes to the even neighbour. */
  function RoundHalfEven(x: real): (n: int)
    ensures x - 0.5 <= n as real <= x + 0.5
    ensures n as real == x - 0.5 || n as real == x + 0.5 ==> n % 2 == 0
  {
    var f := Floor(x);
    var frac := x - f as real;
    if frac < 0.5 then f
    else if frac > 0.5 then f + 1
    else if f % 2 == 0 then f
    else f + 1
  }

  /** Rounding to two decimal places (paise), half to even. */
  function Round2(x: real): (y: real)
    ensures x - 0.005 <= y <= x + 0.005
    ensures (y * 100.0).Floor as real == y * 100.0
  {
    RoundHalfEven(x * 100.0) as real / 100.0
  }

  /** An integer is its own rounding. */
  lemma RoundHalfEvenOfInt(n: int)
    ensures RoundHalfEven(n as real) == n
  {
  }

  /** Rounding is monotone: it never reverses the order of two values. */
  lemma {:induction false} RoundHalfEvenMonotone(x: real, y: real)
    requires x <= y
    ensures RoundHalfEven(x) <= RoundHalfEven(y)
  {
    var fx, fy := Floor(x), Floor(y);
    if fx < fy {
      assert RoundHalfEven(x) <= fx + 1 <= fy <= RoundHalfEven(y);
    } else {
      assert fx == fy;
    }
  }

  /** Rounding to paise is monotone. */
  lemma Round2Monotone(x: real, y: real)
    requires x <= y
    ensures Round2(x) <= Round2(y)
  {
    RoundHalfEvenMonotone(x * 100.0, y * 100.0);
  }

  /** An amount already in whole paise is unchanged by rounding to paise. */
  lemma Round2OfPaise(k: int)
    ensures Round2(k as real / 100.0) == k as real / 100.0
  {
    assert (k as real / 100.0) * 100.0 == k as real;
    RoundHalfEvenOfInt(k);
  }
}
