/** Exact-real stand-ins for the numeric built-ins the identifiers use:
    Python's `round(x, 2)`, the `:.0%` format, `int()` on a float, `min`/`max`
    clamping. Values are exact reals, so binary floating-point effects are not
    modelled; rounding follows Python's round-half-to-even rule. */
module Numeric {
  import Text
  import opened Wrappers

  /** The nearest integer to `x`, ties going to the even neighbour. */
  function RoundHalfEven(x: real): (r: int)
    ensures x - 1.0 / 2.0 <= r as real <= x + 1.0 / 2.0
    ensures x == x.Floor as real ==> r == x.Floor
  {
    var f := x.Floor;
    var d := x - f as real;
    if d < 1.0 / 2.0 then f
    else if d > 1.0 / 2.0 then f + 1
    else if f % 2 == 0 then f
    else f + 1
  }

  lemma RoundHalfEvenMonotone(x: real, y: real)
    requires x <= y
    ensures RoundHalfEven(x) <= RoundHalfEven(y)
  {
    var fx, fy := x.Floor, y.Floor;
    assert fx <= fy;
    if fx < fy {
      assert RoundHalfEven(x) <= fx + 1 <= fy <= RoundHalfEven(y);
    }
  }

  /** Python's `round(x, 2)`: the nearest multiple of 1/100. */
  function Round2(x: real): (r: real)
    ensures x - 1.0 / 200.0 <= r <= x + 1.0 / 200.0
  {
    RoundHalfEven(x * 100.0) as real / 100.0
  }

  /** Rounding to hundredths never reverses an order. */
  lemma Round2Monotone(x: real, y: real)
    requires x <= y
    ensures Round2(x) <= Round2(y)
  {
    RoundHalfEvenMonotone(x * 100.0, y * 100.0);
  }

  /** A value that already has at most two decimals is left alone. */
  lemma Round2OfHundredths(n: int)
    ensures Round2(n as real / 100.0) == n as real / 100.0
  {
    assert (n as real / 100.0) * 100.0 == n as real;
  }

  /** Rounding is confined to the unit interval when its argument is. */
  lemma Round2Bounds(x: real)
    requires 0.0 <= x <= 1.0
    ensures 0.0 <= Round2(x) <= 1.0
  {
    Round2Monotone(0.0, x);
    Round2Monotone(x, 1.0);
    Round2OfHundredths(0);
    Round2OfHundredths(100);
  }

  /** A fraction `m / n` of a positive count `n` with `m <= n` lies in the
      unit interval and multiplies back to `m`. */
  lemma Fraction(m: nat, n: nat)
    requires 0 < n && m <= n
    ensures 0.0 <= m as real / n as real <= 1.0
    ensures (m as real / n as real) * n as real == m as real
  {
  }

  /** Python's `int(x)` on a float: truncation toward zero. */
  function Trunc(x: real): (r: int)
    ensures x >= 0.0 ==> 0 <= r && r as real <= x < r as real + 1.0
    ensures x < 0.0 ==> r <= 0 && r as real - 1.0 < x <= r as real
  {
    if x >= 0.0 then x.Floor else -((-x).Floor)
  }

  /** Truncating a whole number gives it back. */
  lemma TruncWhole(n: int)
    ensures Trunc(n as real) == n
  {
    assert (n as real).Floor == n;
    if n < 0 {
      assert (-(n as real)).Floor == -n;
    }
  }

  /** `min(max(x, lo), hi)`. */
  function Clamp(x: real, lo: real, hi: real): (r: real)
    requires lo <= hi
    ensures lo <= r <= hi
    ensures lo <= x <= hi ==> r == x
    ensures x < lo ==> r == lo
    ensures x > hi ==> r == hi
  {
    if x < lo then lo else if x > hi then hi else x
  }

  /** Python's `f"{x:.0%}"`: the value times 100, rounded half-to-even,
      followed by a percent sign. */
  function Percent(x: real): (r: string)
    ensures |r| >= 2 && r[|r| - 1] == '%'
    ensures Text.ParseInt(r[..|r| - 1]) == Some(RoundHalfEven(x * 100.0))
  {
    var n := RoundHalfEven(x * 100.0);
    Text.ParseIntRoundTrip(n);
    var r := Text.IntToString(n) + "%";
    assert r[..|r| - 1] == Text.IntToString(n);
    r
  }
}
