/**
 * Rounding as Python's `round(x)` and NumPy's `np.round(x, p)` do it on the
 * exact value: to the nearest integer, ties to the even neighbour.
 * Binary floating point is not modelled; numbers are exact reals.
 */
module Numeric {

  function RoundHalfEven(x: real): (r: int)
    ensures x - 0.5 <= r as real <= x + 0.5
    ensures r as real - x == 0.5 || x - r as real == 0.5 ==> r % 2 == 0
  {
    var f := x.Floor;
    var frac := x - f as real;
    if frac < 0.5 then f
    else if frac > 0.5 then f + 1
    else if f % 2 == 0 then f
    else f + 1
  }

  lemma {:induction false} RoundHalfEvenMonotone(x: real, y: real)
    requires x <= y
    ensures RoundHalfEven(x) <= RoundHalfEven(y)
  {
    if x.Floor == y.Floor {
      assert x - x.Floor as real <= y - y.Floor as real;
    } else {
      assert x.Floor < y.Floor;
      assert RoundHalfEven(x) <= x.Floor + 1;
      assert y.Floor <= RoundHalfEven(y);
    }
  }

  function Pow10(p: nat): (r: real)
    ensures r >= 1.0
  {
    if p == 0 then 1.0 else 10.0 * Pow10(p - 1)
  }

  /** `np.round(x, p)`: round half to even at `p` decimals. */
  function RoundTo(x: real, p: nat): real
  {
    RoundScaled(x, Pow10(p))
  }

  /** Round `x * s` half to even and scale back. */
  function RoundScaled(x: real, s: real): real
    requires s > 0.0
  {
    (RoundHalfEven(x * s) as real) / s
  }

  lemma RoundToMonotone(x: real, y: real, p: nat)
    requires x <= y
    ensures RoundTo(x, p) <= RoundTo(y, p)
  {
    RoundScaledMonotone(x, y, Pow10(p));
  }

  lemma RoundScaledMonotone(x: real, y: real, s: real)
    requires x <= y && s > 0.0
    ensures RoundScaled(x, s) <= RoundScaled(y, s)
  {
    ScaleMonotone(x, y, s);
    RoundHalfEvenMonotone(x * s, y * s);
    DivMonotone(RoundHalfEven(x * s) as real, RoundHalfEven(y * s) as real, s);
  }

  lemma ScaleMonotone(x: real, y: real, s: real)
    requires x <= y && s > 0.0
    ensures x * s <= y * s
  {
    MulNonNegative(y - x, s);
  }

  lemma DivMonotone(a: real, b: real, s: real)
    requires a <= b && s > 0.0
    ensures a / s <= b / s
  {
    ScaleMonotone(a, b, 1.0 / s);
  }

  /** The smallest integer not below `x`. */
  function Ceil(x: real): (c: int)
    ensures c as real >= x && (c - 1) as real < x
  {
    -((-x).Floor)
  }

  lemma DivPositive(a: real, b: real)
    requires a > 0.0 && b > 0.0
    ensures a / b > 0.0
  {
    var q := a / b;
    assert q * b == a;
  }

  /** `(a - b) / b == a / b - 1` for positive `b`. */
  lemma DivShift(a: real, b: real)
    requires b > 0.0
    ensures (a - b) / b == a / b - 1.0
  {
    var q := a / b;
    var q' := (a - b) / b;
    assert q * b == a;
    assert q' * b == a - b;
    var e := q' - (q - 1.0);
    assert e * b == 0.0;
    ProductZero(e, b);
  }

  lemma ProductZero(e: real, b: real)
    requires b > 0.0 && e * b == 0.0
    ensures e == 0.0
  {
  }

  lemma DivNonPositive(a: real, b: real)
    requires a >= 0.0 && b < 0.0
    ensures a / b <= 0.0
  {
    var q := a / b;
    assert q * b == a;
    DivPositiveNeg(a, b, q);
  }

  lemma DivPositiveNeg(a: real, b: real, q: real)
    requires a >= 0.0 && b < 0.0 && q * b == a
    ensures q <= 0.0
  {
  }

  lemma MulNonNegative(a: real, b: real)
    requires a >= 0.0 && b >= 0.0
    ensures a * b >= 0.0
  {
  }

  lemma DivNonNegative(a: real, b: real)
    requires a >= 0.0 && b > 0.0
    ensures a / b >= 0.0 && (a / b) * b == a
  {
    if a > 0.0 { DivPositive(a, b); }
  }

  lemma MulStrictMonotone(a: real, b: real, c: real)
    requires a < b && c > 0.0
    ensures a * c < b * c
  {
    MulPositive(b - a, c);
  }

  lemma MulPositive(a: real, b: real)
    requires a > 0.0 && b > 0.0
    ensures a * b > 0.0
  {
  }

  /** A multiple `i * d` with `i` below `q` stays below `x == q * d`. */
  lemma MultipleBelow(i: real, q: real, d: real, x: real)
    requires 0.0 <= i < q && d > 0.0 && x == q * d
    ensures 0.0 <= i * d < x
  {
    MulNonNegative(i, d);
    MulPositive(q - i, d);
  }

  /** A multiple `n * d` with `n` at least `q` reaches `x == q * d`. */
  lemma MultipleReaches(n: real, q: real, d: real, x: real)
    requires q <= n && d > 0.0 && x == q * d
    ensures n * d >= x
  {
    MulNonNegative(n - q, d);
  }

  /** Rounding `x / s` to a whole number of steps and scaling back stays within half a step of `x`. */
  lemma RoundedQuotientBounds(x: real, s: real)
    requires s > 0.0
    ensures x - s / 2.0 <= s * (RoundHalfEven(x / s) as real) <= x + s / 2.0
  {
    var q := x / s;
    assert s * q == x;
    HalfStepBounds(q, RoundHalfEven(q) as real, s, x);
  }

  /** A value within half a unit of `q`, scaled by `s`, is within half a step of `x == s * q`. */
  lemma HalfStepBounds(q: real, r: real, s: real, x: real)
    requires s > 0.0 && q - 0.5 <= r <= q + 0.5 && x == s * q
    ensures x - s / 2.0 <= s * r
    ensures s * r <= x + s / 2.0
  {
    ScaleLeft(s, q - 0.5, r);
    ScaleLeft(s, r, q + 0.5);
    assert s * (q - 0.5) == s * q - s / 2.0;
    assert s * (q + 0.5) == s * q + s / 2.0;
  }

  lemma ScaleLeft(s: real, a: real, b: real)
    requires a <= b && s > 0.0
    ensures s * a <= s * b
  {
    MulNonNegative(s, b - a);
  }
}
