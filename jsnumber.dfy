/**
 * The few JavaScript number operations the matcher relies on, written out
 * over Dafny's exact `real`s: the truncating remainder `%`, `Math.round`
 * and `Number(x.toFixed(2))`. Floating-point rounding error is not modelled.
 */
module JsNumber {

  /** `x` truncated toward zero, as JavaScript's `%` uses it. */
  function Trunc(x: real): (r: int)
    ensures x >= 0.0 ==> r as real <= x < r as real + 1.0
    ensures x < 0.0 ==> r as real - 1.0 < x <= r as real
  {
    if x >= 0.0 then x.Floor else -((-x).Floor)
  }

  lemma ScaleBelowOne(m: real, d: real)
    requires m > 0.0 && -1.0 < d < 1.0
    ensures -m < m * d < m
    ensures d >= 0.0 ==> m * d >= 0.0
    ensures d <= 0.0 ==> m * d <= 0.0
  {
  }

  lemma MulNonneg(m: real, d: real)
    requires m >= 0.0 && d >= 0.0
    ensures m * d >= 0.0
  {
  }

  lemma MulCancel(m: real, a: real, b: real)
    requires m > 0.0 && m * a == m * b
    ensures a == b
  {
    if a > b {
      ScalePositive(m, a - b);
    } else if a < b {
      ScalePositive(m, b - a);
    }
  }

  lemma ScalePositive(m: real, d: real)
    requires m > 0.0 && d > 0.0
    ensures m * d > 0.0
  {
  }

  /** Taking one modulus off the dividend takes one off the quotient. */
  lemma QuotientShift(y: real, m: real)
    requires m > 0.0
    ensures (y - m) / m == y / m - 1.0
  {
    QuotientBounds(y - m, m);
    QuotientBounds(y, m);
    var q1, q2 := (y - m) / m, y / m;
    assert m * q1 == y - m;
    assert m * q2 == y;
    var d := q2 - 1.0;
    assert m * d == m * q2 - m;
    assert m * q1 == m * d;
    MulCancel(m, q1, d);
  }

  /**
   * JavaScript's `x % m`: the remainder keeps the sign of the dividend and,
   * for a positive modulus, its magnitude stays below the modulus.
   */
  function Rem(x: real, m: real): (r: real)
    requires m != 0.0
    ensures m > 0.0 && x >= 0.0 ==> 0.0 <= r < m
    ensures m > 0.0 && x <= 0.0 ==> -m < r <= 0.0
    ensures m > 0.0 && 0.0 <= x < m ==> r == x
  {
    RemBounds(x, m);
    x - m * (Trunc(x / m) as real)
  }

  lemma QuotientBounds(x: real, m: real)
    requires m > 0.0
    ensures x >= 0.0 ==> x / m >= 0.0
    ensures x <= 0.0 ==> x / m <= 0.0
    ensures x < m ==> x / m < 1.0
    ensures m * (x / m) == x
  {
    var q := x / m;
    if x < m && q >= 1.0 {
      MulNonneg(m, q - 1.0);
      assert false;
    }
  }

  lemma RemFromTrunc(x: real, m: real, k: real)
    requires m > 0.0
    requires -1.0 < x / m - k < 1.0
    ensures -m < x - m * k < m
    ensures x / m - k >= 0.0 ==> x - m * k >= 0.0
    ensures x / m - k <= 0.0 ==> x - m * k <= 0.0
  {
    var q := x / m;
    var d := q - k;
    QuotientBounds(x, m);
    assert m * q == x;
    Distribute(m, q, k);
    assert x - m * k == m * d;
    ScaleBelowOne(m, d);
    assert -m < m * d < m;
  }

  lemma Distribute(m: real, a: real, b: real)
    ensures m * (a - b) == m * a - m * b
  {
  }

  lemma RemBounds(x: real, m: real)
    requires m != 0.0
    ensures var r := x - m * (Trunc(x / m) as real);
      && (m > 0.0 && x >= 0.0 ==> 0.0 <= r < m)
      && (m > 0.0 && x <= 0.0 ==> -m < r <= 0.0)
      && (m > 0.0 && 0.0 <= x < m ==> r == x)
  {
    if m > 0.0 {
      QuotientBounds(x, m);
      RemFromTrunc(x, m, Trunc(x / m) as real);
    }
  }

  /** Taking one modulus off a dividend of at least one modulus keeps the remainder. */
  lemma RemMinusModulus(x: real, m: real)
    requires m > 0.0 && x >= m
    ensures Rem(x - m, m) == Rem(x, m)
  {
    QuotientShift(x, m);
    QuotientBounds(x - m, m);
    QuotientBounds(x, m);
    var t := (x / m).Floor;
    assert ((x - m) / m).Floor == t - 1;
    assert Trunc((x - m) / m) == t - 1 && Trunc(x / m) == t;
    Distribute(m, t as real, 1.0);
    assert m * (t - 1) as real == m * t as real - m;
  }

  /** The modulus leaves no remainder. */
  lemma RemOfModulus(m: real)
    requires m > 0.0
    ensures Rem(m, m) == 0.0
  {
    assert m / m == 1.0;
    assert Trunc(m / m) == 1;
  }

  /** A dividend strictly between `-m` and 0 is its own remainder. */
  lemma RemOfNegativeAbove(x: real, m: real)
    requires m > 0.0 && -m < x < 0.0
    ensures Rem(x, m) == x
  {
    QuotientBounds(-x, m);
    assert x / m == -((-x) / m);
    assert Trunc(x / m) == 0;
  }

  /** For a non-negative dividend the truncating remainder is the floored one. */
  lemma RemOfNonNegative(x: real, m: real)
    requires m > 0.0 && x >= 0.0
    ensures Rem(x, m) == x - m * (x / m).Floor as real
  {
    QuotientBounds(x, m);
  }

  /** `Math.round`: the nearest integer, halves rounded up. */
  function Round(x: real): (r: int)
    ensures x - 0.5 < r as real <= x + 0.5
  {
    (x + 0.5).Floor
  }

  lemma RoundMonotone(x: real, y: real)
    requires x <= y
    ensures Round(x) <= Round(y)
  {
  }

  /**
   * `Number(x.toFixed(2))`: `x` rounded to two decimals, halves rounded away
   * from zero (toFixed rounds the magnitude and keeps the sign).
   */
  function ToFixed2(x: real): (r: real)
    ensures x - 0.005 <= r <= x + 0.005
    ensures (r * 100.0).Floor as real == r * 100.0
  {
    var n := if x < 0.0 then -Round(-x * 100.0) else Round(x * 100.0);
    assert x * 100.0 - 0.5 <= n as real <= x * 100.0 + 0.5;
    assert (n as real / 100.0) * 100.0 == n as real;
    n as real / 100.0
  }

  /** Rounding to two decimals never reverses the order of two numbers. */
  lemma ToFixed2Monotone(x: real, y: real)
    requires x <= y
    ensures ToFixed2(x) <= ToFixed2(y)
  {
    if x < 0.0 && y < 0.0 {
      assert Round(-y * 100.0) <= Round(-x * 100.0);
    } else if 0.0 <= x {
      assert Round(x * 100.0) <= Round(y * 100.0);
    } else {
      assert ToFixed2(x) <= 0.0 <= ToFixed2(y);
    }
  }
}
