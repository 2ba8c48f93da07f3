/** java.math.BigDecimal as the core uses it. Every amount in the core has at
    most two fraction digits, so it is held as a whole number of cents; a
    rounding to a fixed scale becomes an integer division. */
module Money {

  function Pow10(k: nat): (r: nat)
    ensures r >= 1
  {
    if k == 0 then 1 else 10 * Pow10(k - 1)
  }

  /** Division rounded with RoundingMode.HALF_UP: to the nearest integer,
      a tie going away from zero. */
  function HalfUpDiv(n: int, d: int): (r: int)
    requires d > 0
    ensures n >= 0 ==> r >= 0 && 2 * d * r <= 2 * n + d < 2 * d * r + 2 * d
    ensures n <= 0 ==> r <= 0 && 2 * d * (-r) <= 2 * (-n) + d < 2 * d * (-r) + 2 * d
  {
    if n >= 0 then (2 * n + d) / (2 * d) else -((2 * (-n) + d) / (2 * d))
  }

  /** The quotient is unique: any q that meets the rounding bounds is it. */
  lemma HalfUpUnique(n: int, d: int, q: int)
    requires d > 0 && n >= 0
    requires 2 * d * q <= 2 * n + d < 2 * d * q + 2 * d
    ensures HalfUpDiv(n, d) == q
  {
    var r := HalfUpDiv(n, d);
    if r < q {
      MulMonotone(2 * d, r + 1, q);
    } else if r > q {
      MulMonotone(2 * d, q + 1, r);
    }
  }

  lemma MulMonotone(k: int, a: int, b: int)
    requires k >= 0 && a <= b
    ensures k * a <= k * b
  {
  }

  lemma HalfUpMonotone(n1: int, n2: int, d: int)
    requires d > 0 && 0 <= n1 <= n2
    ensures HalfUpDiv(n1, d) <= HalfUpDiv(n2, d)
  {
    var r1, r2 := HalfUpDiv(n1, d), HalfUpDiv(n2, d);
    if r1 > r2 {
      MulMonotone(2 * d, r2 + 1, r1);
    }
  }

  lemma HalfUpExact(q: int, d: int)
    requires d > 0 && q >= 0
    ensures HalfUpDiv(q * d, d) == q
  {
    HalfUpUnique(q * d, d, q);
  }

  /** A whole multiple of the divisor passes through the rounding unchanged. */
  lemma HalfUpShift(a: int, b: int, d: int)
    requires d > 0 && a >= 0 && b >= 0
    ensures HalfUpDiv(a * d + b, d) == a + HalfUpDiv(b, d)
  {
    var q := HalfUpDiv(b, d);
    assert 2 * d * (a + q) == 2 * d * a + 2 * d * q;
    HalfUpUnique(a * d + b, d, a + q);
  }

  /** Scaling numerator and divisor by the same factor does not change the
      rounded quotient. */
  lemma HalfUpScale(n: int, d: int, k: int)
    requires d > 0 && k > 0 && n >= 0
    ensures HalfUpDiv(n * k, d * k) == HalfUpDiv(n, d)
  {
    var q := HalfUpDiv(n, d);
    assert 2 * (d * k) * q == (2 * d * q) * k;
    assert 2 * (n * k) + d * k == (2 * n + d) * k;
    assert 2 * (d * k) * q + 2 * (d * k) == (2 * d * q + 2 * d) * k;
    MulMonotone(k, 2 * d * q, 2 * n + d);
    MulStrict(k, 2 * n + d, 2 * d * q + 2 * d);
    HalfUpUnique(n * k, d * k, q);
  }

  /** Quotient and remainder are unique: any q, r with x = q·m + r and
      0 <= r < m are x / m and x % m. */
  lemma DivModUnique(x: int, m: int, q: int, r: int)
    requires m >= 1 && x == q * m + r && 0 <= r < m
    ensures x / m == q && x % m == r
  {
    var q', r' := x / m, x % m;
    assert (q - q') * m == r' - r;
    if q > q' {
      MulMonotone(m, 1, q - q');
    } else if q < q' {
      MulMonotone(m, 1, q' - q);
    }
  }

  lemma MulStrict(k: int, a: int, b: int)
    requires k > 0 && a < b
    ensures k * a < k * b
  {
  }

  /** A BigDecimal: `unscaled` × 10^(−`scale`). */
  datatype Decimal = Decimal(unscaled: int, scale: int)

  /** `setScale(2, RoundingMode.DOWN)` in cents: drop the digits past the
      second fraction digit, rounding toward zero. */
  function TruncateToCents(x: Decimal): (r: int)
    ensures x.scale <= 2 ==> r == x.unscaled * Pow10(2 - x.scale)
    ensures x.scale > 2 && x.unscaled >= 0 ==>
      0 <= r && r * Pow10(x.scale - 2) <= x.unscaled < (r + 1) * Pow10(x.scale - 2)
    ensures x.scale > 2 && x.unscaled < 0 ==>
      r <= 0 && (-r) * Pow10(x.scale - 2) <= -x.unscaled < (-r + 1) * Pow10(x.scale - 2)
  {
    if x.scale <= 2 then x.unscaled * Pow10(2 - x.scale)
    else
      var p := Pow10(x.scale - 2);
      if x.unscaled >= 0 then
        DivBounds(x.unscaled, p);
        x.unscaled / p
      else
        DivBounds(-x.unscaled, p);
        -((-x.unscaled) / p)
  }

  lemma DivBounds(n: int, p: int)
    requires n >= 0 && p > 0
    ensures 0 <= n / p && (n / p) * p <= n < (n / p + 1) * p
  {
    assert n == (n / p) * p + n % p;
  }
}
