/**
 * Facts about products of reals that the geometry proofs rely on. The positive-product
 * facts are stated as `!(p <= 0.0)` so that they reach the solver as a bound on the product
 * itself rather than as a condition on the signs of its factors.
 */
module RealArith {

  function Abs(x: real): (r: real)
    ensures r >= 0.0 && (r == x || r == -x)
  {
    if x < 0.0 then -x else x
  }

  /** The product of two positive reals is positive. */
  lemma MulPositive(a: real, b: real)
    requires a > 0.0 && b > 0.0
    ensures !(a * b <= 0.0)
  {
  }

  /** The product of two negative reals is positive. */
  lemma MulNegative(a: real, b: real)
    requires a < 0.0 && b < 0.0
    ensures !(a * b <= 0.0)
  {
  }

  /** The product of two non-negative reals is non-negative. */
  lemma MulNonNegative(a: real, b: real)
    requires a >= 0.0 && b >= 0.0
    ensures a * b >= 0.0
  {
  }

  /** The square of a non-zero real is positive. */
  lemma SquarePositive(x: real)
    requires x != 0.0
    ensures !(x * x <= 0.0)
  {
    if x > 0.0 {
      MulPositive(x, x);
    } else {
      MulNegative(x, x);
    }
  }

  /** Only zero squares to zero. */
  lemma SquareZero(x: real)
    requires x * x == 0.0
    ensures x == 0.0
  {
    if x != 0.0 {
      SquarePositive(x);
    }
  }

  /** A product is zero only if a factor is: a non-zero factor forces the other to zero. */
  lemma ZeroProduct(p: real, q: real)
    requires p * q == 0.0 && q != 0.0
    ensures p == 0.0
  {
  }

  /** Squaring is monotone on magnitudes: |a| <= c implies a*a <= c*c. */
  lemma SquareBelow(a: real, c: real)
    requires -c <= a <= c
    ensures a * a <= c * c
  {
    MulNonNegative(c - a, c + a);
  }

  /** Two non-negative reals with equal squares are equal. */
  lemma SquareRootUnique(a: real, b: real)
    requires a >= 0.0 && b >= 0.0 && a * a == b * b
    ensures a == b
  {
    if a + b != 0.0 {
      ZeroProduct(a - b, a + b);
    }
  }

  /** The quotient of two positive reals is positive. */
  lemma DivPositive(a: real, b: real)
    requires a > 0.0 && b > 0.0
    ensures a / b > 0.0
  {
    var k := a / b;
    assert k * b == a;
    if k <= 0.0 {
      MulNonNegative(-k, b);
    }
  }

  /** If k is positive and k * d is positive, then d is positive. */
  lemma PositiveFactor(k: real, d: real)
    requires k > 0.0 && !(k * d <= 0.0)
    ensures d > 0.0
  {
    if d <= 0.0 {
      MulNonNegative(k, -d);
    }
  }

  /** If k is negative and k * d is positive, then d is negative. */
  lemma NegativeFactor(k: real, d: real)
    requires k < 0.0 && !(k * d <= 0.0)
    ensures d < 0.0
  {
    if d >= 0.0 {
      MulNonNegative(-k, d);
    }
  }

  /** For a non-negative bound c: |a| <= c exactly when a*a <= c*c. */
  lemma AbsBoundSquared(a: real, c: real)
    requires c >= 0.0
    ensures Abs(a) <= c <==> a * a <= c * c
  {
    if -c <= a <= c {
      SquareBelow(a, c);
    } else if a > c {
      MulPositive(a - c, a + c);
    } else {
      MulNegative(a - c, a + c);
    }
  }

  /** Multiplying both sides by a positive real keeps an inequality, in both directions. */
  lemma MulMonotone(x: real, y: real, n: real)
    requires n > 0.0
    ensures x <= y <==> x * n <= y * n
  {
    if x <= y {
      MulNonNegative(y - x, n);
    } else {
      MulPositive(x - y, n);
    }
  }

  /**
   * If k*k*n == 1 for a positive n, then |k*d| <= e exactly when d*d <= e*e*n: a bound on a
   * value divided by a square root of n, restated without the root.
   */
  lemma ScaledBound(k: real, d: real, n: real, e: real)
    requires k * k * n == 1.0 && n > 0.0 && e >= 0.0
    ensures Abs(k * d) <= e <==> d * d <= e * e * n
  {
    var a := k * d;
    AbsBoundSquared(a, e);
    MulMonotone(a * a, e * e, n);
    assert a * a * n == (k * k * n) * (d * d);
  }

  /** Zero squared is below any product of non-negative reals. */
  lemma ZeroSquareBelow(d: real, c: real, n: real)
    requires d == 0.0 && c >= 0.0 && n >= 0.0
    ensures d * d <= c * n
  {
    MulNonNegative(c, n);
  }
}
