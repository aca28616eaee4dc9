/**
 * Real-number helpers standing in for the `f32` methods the ray tracer calls.
 * The model works over idealised reals: no rounding, no NaN. Infinite interval
 * bounds are modelled separately (see module Interval).
 */
module Reals {

  /** `f32::abs`. */
  function Abs(x: real): (r: real)
    ensures 0.0 <= r
    ensures r == x || r == -x
  {
    if x < 0.0 then -x else x
  }

  /** `f32::min` on non-NaN operands. */
  function Min(a: real, b: real): (r: real)
    ensures r <= a && r <= b
    ensures r == a || r == b
  {
    if a <= b then a else b
  }

  /** `f32::max` on non-NaN operands. */
  function Max(a: real, b: real): (r: real)
    ensures a <= r && b <= r
    ensures r == a || r == b
  {
    if a <= b then b else a
  }

  /** `f32::powi(5)`. */
  function Pow5(x: real): real
  {
    x * x * x * x * x
  }

  /**
   * The square root is not constructible in Dafny, so every operation that
   * needs `f32::sqrt` takes it as a parameter satisfying this predicate: on
   * non-negative inputs it returns the non-negative square root.
   */
  ghost predicate IsSqrt(sqrt: real -> real)
  {
    forall x :: 0.0 <= x ==> 0.0 <= sqrt(x) && sqrt(x) * sqrt(x) == x
  }

  // Ordered-field facts about products. The solver rewrites a comparison of
  // a product with zero into a statement about the signs of its factors, which
  // later steps cannot use; these lemmas therefore name the product `p` and
  // state the sign of `p` itself.

  lemma MulNonNeg(a: real, b: real, p: real)
    requires 0.0 <= a && 0.0 <= b && p == a * b
    ensures 0.0 <= p
  {
  }

  lemma MulPos(a: real, b: real, p: real)
    requires 0.0 < a && 0.0 < b && p == a * b
    ensures 0.0 < p
  {
  }

  /** A square is non-negative, and zero exactly when its root is. */
  lemma SquareSign(a: real, p: real)
    requires p == a * a
    ensures 0.0 <= p
    ensures p == 0.0 <==> a == 0.0
  {
    if 0.0 < a {
      MulPos(a, a, p);
    } else if a < 0.0 {
      MulPos(-a, -a, p);
    }
  }

  /** A sum of three squares is zero exactly when all three roots are. */
  lemma SumOfSquaresSign(a: real, b: real, c: real, s: real)
    requires s == a * a + b * b + c * c
    ensures 0.0 <= s
    ensures s == 0.0 <==> a == 0.0 && b == 0.0 && c == 0.0
  {
    SquareSign(a, a * a);
    SquareSign(b, b * b);
    SquareSign(c, c * c);
  }

  /** The product of anything with zero is zero. */
  lemma MulZero(a: real, b: real, p: real)
    requires b == 0.0 && p == a * b
    ensures p == 0.0
  {
  }

  /** A product is zero only when a factor is. */
  lemma ZeroProduct(a: real, b: real, p: real)
    requires p == a * b && p == 0.0
    ensures a == 0.0 || b == 0.0
  {
    if 0.0 < a && 0.0 < b {
      MulPos(a, b, p);
    } else if 0.0 < a && b < 0.0 {
      MulPos(a, -b, -p);
    } else if a < 0.0 && 0.0 < b {
      MulPos(-a, b, -p);
    } else if a < 0.0 && b < 0.0 {
      MulPos(-a, -b, p);
    }
  }

  /** Cancelling a non-zero factor: `a b == a` forces `b == 1`. */
  lemma MulCancel(a: real, b: real, p: real)
    requires a != 0.0 && p == a * b && p == a
    ensures b == 1.0
  {
    ZeroProduct(a, b - 1.0, p - a);
  }

  /** Multiplying by a non-negative factor keeps `<=`. */
  lemma MulLe(x: real, y: real, z: real)
    requires 0.0 <= x && y <= z
    ensures x * y <= x * z
  {
    MulNonNeg(x, z - y, x * (z - y));
    assert x * (z - y) == x * z - x * y;
  }

  /** Multiplying a non-negative value by a fraction keeps it between 0 and itself. */
  lemma MulShrinks(a: real, x: real, p: real)
    requires 0.0 <= a && 0.0 <= x <= 1.0 && p == a * x
    ensures 0.0 <= p <= a
  {
    MulNonNeg(a, x, p);
    MulNonNeg(a, 1.0 - x, a * (1.0 - x));
    assert a * (1.0 - x) == a - p;
  }

  lemma SquareLt(a: real, b: real)
    requires 0.0 <= a < b
    ensures a * a < b * b
  {
    MulPos(b - a, b + a, (b - a) * (b + a));
    assert (b - a) * (b + a) == b * b - a * a;
  }

  lemma SquareLe(a: real, b: real)
    requires 0.0 <= a <= b
    ensures a * a <= b * b
  {
    MulNonNeg(b - a, b + a, (b - a) * (b + a));
    assert (b - a) * (b + a) == b * b - a * a;
  }

  /** The non-negative square root is unique. */
  lemma SqrtUnique(x: real, s: real, s': real)
    requires 0.0 <= s && 0.0 <= s'
    requires s * s == x && s' * s' == x
    ensures s == s'
  {
    assert (s - s') * (s + s') == 0.0;
    if s + s' == 0.0 {
      assert s == 0.0 && s' == 0.0;
    } else {
      ZeroProduct(s - s', s + s', (s - s') * (s + s'));
    }
  }

  /** `sqrt(x * x) == |x|`. */
  lemma SqrtOfSquare(sqrt: real -> real, x: real)
    requires IsSqrt(sqrt)
    ensures sqrt(x * x) == Abs(x)
  {
    var s := sqrt(x * x);
    assert 0.0 <= s && s * s == x * x;
    assert Abs(x) * Abs(x) == x * x;
    SqrtUnique(x * x, s, Abs(x));
  }

  /** `SqrtOfSquare` for a value already known to be the square `x * x`. */
  lemma SqrtOfSquareAt(sqrt: real -> real, a: real, x: real)
    requires IsSqrt(sqrt)
    requires a == x * x
    ensures sqrt(a) == Abs(x)
  {
    SqrtOfSquare(sqrt, x);
  }

  /** A non-negative value whose square is at most 1 is at most 1. */
  lemma SquareAtMostOne(x: real)
    requires x * x <= 1.0
    ensures -1.0 <= x <= 1.0
  {
  }

  /** The square root is monotone and maps [0, 1] into [0, 1]. */
  lemma SqrtAtMostOne(sqrt: real -> real, x: real)
    requires IsSqrt(sqrt)
    requires 0.0 <= x <= 1.0
    ensures 0.0 <= sqrt(x) <= 1.0
  {
    var s := sqrt(x);
    assert s * s == x;
  }
}
