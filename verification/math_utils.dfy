/**
 * The reduced ("h") form of the quadratic machinery (src/utils/math.rs).
 * A ray meets a sphere where `a t^2 - 2 h t + c = 0`; the discriminant of that
 * form is `h^2 - a c`.
 */
module MathUtils {
  import opened Reals
  import opened Wrappers

  function Discriminant(a: real, h: real, c: real): real
  {
    h * h - a * c
  }

  /** `t` solves `a t^2 - 2 h t + c = 0`. */
  predicate IsRoot(a: real, h: real, c: real, t: real)
  {
    a * t * t - 2.0 * h * t + c == 0.0
  }

  /**
   * `discriminant_intersections`: how many times the ray meets the surface,
   * by the sign of the discriminant.
   */
  function DiscriminantIntersections(a: real, h: real, c: real): (r: Option<nat>)
    ensures r == Some(2) <==> Discriminant(a, h, c) > 0.0
    ensures r == Some(1) <==> Discriminant(a, h, c) == 0.0
    ensures r == None <==> Discriminant(a, h, c) < 0.0
  {
    var d := Discriminant(a, h, c);
    if d > 0.0 then Some(2)
    else if d == 0.0 then Some(1)
    else None
  }

  /**
   * `quadratic_formula`: `None` when the discriminant is negative, otherwise
   * the pair `((h - sqrt d) / a, (h + sqrt d) / a)`. The source divides by `a`
   * without a check; `a == 0` yields infinities and is excluded here.
   */
  function QuadraticFormula(a: real, h: real, c: real, sqrt: real -> real): (r: Option<(real, real)>)
    requires IsSqrt(sqrt)
    requires a != 0.0
    ensures r.None? <==> Discriminant(a, h, c) < 0.0
    ensures r.None? ==> forall t :: !IsRoot(a, h, c, t)
    ensures r.Some? ==> IsRoot(a, h, c, r.value.0) && IsRoot(a, h, c, r.value.1)
    ensures r.Some? ==> forall t :: IsRoot(a, h, c, t) ==> t == r.value.0 || t == r.value.1
    ensures r.Some? && 0.0 < a ==> r.value.0 <= r.value.1
    ensures r.Some? ==> (r.value.0 == r.value.1 <==> Discriminant(a, h, c) == 0.0)
  {
    var d := Discriminant(a, h, c);
    if d < 0.0 then
      NoRootWhenNegative(a, h, c);
      None
    else
      var s := sqrt(d);
      assert 0.0 <= s && s * s == d;
      FormulaRoots(a, h, c, s);
      Some(((h - s) / a, (h + s) / a))
  }

  /** Multiplying the equation by `a` completes the square. */
  lemma CompletedSquare(a: real, h: real, c: real, t: real)
    ensures a * (a * t * t - 2.0 * h * t + c) == (a * t - h) * (a * t - h) - Discriminant(a, h, c)
  {
  }

  /** With a negative discriminant the equation has no real solution. */
  lemma NoRootWhenNegative(a: real, h: real, c: real)
    requires Discriminant(a, h, c) < 0.0
    ensures forall t :: !IsRoot(a, h, c, t)
  {
    forall t
      ensures !IsRoot(a, h, c, t)
    {
      var q := a * t * t - 2.0 * h * t + c;
      var e := a * t - h;
      CompletedSquare(a, h, c, t);
      SquareSign(e, e * e);
      if q == 0.0 {
        MulZero(a, q, a * q);
      }
    }
  }

  /** `t == x / a` exactly when `a t == x`. */
  lemma DivIff(x: real, a: real, t: real)
    requires a != 0.0
    ensures t == x / a <==> a * t == x
  {
    if a * t == x {
      assert t == (a * t) / a;
    }
  }

  /**
   * With `s` the non-negative square root of the discriminant, the two
   * quotients are roots, every root is one of them, they are ordered when
   * `a > 0`, and they coincide exactly when the discriminant is zero.
   */
  lemma FormulaRoots(a: real, h: real, c: real, s: real)
    requires a != 0.0
    requires 0.0 <= s && s * s == Discriminant(a, h, c)
    ensures IsRoot(a, h, c, (h - s) / a) && IsRoot(a, h, c, (h + s) / a)
    ensures forall t :: IsRoot(a, h, c, t) ==> t == (h - s) / a || t == (h + s) / a
    ensures 0.0 < a ==> (h - s) / a <= (h + s) / a
    ensures (h - s) / a == (h + s) / a <==> Discriminant(a, h, c) == 0.0
  {
    QuotientIsRoot(a, h, c, s, h - s);
    QuotientIsRoot(a, h, c, s, h + s);
    forall t | IsRoot(a, h, c, t)
      ensures t == (h - s) / a || t == (h + s) / a
    {
      RootIsQuotient(a, h, c, s, t);
    }
    var lo := (h - s) / a;
    var hi := (h + s) / a;
    DivIff(h - s, a, lo);
    DivIff(h + s, a, hi);
    assert a * (hi - lo) == 2.0 * s;
    if 0.0 < a && hi < lo {
      MulPos(a, lo - hi, a * (lo - hi));
    }
    if lo == hi {
      MulZero(a, hi - lo, a * (hi - lo));
    }
    SquareSign(s, s * s);
  }

  lemma QuotientIsRoot(a: real, h: real, c: real, s: real, x: real)
    requires a != 0.0
    requires s * s == Discriminant(a, h, c)
    requires x == h - s || x == h + s
    ensures IsRoot(a, h, c, x / a)
  {
    var t := x / a;
    DivIff(x, a, t);
    var q := a * t * t - 2.0 * h * t + c;
    CompletedSquare(a, h, c, t);
    assert (a * t - h) * (a * t - h) == s * s;
    ZeroProduct(a, q, a * q);
  }

  lemma RootIsQuotient(a: real, h: real, c: real, s: real, t: real)
    requires a != 0.0
    requires s * s == Discriminant(a, h, c)
    requires IsRoot(a, h, c, t)
    ensures t == (h - s) / a || t == (h + s) / a
  {
    var q := a * t * t - 2.0 * h * t + c;
    CompletedSquare(a, h, c, t);
    MulZero(a, q, a * q);
    var u := a * t - h - s;
    var w := a * t - h + s;
    assert u * w == (a * t - h) * (a * t - h) - s * s;
    ZeroProduct(u, w, u * w);
    DivIff(h + s, a, t);
    DivIff(h - s, a, t);
  }

  /**
   * The intersection count is the number of distinct real roots: none, one
   * (a tangent) or two.
   */
  lemma IntersectionsCountRoots(a: real, h: real, c: real, sqrt: real -> real)
    requires IsSqrt(sqrt)
    requires a != 0.0
    ensures DiscriminantIntersections(a, h, c) == None <==> forall t :: !IsRoot(a, h, c, t)
    ensures DiscriminantIntersections(a, h, c) == Some(1) ==>
              exists t :: IsRoot(a, h, c, t) && forall t' :: IsRoot(a, h, c, t') ==> t' == t
    ensures DiscriminantIntersections(a, h, c) == Some(2) ==>
              exists t, t' :: t < t' && IsRoot(a, h, c, t) && IsRoot(a, h, c, t')
  {
    var r := QuadraticFormula(a, h, c, sqrt);
    if r.Some? {
      var (lo, hi) := r.value;
      assert IsRoot(a, h, c, lo) && IsRoot(a, h, c, hi);
      if Discriminant(a, h, c) > 0.0 {
        if lo < hi {
          assert lo < hi && IsRoot(a, h, c, lo) && IsRoot(a, h, c, hi);
        } else {
          assert hi < lo && IsRoot(a, h, c, hi) && IsRoot(a, h, c, lo);
        }
      }
    }
  }
}
