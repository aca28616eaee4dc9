/**
 * The classical ("b") form of the discriminant (src/math.rs): for
 * `a t^2 + b t + c = 0` the discriminant is `b^2 - 4 a c`.
 */
module Math {
  import opened Wrappers
  import MathUtils

  function Discriminant(a: real, b: real, c: real): real
  {
    b * b - 4.0 * a * c
  }

  /** `t` solves `a t^2 + b t + c = 0`. */
  predicate IsRoot(a: real, b: real, c: real, t: real)
  {
    a * t * t + b * t + c == 0.0
  }

  /** The intersection count, by the sign of the classical discriminant. */
  function DiscriminantIntersections(a: real, b: real, c: real): (r: Option<nat>)
    ensures r == Some(2) <==> Discriminant(a, b, c) > 0.0
    ensures r == Some(1) <==> Discriminant(a, b, c) == 0.0
    ensures r == None <==> Discriminant(a, b, c) < 0.0
  {
    var d := Discriminant(a, b, c);
    if d > 0.0 then Some(2)
    else if d == 0.0 then Some(1)
    else None
  }

  /**
   * The two forms describe the same equation when `b == -2 h`: the classical
   * discriminant is four times the reduced one, so both count the same
   * intersections and have the same roots.
   */
  lemma FormsAgree(a: real, h: real, c: real)
    ensures Discriminant(a, -2.0 * h, c) == 4.0 * MathUtils.Discriminant(a, h, c)
    ensures DiscriminantIntersections(a, -2.0 * h, c) == MathUtils.DiscriminantIntersections(a, h, c)
    ensures forall t :: IsRoot(a, -2.0 * h, c, t) <==> MathUtils.IsRoot(a, h, c, t)
  {
  }
}
