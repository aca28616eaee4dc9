/**
 * Ray-sphere intersection (src/object/sphere.rs). Substituting the ray
 * `Q + t d` into `|P - C|^2 = r^2` gives `a t^2 - 2 h t + c = 0` with
 * `a = d . d`, `h = d . (C - Q)` and `c = |C - Q|^2 - r^2`; the sphere keeps the
 * nearer root that lies strictly inside the search window.
 */
module Sphere {
  import opened Reals
  import opened Wrappers
  import opened Interval
  import opened Vec3
  import opened Ray
  import opened Material
  import opened HitRecord
  import MathUtils

  datatype Sphere = Sphere(center: Point3, radius: real, material: Material)

  /** The radius divides the outward normal, so a zero radius is excluded. */
  predicate ValidSphere(s: Sphere)
  {
    s.radius != 0.0
  }

  /** A degenerate ray with zero direction makes `a == 0`; it is excluded. */
  predicate ValidRay(ray: Ray)
  {
    ray.direction != Zero
  }

  /** `p` is on the surface of `s`. */
  predicate OnSphere(s: Sphere, p: Point3)
  {
    LenSq(Sub(p, s.center)) == s.radius * s.radius
  }

  function CoefA(ray: Ray): real
  {
    LenSq(ray.direction)
  }

  function CoefH(s: Sphere, ray: Ray): real
  {
    Dot(Sub(s.center, ray.origin), ray.direction)
  }

  function CoefC(s: Sphere, ray: Ray): real
  {
    LenSq(Sub(s.center, ray.origin)) - s.radius * s.radius
  }

  /** The record assembled for a hit at parameter `t`. */
  function Record(s: Sphere, ray: Ray, t: real): HitRecord
    requires ValidSphere(s)
  {
    var point := At(ray, t);
    NewHitRecord(t, ray, point, Div(Sub(point, s.center), s.radius), s.material)
  }

  /**
   * `Sphere::hit`: `None` when the ray misses the sphere or no root lies
   * strictly inside `rayT`; otherwise the record of the nearer root inside
   * `rayT`. `HitIsNearestSurfacePoint` states what the result means.
   */
  function Hit(s: Sphere, ray: Ray, rayT: Interval, sqrt: real -> real): (r: Option<HitRecord>)
    requires IsSqrt(sqrt)
    requires ValidSphere(s) && ValidRay(ray)
    ensures MathUtils.Discriminant(CoefA(ray), CoefH(s, ray), CoefC(s, ray)) < 0.0 ==> r.None?
    ensures r.Some? ==> Surrounds(rayT, r.value.t)
  {
    var a := CoefA(ray);
    var h := CoefH(s, ray);
    var c := CoefC(s, ray);
    match MathUtils.QuadraticFormula(a, h, c, sqrt)
    case None => None
    case Some((minus, plus)) =>
      if Surrounds(rayT, minus) then Some(Record(s, ray, minus))
      else if Surrounds(rayT, plus) then Some(Record(s, ray, plus))
      else None
  }

  /**
   * The hit is the nearest surface point strictly inside the window: its
   * record is assembled at a surface point, no surface point inside `rayT`
   * comes before it, and `None` means no surface point lies inside `rayT`.
   */
  lemma HitIsNearestSurfacePoint(s: Sphere, ray: Ray, rayT: Interval, sqrt: real -> real)
    requires IsSqrt(sqrt)
    requires ValidSphere(s) && ValidRay(ray)
    ensures var r := Hit(s, ray, rayT, sqrt);
      r.Some? ==> OnSphere(s, At(ray, r.value.t)) && r.value == Record(s, ray, r.value.t)
    ensures var r := Hit(s, ray, rayT, sqrt);
      r.Some? ==> forall t :: Surrounds(rayT, t) && OnSphere(s, At(ray, t)) ==> r.value.t <= t
    ensures Hit(s, ray, rayT, sqrt).None? ==> forall t :: Surrounds(rayT, t) ==> !OnSphere(s, At(ray, t))
  {
    SurfaceIsRoots(s, ray);
  }

  /** The surface points along the ray are exactly the roots of the sphere's quadratic. */
  lemma SurfaceIsRoots(s: Sphere, ray: Ray)
    requires ValidRay(ray)
    ensures 0.0 < CoefA(ray)
    ensures forall t :: OnSphere(s, At(ray, t)) <==> MathUtils.IsRoot(CoefA(ray), CoefH(s, ray), CoefC(s, ray), t)
  {
    forall t
      ensures OnSphere(s, At(ray, t)) <==> MathUtils.IsRoot(CoefA(ray), CoefH(s, ray), CoefC(s, ray), t)
    {
      OnSphereIffRoot(s, ray, t);
    }
  }

  lemma OnSphereIffRoot(s: Sphere, ray: Ray, t: real)
    ensures OnSphere(s, At(ray, t)) <==> MathUtils.IsRoot(CoefA(ray), CoefH(s, ray), CoefC(s, ray), t)
  {
    OffsetFromCenter(s.center, ray, t);
    LenSqSubScaled(Sub(s.center, ray.origin), t, ray.direction);
  }

  /** The offset of `ray.at(t)` from `c` is the reverse of `(c - origin) - t direction`. */
  lemma OffsetFromCenter(c: Point3, ray: Ray, t: real)
    ensures LenSq(Sub(At(ray, t), c)) == LenSq(Sub(Sub(c, ray.origin), Scale(t, ray.direction)))
  {
    assert Sub(At(ray, t), c) == Neg(Sub(Sub(c, ray.origin), Scale(t, ray.direction)));
    LenSqNeg(Sub(Sub(c, ray.origin), Scale(t, ray.direction)));
  }

  /** The outward normal of a surface point is a unit vector. */
  lemma OutwardNormalIsUnit(s: Sphere, p: Point3)
    requires ValidSphere(s) && OnSphere(s, p)
    ensures LenSq(Div(Sub(p, s.center), s.radius)) == 1.0
  {
    var n := Div(Sub(p, s.center), s.radius);
    var q := LenSq(Scale(s.radius, n));
    assert Scale(s.radius, n) == Sub(p, s.center);
    LenSqScale(s.radius, n);
    SquareSign(s.radius, s.radius * s.radius);
    MulCancel(s.radius * s.radius, LenSq(n), q);
  }

  /**
   * A hit's record carries the point `ray.at(t)`, lies on the surface, and its
   * normal is the unit outward normal turned against the ray.
   */
  lemma HitRecordFacts(s: Sphere, ray: Ray, rayT: Interval, sqrt: real -> real)
    requires IsSqrt(sqrt)
    requires ValidSphere(s) && ValidRay(ray)
    requires Hit(s, ray, rayT, sqrt).Some?
    ensures var rec := Hit(s, ray, rayT, sqrt).value;
      rec.point == At(ray, rec.t) && OnSphere(s, rec.point) &&
      LenSq(rec.normal) == 1.0 && Dot(ray.direction, rec.normal) <= 0.0 &&
      rec.material == s.material
  {
    var rec := Hit(s, ray, rayT, sqrt).value;
    HitIsNearestSurfacePoint(s, ray, rayT, sqrt);
    OutwardNormalIsUnit(s, At(ray, rec.t));
  }

  /**
   * If the nearer root is strictly inside the window it is the one chosen,
   * even when the farther root is inside too.
   */
  lemma NearerRootPreferred(s: Sphere, ray: Ray, rayT: Interval, sqrt: real -> real, minus: real, plus: real)
    requires IsSqrt(sqrt)
    requires ValidSphere(s) && ValidRay(ray)
    requires MathUtils.QuadraticFormula(CoefA(ray), CoefH(s, ray), CoefC(s, ray), sqrt) == Some((minus, plus))
    ensures Surrounds(rayT, minus) ==> Hit(s, ray, rayT, sqrt) == Some(Record(s, ray, minus))
    ensures !Surrounds(rayT, minus) && Surrounds(rayT, plus) ==> Hit(s, ray, rayT, sqrt) == Some(Record(s, ray, plus))
    ensures !Surrounds(rayT, minus) && !Surrounds(rayT, plus) ==> Hit(s, ray, rayT, sqrt).None?
  {
  }

  /**
   * Shrinking the window's upper end to a finite `hi` below it keeps a hit
   * exactly when the hit lies below `hi`, and then keeps the same record.
   */
  lemma NarrowedHit(s: Sphere, ray: Ray, rayT: Interval, hi: real, sqrt: real -> real)
    requires IsSqrt(sqrt)
    requires ValidSphere(s) && ValidRay(ray)
    requires BelowBound(hi, rayT.max)
    ensures var full := Hit(s, ray, rayT, sqrt);
      Hit(s, ray, Interval(rayT.min, Fin(hi)), sqrt) ==
        (if full.Some? && full.value.t < hi then full else None)
  {
    var narrow := Interval(rayT.min, Fin(hi));
    var full := Hit(s, ray, rayT, sqrt);
    var part := Hit(s, ray, narrow, sqrt);
    HitIsNearestSurfacePoint(s, ray, rayT, sqrt);
    HitIsNearestSurfacePoint(s, ray, narrow, sqrt);
    if part.Some? {
      SurroundsNarrowed(rayT, hi, part.value.t);
      assert full.Some?;
      SurroundsNarrowed(rayT, hi, full.value.t);
      assert full.value.t == part.value.t;
    } else if full.Some? && full.value.t < hi {
      SurroundsNarrowed(rayT, hi, full.value.t);
      assert false;
    }
  }
}
