/**
 * How each material scatters an incoming ray at a hit (rtcli/src/material.rs,
 * the `Scatter` trait). The random inputs are parameters: `unit` stands for
 * the value of `Vec3::random_unit()` and `draw` for `random_float()`.
 */
module Scattering {
  import opened Reals
  import opened Wrappers
  import opened Vec3
  import opened Ray
  import opened Material
  import opened HitRecord

  /**
   * The random inputs of one scatter: the accepted unit-ball sample behind
   * `random_unit` and the uniform draw in [0, 1) behind `random_float`.
   */
  datatype Sample = Sample(ball: Vec3, draw: real)

  /** `random_unit` normalises the ball sample, so a zero sample is excluded. */
  predicate ValidSample(s: Sample)
  {
    s.ball != Zero && LenSq(s.ball) < 1.0 && 0.0 <= s.draw < 1.0
  }

  /**
   * `Diffuse::scatter`: always scatters from the hit point with the albedo as
   * attenuation, towards `normal + unit`, or along the normal when that sum
   * (nearly) cancels out.
   */
  function ScatterDiffuse(albedo: Color, record: HitRecord, unit: Vec3): (r: Option<(Ray, Color)>)
    ensures r.Some? && r.value.0.origin == record.point && r.value.1 == albedo
    ensures IsNearZero(Add(record.normal, unit)) ==> r.value.0.direction == record.normal
    ensures !IsNearZero(Add(record.normal, unit)) ==> r.value.0.direction == Add(record.normal, unit)
  {
    var sum := Add(record.normal, unit);
    var direction := if IsNearZero(sum) then record.normal else sum;
    Some((Ray(record.point, direction), albedo))
  }

  /**
   * A diffuse bounce off a unit normal never has a zero direction and never
   * points into the surface.
   */
  lemma DiffuseLeavesSurface(albedo: Color, record: HitRecord, unit: Vec3)
    requires LenSq(record.normal) == 1.0 && LenSq(unit) == 1.0
    ensures var d := ScatterDiffuse(albedo, record, unit).value.0.direction;
      d != Zero && 0.0 <= Dot(d, record.normal)
  {
    var n := record.normal;
    NearZeroIsShort(Add(n, unit));
    UnitDotBounded(unit, n);
    assert Dot(Add(n, unit), n) == LenSq(n) + Dot(unit, n);
  }

  /**
   * `Metallic::scatter`: the mirror reflection, made unit and pushed by
   * `fuzz` times the random unit vector; the ray is absorbed (`None`) exactly
   * when the result does not point out of the surface. The source normalises
   * the reflection, so a zero incoming direction and a non-unit normal (which
   * could cancel it) are excluded.
   */
  function ScatterMetallic(albedo: Color, fuzz: real, ray: Ray, record: HitRecord, unit: Vec3,
                           sqrt: real -> real): (r: Option<(Ray, Color)>)
    requires IsSqrt(sqrt)
    requires ray.direction != Zero && LenSq(record.normal) == 1.0
    ensures r.None? <==>
      Dot(Add(Unit(Reflect(ray.direction, record.normal), sqrt), Scale(fuzz, unit)), record.normal) <= 0.0
    ensures r.Some? ==> r.value.0.origin == record.point && r.value.1 == albedo
    ensures r.Some? ==> r.value.0.direction == Add(Unit(Reflect(ray.direction, record.normal), sqrt), Scale(fuzz, unit))
    ensures r.Some? ==> r.value.0.direction != Zero
  {
    var reflected := Reflect(ray.direction, record.normal);
    var direction := Add(Unit(reflected, sqrt), Scale(fuzz, unit));
    if Dot(direction, record.normal) > 0.0 then Some((Ray(record.point, direction), albedo)) else None
  }

  /**
   * The unit mirror reflection of a ray arriving against the normal points out
   * of the surface.
   */
  lemma ReflectionLeaves(ray: Ray, n: Vec3, sqrt: real -> real)
    requires IsSqrt(sqrt)
    requires ray.direction != Zero && LenSq(n) == 1.0
    requires Dot(ray.direction, n) < 0.0
    ensures 0.0 < Dot(Unit(Reflect(ray.direction, n), sqrt), n)
  {
    var reflected := Reflect(ray.direction, n);
    var l := Len(reflected, sqrt);
    var u := Unit(reflected, sqrt);
    DotScale(l, u, n);
    assert Dot(reflected, n) == l * Dot(u, n);
    if Dot(u, n) <= 0.0 {
      MulNonNeg(l, -Dot(u, n), l * -Dot(u, n));
    }
  }

  /**
   * A metal whose fuzz is smaller than the outgoing cosine of the mirror
   * reflection always scatters, whatever unit vector perturbs it.
   */
  lemma MetallicScattersWhenFuzzSmall(albedo: Color, fuzz: real, ray: Ray, record: HitRecord, unit: Vec3,
                                      sqrt: real -> real)
    requires IsSqrt(sqrt)
    requires ray.direction != Zero && LenSq(record.normal) == 1.0
    requires LenSq(unit) == 1.0 && 0.0 <= fuzz
    requires fuzz < Dot(Unit(Reflect(ray.direction, record.normal), sqrt), record.normal)
    ensures ScatterMetallic(albedo, fuzz, ray, record, unit, sqrt).Some?
  {
    var n := record.normal;
    var m := Unit(Reflect(ray.direction, n), sqrt);
    DotAddScaled(m, fuzz, unit, n);
    UnitDotBounded(unit, n);
    MulNonNeg(fuzz, Dot(unit, n) + 1.0, fuzz * (Dot(unit, n) + 1.0));
  }

  /**
   * A perfect mirror (`fuzz == 0`) always scatters a ray that arrives against
   * the normal, and sends it along the unit mirror reflection.
   */
  lemma MirrorScatters(albedo: Color, ray: Ray, record: HitRecord, unit: Vec3, sqrt: real -> real)
    requires IsSqrt(sqrt)
    requires ray.direction != Zero && LenSq(record.normal) == 1.0
    requires Dot(ray.direction, record.normal) < 0.0
    ensures var r := ScatterMetallic(albedo, 0.0, ray, record, unit, sqrt);
      r.Some? && r.value.0.direction == Unit(Reflect(ray.direction, record.normal), sqrt)
  {
    ReflectionLeaves(ray, record.normal, sqrt);
    assert Add(Unit(Reflect(ray.direction, record.normal), sqrt), Scale(0.0, unit))
        == Unit(Reflect(ray.direction, record.normal), sqrt);
  }

  /**
   * The ratio of refractive indices at the surface: entering from outside
   * (`front_face`) it is `1 / index`, leaving it is `index`.
   */
  function RefractionRatio(refractiveIndex: real, frontFace: bool): (ri: real)
    requires refractiveIndex != 0.0
    ensures frontFace ==> ri * refractiveIndex == 1.0
    ensures !frontFace ==> ri == refractiveIndex
  {
    if frontFace then 1.0 / refractiveIndex else refractiveIndex
  }

  /** `cos_theta`: the cosine between the reversed unit direction and the normal. */
  function CosTheta(ray: Ray, record: HitRecord, sqrt: real -> real): real
    requires IsSqrt(sqrt) && ray.direction != Zero
  {
    Dot(Neg(Unit(ray.direction, sqrt)), record.normal)
  }

  /** Snell's law has no solution: the ray must reflect (`ri * sin_theta > 1`). */
  predicate CannotRefract(ri: real, cos: real, sqrt: real -> real)
  {
    ri * sqrt(1.0 - cos * cos) > 1.0
  }

  /**
   * `Dielectric::scatter`: always scatters from the hit point with white
   * attenuation; the unit direction is reflected when refraction is
   * impossible or when Schlick's reflectance beats the draw, and refracted
   * otherwise.
   */
  function ScatterDielectric(refractiveIndex: real, ray: Ray, record: HitRecord, draw: real,
                             sqrt: real -> real): (r: Option<(Ray, Color)>)
    requires IsSqrt(sqrt)
    requires refractiveIndex != 0.0 && refractiveIndex != -1.0
    requires ray.direction != Zero
    ensures r.Some? && r.value.0.origin == record.point && r.value.1 == Vec3(1.0, 1.0, 1.0)
    ensures var ri := RefractionRatio(refractiveIndex, record.frontFace);
      var cos := CosTheta(ray, record, sqrt);
      CannotRefract(ri, cos, sqrt) ==> r.value.0.direction == Reflect(Unit(ray.direction, sqrt), record.normal)
    ensures var ri := RefractionRatio(refractiveIndex, record.frontFace);
      var cos := CosTheta(ray, record, sqrt);
      SchlickReflectance(refractiveIndex, cos, ri) > draw ==>
        r.value.0.direction == Reflect(Unit(ray.direction, sqrt), record.normal)
    ensures var ri := RefractionRatio(refractiveIndex, record.frontFace);
      var cos := CosTheta(ray, record, sqrt);
      !CannotRefract(ri, cos, sqrt) && SchlickReflectance(refractiveIndex, cos, ri) <= draw ==>
        r.value.0.direction == Refract(Unit(ray.direction, sqrt), record.normal, ri, sqrt)
  {
    var attenuation := Vec3(1.0, 1.0, 1.0);
    var ri := RefractionRatio(refractiveIndex, record.frontFace);
    var unitDirection := Unit(ray.direction, sqrt);
    var cosTheta := Dot(Neg(unitDirection), record.normal);
    var direction :=
      if CannotRefract(ri, cosTheta, sqrt) || SchlickReflectance(refractiveIndex, cosTheta, ri) > draw then
        Reflect(unitDirection, record.normal)
      else
        Refract(unitDirection, record.normal, ri, sqrt);
    Some((Ray(record.point, direction), attenuation))
  }

  /** When refraction is impossible the draw plays no part. */
  lemma TotalInternalReflectionIgnoresDraw(refractiveIndex: real, ray: Ray, record: HitRecord,
                                           draw: real, draw': real, sqrt: real -> real)
    requires IsSqrt(sqrt)
    requires refractiveIndex != 0.0 && refractiveIndex != -1.0
    requires ray.direction != Zero
    requires CannotRefract(RefractionRatio(refractiveIndex, record.frontFace), CosTheta(ray, record, sqrt), sqrt)
    ensures ScatterDielectric(refractiveIndex, ray, record, draw, sqrt)
         == ScatterDielectric(refractiveIndex, ray, record, draw', sqrt)
  {
  }

  /**
   * Through a unit normal a dielectric sends out a unit direction: reflection
   * keeps the length of the unit direction, and refraction is only chosen
   * when Snell's law has a solution.
   */
  lemma DielectricDirectionIsUnit(refractiveIndex: real, ray: Ray, record: HitRecord, draw: real,
                                  sqrt: real -> real)
    requires IsSqrt(sqrt)
    requires 0.0 < refractiveIndex && refractiveIndex != -1.0
    requires ray.direction != Zero && LenSq(record.normal) == 1.0
    ensures LenSq(ScatterDielectric(refractiveIndex, ray, record, draw, sqrt).value.0.direction) == 1.0
  {
    var n := record.normal;
    var ri := RefractionRatio(refractiveIndex, record.frontFace);
    var u := Unit(ray.direction, sqrt);
    var cos := CosTheta(ray, record, sqrt);
    if !CannotRefract(ri, cos, sqrt) && SchlickReflectance(refractiveIndex, cos, ri) <= draw {
      if record.frontFace {
        MulPos(ri, refractiveIndex, ri * refractiveIndex);
      }
      RefractedIsUnit(u, n, ri, cos, sqrt);
    }
  }

  /** Refraction through a unit normal is a unit vector when Snell's law has a solution. */
  lemma RefractedIsUnit(u: Vec3, n: Vec3, ri: real, cos: real, sqrt: real -> real)
    requires IsSqrt(sqrt)
    requires LenSq(u) == 1.0 && LenSq(n) == 1.0
    requires cos == Dot(Neg(u), n) && 0.0 < ri
    requires !CannotRefract(ri, cos, sqrt)
    ensures LenSq(Refract(u, n, ri, sqrt)) == 1.0
  {
    var d := Dot(u, n);
    assert ri * ri * (1.0 - d * d) <= 1.0 by {
      assert cos == -d;
      UnitDotBounded(u, n);
      CosineBound(d, cos);
      SnellBound(ri, cos, d, sqrt);
    }
  }

  /** A cosine in [-1, 1] leaves a non-negative squared sine, shared by `c` and `-c`. */
  lemma CosineBound(dn: real, cos: real)
    requires -1.0 <= dn <= 1.0 && cos == -dn
    ensures 0.0 <= 1.0 - cos * cos
    ensures cos * cos == dn * dn
  {
    SquareLe(Abs(dn), 1.0);
    assert Abs(dn) * Abs(dn) == dn * dn;
  }

  /** `ri * sin <= 1` with a positive ratio bounds `ri^2 (1 - cos^2)` by 1. */
  lemma SnellBound(ri: real, cos: real, dn: real, sqrt: real -> real)
    requires IsSqrt(sqrt)
    requires 0.0 < ri && 0.0 <= 1.0 - cos * cos && cos * cos == dn * dn
    requires !CannotRefract(ri, cos, sqrt)
    ensures ri * ri * (1.0 - dn * dn) <= 1.0
  {
    assert sqrt(1.0 - cos * cos) * sqrt(1.0 - cos * cos) == 1.0 - dn * dn;
    MulNonNeg(ri, sqrt(1.0 - cos * cos), ri * sqrt(1.0 - cos * cos));
    SquareLe(ri * sqrt(1.0 - cos * cos), 1.0);
    assert (ri * sqrt(1.0 - cos * cos)) * (ri * sqrt(1.0 - cos * cos))
        == ri * ri * (sqrt(1.0 - cos * cos) * sqrt(1.0 - cos * cos));
  }



  /**
   * A dielectric of index 1 hit from outside passes the ray on unchanged
   * (as its unit direction) whenever the draw is not below the reflectance.
   */
  lemma IndexOnePassesStraight(ray: Ray, record: HitRecord, draw: real, sqrt: real -> real)
    requires IsSqrt(sqrt)
    requires ray.direction != Zero && LenSq(record.normal) == 1.0
    requires Dot(Unit(ray.direction, sqrt), record.normal) < 0.0
    requires SchlickReflectance(1.0, CosTheta(ray, record, sqrt), 1.0) <= draw
    ensures ScatterDielectric(1.0, ray, record, draw, sqrt).value.0.direction == Unit(ray.direction, sqrt)
  {
    var n := record.normal;
    var u := Unit(ray.direction, sqrt);
    var cos := CosTheta(ray, record, sqrt);
    var ri := RefractionRatio(1.0, record.frontFace);
    assert ri == 1.0;
    assert Dot(Neg(u), n) == -Dot(u, n);
    UnitDotBounded(u, n);
    IndexOneRefracts(cos, sqrt);
    SchlickIgnoresRatio(1.0, cos, ri, 1.0);
    RefractRatioOne(u, n, sqrt);
  }

  /** With a ratio of 1 Snell's law always has a solution: `sin_theta <= 1`. */
  lemma IndexOneRefracts(cos: real, sqrt: real -> real)
    requires IsSqrt(sqrt)
    requires -1.0 <= cos <= 1.0
    ensures !CannotRefract(1.0, cos, sqrt)
  {
    SquareLe(Abs(cos), 1.0);
    assert Abs(cos) * Abs(cos) == cos * cos;
    SquareSign(cos, cos * cos);
    SqrtAtMostOne(sqrt, 1.0 - cos * cos);
  }

  /**
   * The dispatch of `Scatter::scatter` over the material kinds. Diffuse and
   * dielectric materials always scatter; through a unit normal every
   * scattered ray has a non-zero direction, so it can be traced further.
   */
  function Scatter(m: Material, ray: Ray, record: HitRecord, sample: Sample, sqrt: real -> real): (r: Option<(Ray, Color)>)
    requires IsSqrt(sqrt) && ValidMaterial(m) && ValidSample(sample)
    requires ray.direction != Zero && LenSq(record.normal) == 1.0
    ensures r.Some? ==> r.value.0.origin == record.point
    ensures r.Some? ==> r.value.0.direction != Zero
    ensures m.Diffuse? || m.Dielectric? ==> r.Some?
    ensures m.Diffuse? || m.Metallic? ==> r.Some? ==> r.value.1 == m.albedo
    ensures m.Dielectric? ==> r.Some? && r.value.1 == Vec3(1.0, 1.0, 1.0)
  {
    var unit := RandomUnit(sample.ball, sqrt);
    match m
    case Diffuse(albedo) =>
      DiffuseLeavesSurface(albedo, record, unit);
      ScatterDiffuse(albedo, record, unit)
    case Metallic(albedo, fuzz) =>
      ScatterMetallic(albedo, fuzz, ray, record, unit, sqrt)
    case Dielectric(refractiveIndex) =>
      DielectricDirectionNonZero(refractiveIndex, ray, record, sample.draw, sqrt);
      ScatterDielectric(refractiveIndex, ray, record, sample.draw, sqrt)
  }

  /** Through a unit normal a dielectric's direction is never zero, whatever the index. */
  lemma DielectricDirectionNonZero(refractiveIndex: real, ray: Ray, record: HitRecord, draw: real,
                                   sqrt: real -> real)
    requires IsSqrt(sqrt)
    requires refractiveIndex != 0.0 && refractiveIndex != -1.0
    requires ray.direction != Zero && LenSq(record.normal) == 1.0
    ensures ScatterDielectric(refractiveIndex, ray, record, draw, sqrt).value.0.direction != Zero
  {
    var n := record.normal;
    var ri := RefractionRatio(refractiveIndex, record.frontFace);
    var u := Unit(ray.direction, sqrt);
    var d := ScatterDielectric(refractiveIndex, ray, record, draw, sqrt).value.0.direction;
    if d != Reflect(u, n) {
      assert d == Refract(u, n, ri, sqrt);
    }
  }
}
