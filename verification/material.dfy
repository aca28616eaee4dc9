/**
 * Surface materials (rtcli/src/material.rs): the three kinds, the clamped
 * metallic constructor and Schlick's reflectance approximation.
 */
module Material {
  import opened Reals
  import opened Vec3

  datatype Material =
    | Diffuse(albedo: Color)
    | Metallic(albedo: Color, fuzz: real)
    | Dielectric(refractiveIndex: real)

  /**
   * A dielectric divides by its index and by one plus its index; both must
   * be non-zero for the arithmetic to be defined.
   */
  predicate ValidMaterial(m: Material)
  {
    m.Dielectric? ==> m.refractiveIndex != 0.0 && m.refractiveIndex != -1.0
  }

  /** `Metallic::new`: the fuzz radius is capped at 1. */
  function NewMetallic(albedo: Color, fuzz: real): (m: Material)
    ensures m.Metallic? && m.albedo == albedo
    ensures m.fuzz <= 1.0
    ensures fuzz <= 1.0 ==> m.fuzz == fuzz
    ensures 1.0 < fuzz ==> m.fuzz == 1.0
  {
    Metallic(albedo, Min(fuzz, 1.0))
  }

  /** Reflectance at normal incidence, `((1 - n) / (1 + n))^2`. */
  function R0(refractiveIndex: real): real
    requires refractiveIndex != -1.0
  {
    var q := (1.0 - refractiveIndex) / (1.0 + refractiveIndex);
    q * q
  }

  /**
   * `Dielectric::schlick_reflectance`. The source ignores its `ri` argument
   * and always uses the material's own index; so does the model.
   */
  function SchlickReflectance(refractiveIndex: real, cos: real, ri: real): (r: real)
    requires refractiveIndex != -1.0
    ensures cos == 1.0 ==> r == R0(refractiveIndex)
    ensures 0.0 <= refractiveIndex && 0.0 <= cos <= 1.0 ==> R0(refractiveIndex) <= r <= 1.0
  {
    var r0 := R0(refractiveIndex);
    var r := r0 + (1.0 - r0) * Pow5(1.0 - cos);
    assert 0.0 <= refractiveIndex && 0.0 <= cos <= 1.0 ==> r0 <= r <= 1.0 by {
      if 0.0 <= refractiveIndex && 0.0 <= cos <= 1.0 {
        R0Unit(refractiveIndex);
        Pow5Unit(1.0 - cos);
        BlendBetween(r0, Pow5(1.0 - cos), r);
      }
    }
    r
  }

  /** The reflectance does not depend on the ratio argument. */
  lemma SchlickIgnoresRatio(refractiveIndex: real, cos: real, ri: real, ri': real)
    requires refractiveIndex != -1.0
    ensures SchlickReflectance(refractiveIndex, cos, ri) == SchlickReflectance(refractiveIndex, cos, ri')
  {
  }

  /** For a non-negative index the normal-incidence reflectance is a fraction. */
  lemma R0Unit(n: real)
    requires 0.0 <= n
    ensures 0.0 <= R0(n) <= 1.0
  {
    var q := (1.0 - n) / (1.0 + n);
    assert q * (1.0 + n) == 1.0 - n;
    if 1.0 < q {
      MulPos(1.0 + n, q - 1.0, (1.0 + n) * (q - 1.0));
    }
    if q < -1.0 {
      MulPos(1.0 + n, -1.0 - q, (1.0 + n) * (-1.0 - q));
    }
    assert Abs(q) * Abs(q) == q * q;
    SquareLe(Abs(q), 1.0);
    SquareSign(q, q * q);
  }

  lemma Pow5Unit(x: real)
    requires 0.0 <= x <= 1.0
    ensures 0.0 <= Pow5(x) <= 1.0
  {
    MulShrinks(x, x, x * x);
    MulShrinks(x * x, x, x * x * x);
    MulShrinks(x * x * x, x, x * x * x * x);
    MulShrinks(x * x * x * x, x, Pow5(x));
  }

  /** `r0 + (1 - r0) k` lies between `r0` and 1 when both `r0` and `k` are fractions. */
  lemma BlendBetween(r0: real, k: real, r: real)
    requires 0.0 <= r0 <= 1.0 && 0.0 <= k <= 1.0
    requires r == r0 + (1.0 - r0) * k
    ensures r0 <= r <= 1.0
  {
    MulNonNeg(1.0 - r0, k, (1.0 - r0) * k);
    MulNonNeg(1.0 - r0, 1.0 - k, (1.0 - r0) * (1.0 - k));
  }
}
