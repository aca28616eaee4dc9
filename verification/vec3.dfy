/**
 * Three-component vectors (src/vec3.rs). `Point3` and `Color` share the
 * representation: the source's `Color` struct has the same component-wise
 * operators as `Vec3`, so one datatype serves both.
 */
module Vec3 {
  import opened Reals

  datatype Vec3 = Vec3(x: real, y: real, z: real)

  type Point3 = Vec3

  type Color = Vec3

  const Zero: Vec3 := Vec3(0.0, 0.0, 0.0)

  /** The per-component magnitude below which a vector counts as near zero. */
  const NearZeroLimit: real := 0.000001

  /** Unary `-`. */
  function Neg(v: Vec3): Vec3
  {
    Vec3(-v.x, -v.y, -v.z)
  }

  /** `+` and `+=`. */
  function Add(a: Vec3, b: Vec3): Vec3
  {
    Vec3(a.x + b.x, a.y + b.y, a.z + b.z)
  }

  /** `-` and `-=`. */
  function Sub(a: Vec3, b: Vec3): Vec3
  {
    Vec3(a.x - b.x, a.y - b.y, a.z - b.z)
  }

  /** Component-wise `Vec3 * Vec3` (colour tinting). */
  function Mul(a: Vec3, b: Vec3): Vec3
  {
    Vec3(a.x * b.x, a.y * b.y, a.z * b.z)
  }

  /** `f32 * Vec3`, `Vec3 * f32` and `*=`. */
  function Scale(t: real, v: Vec3): Vec3
  {
    Vec3(t * v.x, t * v.y, t * v.z)
  }

  /** `Vec3 / f32`; a zero divisor yields infinities in `f32` and is excluded here. */
  function Div(v: Vec3, t: real): (r: Vec3)
    requires t != 0.0
    ensures Scale(t, r) == v
  {
    Vec3(v.x / t, v.y / t, v.z / t)
  }

  /**
   * `Vec3 /= f32` and `Color /= f32` as written: the z component is divided
   * three times and x and y are left untouched.
   */
  function DivAssign(v: Vec3, t: real): (r: Vec3)
    requires t != 0.0
    ensures r.x == v.x && r.y == v.y
    ensures r.z * (t * t * t) == v.z
  {
    var z1 := v.z / t;
    var z2 := z1 / t;
    var z3 := z2 / t;
    Vec3(v.x, v.y, z3)
  }

  /**
   * `/=` as evidently intended: the three in-place updates touch x, y and z
   * once each, so the result agrees with `/` and scaling back restores `v`.
   */
  function DivAssignIntended(v: Vec3, t: real): (r: Vec3)
    requires t != 0.0
    ensures r == Div(v, t)
    ensures Scale(t, r) == v
  {
    var v1 := v.(x := v.x / t);
    var v2 := v1.(y := v1.y / t);
    v2.(z := v2.z / t)
  }

  /** Dividing (1, 1, 1) by 2 in place leaves x and y at 1 and makes z 1/8. */
  lemma DivAssignCounterexample()
    ensures DivAssign(Vec3(1.0, 1.0, 1.0), 2.0) == Vec3(1.0, 1.0, 0.125)
    ensures Scale(2.0, DivAssign(Vec3(1.0, 1.0, 1.0), 2.0)) != Vec3(1.0, 1.0, 1.0)
    ensures DivAssignIntended(Vec3(1.0, 1.0, 1.0), 2.0) == Div(Vec3(1.0, 1.0, 1.0), 2.0)
  {
    assert Scale(2.0, DivAssign(Vec3(1.0, 1.0, 1.0), 2.0)).x == 2.0;
  }

  function Dot(a: Vec3, b: Vec3): real
  {
    a.x * b.x + a.y * b.y + a.z * b.z
  }

  /** `len_sq`: zero exactly for the zero vector. */
  function LenSq(v: Vec3): (r: real)
    ensures 0.0 <= r
    ensures r == 0.0 <==> v == Zero
  {
    SumOfSquaresSign(v.x, v.y, v.z, v.x * v.x + v.y * v.y + v.z * v.z);
    v.x * v.x + v.y * v.y + v.z * v.z
  }

  /** `len`, with the square root supplied by the caller. */
  function Len(v: Vec3, sqrt: real -> real): (r: real)
    requires IsSqrt(sqrt)
    ensures 0.0 <= r && r * r == LenSq(v)
    ensures r == 0.0 <==> v == Zero
  {
    var l := LenSq(v);
    var r := sqrt(l);
    assert 0.0 <= r && r * r == l;
    SquareSign(r, r * r);
    r
  }

  /** `cross`: the result is orthogonal to both operands. */
  function Cross(a: Vec3, b: Vec3): (r: Vec3)
    ensures Dot(r, a) == 0.0 && Dot(r, b) == 0.0
  {
    Vec3(a.y * b.z - a.z * b.y, a.z * b.x - a.x * b.z, a.x * b.y - a.y * b.x)
  }

  /**
   * `unit`: a unit vector pointing the same way as `v`. The source divides
   * by zero on the zero vector (NaN); that input is excluded.
   */
  function Unit(v: Vec3, sqrt: real -> real): (r: Vec3)
    requires IsSqrt(sqrt)
    requires v != Zero
    ensures LenSq(r) == 1.0
    ensures Scale(Len(v, sqrt), r) == v
  {
    var l := Len(v, sqrt);
    var r := Div(v, l);
    LenSqScale(1.0 / l, v);
    assert r == Scale(1.0 / l, v);
    assert (1.0 / l) * (1.0 / l) * (l * l) == 1.0;
    r
  }

  /**
   * `unit_mut` as written: `*self /= self.len()` goes through the `/=` above,
   * so x and y stay put and z is divided by the cube of the length.
   */
  function UnitMut(v: Vec3, sqrt: real -> real): (r: Vec3)
    requires IsSqrt(sqrt)
    requires v != Zero
    ensures r.x == v.x && r.y == v.y
    ensures r.z * (Len(v, sqrt) * Len(v, sqrt) * Len(v, sqrt)) == v.z
  {
    DivAssign(v, Len(v, sqrt))
  }

  /** `(0, 0, 2)` has length 2, and `unit_mut` turns it into `(0, 0, 1/4)`, which is not a unit vector. */
  lemma UnitMutCounterexample(sqrt: real -> real)
    requires IsSqrt(sqrt)
    ensures UnitMut(Vec3(0.0, 0.0, 2.0), sqrt) == Vec3(0.0, 0.0, 0.25)
    ensures LenSq(UnitMut(Vec3(0.0, 0.0, 2.0), sqrt)) != 1.0
  {
    SqrtOfSquare(sqrt, 2.0);
    assert Len(Vec3(0.0, 0.0, 2.0), sqrt) == 2.0;
  }

  /** `unit_mut` through the corrected `/=`: the vector is normalised in place, as `unit` does. */
  function UnitMutIntended(v: Vec3, sqrt: real -> real): (r: Vec3)
    requires IsSqrt(sqrt)
    requires v != Zero
    ensures r == Unit(v, sqrt)
    ensures LenSq(r) == 1.0
  {
    DivAssignIntended(v, Len(v, sqrt))
  }

  /** `is_near_zero`: every component has magnitude below 1e-6. */
  predicate IsNearZero(v: Vec3)
  {
    Abs(v.x) < NearZeroLimit && Abs(v.y) < NearZeroLimit && Abs(v.z) < NearZeroLimit
  }

  /** A near-zero vector is short; a vector that is not near zero is not zero. */
  lemma NearZeroIsShort(v: Vec3)
    ensures IsNearZero(Zero)
    ensures IsNearZero(v) ==> LenSq(v) < 3.0 * NearZeroLimit * NearZeroLimit
    ensures !IsNearZero(v) ==> v != Zero
  {
    if IsNearZero(v) {
      SquareBelow(v.x, NearZeroLimit);
      SquareBelow(v.y, NearZeroLimit);
      SquareBelow(v.z, NearZeroLimit);
    }
  }

  lemma SquareBelow(a: real, b: real)
    requires Abs(a) < b
    ensures a * a < b * b
  {
    assert a * a == Abs(a) * Abs(a);
    SquareLt(Abs(a), b);
  }

  /**
   * `reflect`: `v - 2 (v . n) n`. About a unit normal it flips the normal
   * component and keeps the length.
   */
  function Reflect(v: Vec3, n: Vec3): (r: Vec3)
    ensures LenSq(n) == 1.0 ==> Dot(r, n) == -Dot(v, n)
    ensures LenSq(n) == 1.0 ==> LenSq(r) == LenSq(v)
  {
    ReflectFacts(v, n);
    Sub(v, Scale(2.0 * Dot(v, n), n))
  }

  lemma ReflectFacts(v: Vec3, n: Vec3)
    ensures LenSq(n) == 1.0 ==> Dot(Sub(v, Scale(2.0 * Dot(v, n), n)), n) == -Dot(v, n)
    ensures LenSq(n) == 1.0 ==> LenSq(Sub(v, Scale(2.0 * Dot(v, n), n))) == LenSq(v)
  {
    if LenSq(n) == 1.0 {
      LenSqSubScaled(v, 2.0 * Dot(v, n), n);
      DotSubScaled(v, 2.0 * Dot(v, n), n, n);
      ReflectScalar(Dot(v, n), 2.0 * Dot(v, n), LenSq(n), Dot(n, n));
    }
  }

  /** The scalar identities behind reflection about a unit normal. */
  lemma ReflectScalar(d: real, k: real, m: real, m': real)
    requires k == 2.0 * d && m == 1.0 && m' == 1.0
    ensures d - k * m' == -d
    ensures -2.0 * k * d + k * k * m == 0.0
  {
  }

  /**
   * `refract` for incident `v`, normal `n` and ratio of refractive indices:
   * Snell's law split into a component perpendicular to the normal and one
   * along it. For unit `v` and `n` the result is never shorter than a unit
   * vector, and is a unit vector whenever the perpendicular part fits
   * (`ratio^2 (1 - (v.n)^2) <= 1`, no total internal reflection).
   */
  function Refract(v: Vec3, n: Vec3, ratio: real, sqrt: real -> real): (r: Vec3)
    requires IsSqrt(sqrt)
    ensures LenSq(v) == 1.0 && LenSq(n) == 1.0 ==> 1.0 <= LenSq(r)
    ensures LenSq(v) == 1.0 && LenSq(n) == 1.0 && ratio * ratio * (1.0 - Dot(v, n) * Dot(v, n)) <= 1.0 ==>
      LenSq(r) == 1.0
  {
    var cosTheta := Min(1.0, Dot(Neg(v), n));
    var rPerp := Scale(ratio, Add(v, Scale(cosTheta, n)));
    var rPar := Scale(-sqrt(Abs(1.0 - LenSq(rPerp))), n);
    RefractPartsLength(v, n, ratio, sqrt, cosTheta, rPerp);
    Add(rPerp, rPar)
  }

  /**
   * The length facts of `Refract`, stated over its two parts: the perpendicular
   * part is orthogonal to `n`, so Pythagoras gives `|rPerp|^2 + |1 - |rPerp|^2|`.
   */
  lemma RefractPartsLength(v: Vec3, n: Vec3, ratio: real, sqrt: real -> real, cosTheta: real, rPerp: Vec3)
    requires IsSqrt(sqrt)
    requires cosTheta == Min(1.0, Dot(Neg(v), n))
    requires rPerp == Scale(ratio, Add(v, Scale(cosTheta, n)))
    ensures LenSq(v) == 1.0 && LenSq(n) == 1.0 ==>
      1.0 <= LenSq(Add(rPerp, Scale(-sqrt(Abs(1.0 - LenSq(rPerp))), n)))
    ensures LenSq(v) == 1.0 && LenSq(n) == 1.0 && ratio * ratio * (1.0 - Dot(v, n) * Dot(v, n)) <= 1.0 ==>
      LenSq(Add(rPerp, Scale(-sqrt(Abs(1.0 - LenSq(rPerp))), n))) == 1.0
  {
    if LenSq(v) == 1.0 && LenSq(n) == 1.0 {
      UnitDotBounded(v, n);
      DotNeg(v, n);
      assert rPerp == Scale(ratio, Perpendicular(v, n));
      ScaledPerpendicular(v, n, ratio);
      SqrtSquareAbs(sqrt, 1.0 - LenSq(rPerp));
      OrthogonalLength(rPerp, n, -sqrt(Abs(1.0 - LenSq(rPerp))));
    }
  }

  /**
   * With a ratio of 1 (equal refractive indices), refraction of a unit vector
   * entering through a unit normal leaves it unchanged.
   */
  lemma RefractRatioOne(v: Vec3, n: Vec3, sqrt: real -> real)
    requires IsSqrt(sqrt)
    requires LenSq(v) == 1.0 && LenSq(n) == 1.0
    requires Dot(v, n) < 0.0
    ensures Refract(v, n, 1.0, sqrt) == v
  {
    RatioOneSplit(v, n, sqrt);
    PerpendicularRestored(v, n, -Abs(Dot(v, n)));
  }

  /**
   * The parallel part always points against `n`, whichever side `v` comes
   * from: with a ratio of 1, a unit vector leaving through a unit normal
   * (`v . n > 0`) comes out mirrored, as `reflect` would give.
   */
  lemma RefractRatioOneLeaving(v: Vec3, n: Vec3, sqrt: real -> real)
    requires IsSqrt(sqrt)
    requires LenSq(v) == 1.0 && LenSq(n) == 1.0
    requires 0.0 < Dot(v, n)
    ensures Refract(v, n, 1.0, sqrt) == Reflect(v, n)
  {
    RatioOneSplit(v, n, sqrt);
    PerpendicularMirrored(v, n, -Abs(Dot(v, n)));
  }

  /** With a ratio of 1 the parallel part of a unit `v` has length `|v . n|`, always against `n`. */
  lemma RatioOneSplit(v: Vec3, n: Vec3, sqrt: real -> real)
    requires IsSqrt(sqrt)
    requires LenSq(v) == 1.0 && LenSq(n) == 1.0
    ensures Refract(v, n, 1.0, sqrt) == Add(Scale(1.0, Perpendicular(v, n)), Scale(-Abs(Dot(v, n)), n))
  {
    UnitDotBounded(v, n);
    RefractSplit(v, n, 1.0, sqrt);
    RatioOneParallelPart(v, n, sqrt);
  }

  /** For unit `v` and `n` the ratio-1 parallel part has length `|v . n|`. */
  lemma RatioOneParallelPart(v: Vec3, n: Vec3, sqrt: real -> real)
    requires IsSqrt(sqrt)
    requires LenSq(v) == 1.0 && LenSq(n) == 1.0
    ensures sqrt(Abs(1.0 - LenSq(Scale(1.0, Perpendicular(v, n))))) == Abs(Dot(v, n))
  {
    ScaledPerpendicular(v, n, 1.0);
    RatioOneParallel(sqrt, LenSq(Scale(1.0, Perpendicular(v, n))), Dot(v, n));
  }

  /** The length of the parallel part when the perpendicular part has squared length `1 - d^2`. */
  lemma RatioOneParallel(sqrt: real -> real, l: real, d: real)
    requires IsSqrt(sqrt)
    requires l == 1.0 * 1.0 * (1.0 - d * d)
    ensures sqrt(Abs(1.0 - l)) == Abs(d)
  {
    UnitRatioScalar(l, d);
    SqrtOfSquareAt(sqrt, Abs(1.0 - l), d);
  }

  /** `v` with its component along `n` removed (for a unit `n`). */
  function Perpendicular(v: Vec3, n: Vec3): Vec3
  {
    Add(v, Scale(-Dot(v, n), n))
  }

  /** For `v . n` in [-1, 1], refraction is the scaled perpendicular part plus a multiple of `n`. */
  lemma RefractSplit(v: Vec3, n: Vec3, ratio: real, sqrt: real -> real)
    requires IsSqrt(sqrt)
    requires -1.0 <= Dot(v, n) <= 1.0
    ensures Refract(v, n, ratio, sqrt) ==
      Add(Scale(ratio, Perpendicular(v, n)), Scale(-sqrt(Abs(1.0 - LenSq(Scale(ratio, Perpendicular(v, n))))), n))
  {
    DotNeg(v, n);
  }

  lemma DotNeg(v: Vec3, n: Vec3)
    ensures Dot(Neg(v), n) == -Dot(v, n)
  {
  }

  lemma UnitRatioScalar(l: real, d: real)
    requires l == 1.0 * 1.0 * (1.0 - d * d)
    ensures Abs(1.0 - l) == d * d
  {
    SquareSign(d, d * d);
  }

  /** Adding the normal component back to the perpendicular part restores the vector. */
  lemma PerpendicularRestored(v: Vec3, n: Vec3, k: real)
    requires k == Dot(v, n)
    ensures Add(Scale(1.0, Perpendicular(v, n)), Scale(k, n)) == v
  {
  }

  /** Subtracting the normal component once more mirrors the vector. */
  lemma PerpendicularMirrored(v: Vec3, n: Vec3, k: real)
    requires k == -Dot(v, n)
    ensures Add(Scale(1.0, Perpendicular(v, n)), Scale(k, n)) == Reflect(v, n)
  {
  }

  /** Removing the normal component of a unit `v` leaves a vector orthogonal to `n` of squared length `1 - (v.n)^2`. */
  lemma PerpendicularPart(v: Vec3, n: Vec3)
    requires LenSq(v) == 1.0 && LenSq(n) == 1.0
    ensures LenSq(Perpendicular(v, n)) == 1.0 - Dot(v, n) * Dot(v, n)
    ensures Dot(Perpendicular(v, n), n) == 0.0
  {
    LenSqAddScaled(v, -Dot(v, n), n);
    DotAddScaled(v, -Dot(v, n), n, n);
  }

  /** The scaled perpendicular part of a unit `v` stays orthogonal to `n`, with squared length `ratio^2 (1 - (v.n)^2)`. */
  lemma ScaledPerpendicular(v: Vec3, n: Vec3, ratio: real)
    requires LenSq(v) == 1.0 && LenSq(n) == 1.0
    ensures LenSq(Scale(ratio, Perpendicular(v, n))) == ratio * ratio * (1.0 - Dot(v, n) * Dot(v, n))
    ensures Dot(Scale(ratio, Perpendicular(v, n)), n) == 0.0
  {
    PerpendicularPart(v, n);
    LenSqScale(ratio, Perpendicular(v, n));
    DotScale(ratio, Perpendicular(v, n), n);
  }

  /** Pythagoras: adding a multiple of a unit `n` to a vector orthogonal to it. */
  lemma OrthogonalLength(a: Vec3, n: Vec3, k: real)
    requires Dot(a, n) == 0.0 && LenSq(n) == 1.0
    ensures LenSq(Add(a, Scale(k, n))) == LenSq(a) + k * k
  {
    LenSqAddScaled(a, k, n);
  }

  /** `(-sqrt |x|)^2 == |x|`. */
  lemma SqrtSquareAbs(sqrt: real -> real, x: real)
    requires IsSqrt(sqrt)
    ensures (-sqrt(Abs(x))) * (-sqrt(Abs(x))) == Abs(x)
  {
    assert sqrt(Abs(x)) * sqrt(Abs(x)) == Abs(x);
  }

  /** Cauchy-Schwarz through Lagrange's identity. */
  lemma CauchySchwarz(a: Vec3, b: Vec3)
    ensures Dot(a, b) * Dot(a, b) <= LenSq(a) * LenSq(b)
  {
    assert LenSq(a) * LenSq(b) - Dot(a, b) * Dot(a, b) == LenSq(Cross(a, b));
  }

  /** The dot product of two unit vectors lies in [-1, 1]. */
  lemma UnitDotBounded(a: Vec3, b: Vec3)
    requires LenSq(a) == 1.0 && LenSq(b) == 1.0
    ensures -1.0 <= Dot(a, b) <= 1.0
  {
    CauchySchwarz(a, b);
    SquareAtMostOne(Dot(a, b));
  }

  lemma LenSqNeg(v: Vec3)
    ensures LenSq(Neg(v)) == LenSq(v)
  {
  }

  lemma LenSqScale(t: real, v: Vec3)
    ensures LenSq(Scale(t, v)) == t * t * LenSq(v)
  {
  }

  /** Expansion of `|a + k n|^2`. */
  lemma LenSqAddScaled(a: Vec3, k: real, n: Vec3)
    ensures LenSq(Add(a, Scale(k, n))) == LenSq(a) + 2.0 * k * Dot(a, n) + k * k * LenSq(n)
  {
  }

  /** Expansion of `|a - k n|^2`. */
  lemma LenSqSubScaled(a: Vec3, k: real, n: Vec3)
    ensures LenSq(Sub(a, Scale(k, n))) == LenSq(a) - 2.0 * k * Dot(a, n) + k * k * LenSq(n)
  {
  }

  lemma DotSubScaled(a: Vec3, k: real, n: Vec3, b: Vec3)
    ensures Dot(Sub(a, Scale(k, n)), b) == Dot(a, b) - k * Dot(n, b)
  {
  }

  lemma DotScale(t: real, v: Vec3, w: Vec3)
    ensures Dot(Scale(t, v), w) == t * Dot(v, w)
  {
  }

  /** Linearity of the dot product in its first argument. */
  lemma DotAddScaled(a: Vec3, k: real, n: Vec3, b: Vec3)
    ensures Dot(Add(a, Scale(k, n)), b) == Dot(a, b) + k * Dot(n, b)
  {
  }

  /**
   * `random_in_unit_dim` given the accepted unit-ball sample `ball`: each
   * requested dimension is capped to [0, 1] and the sample is scaled by it.
   */
  function RandomInUnitDim(ball: Vec3, dimensions: Vec3): (r: Vec3)
    ensures LenSq(ball) < 1.0 ==> LenSq(r) < 1.0
    ensures dimensions.x <= 0.0 ==> r.x == 0.0
    ensures dimensions.y <= 0.0 ==> r.y == 0.0
    ensures dimensions.z <= 0.0 ==> r.z == 0.0
  {
    var capped := Vec3(Min(1.0, Max(dimensions.x, 0.0)),
                       Min(1.0, Max(dimensions.y, 0.0)),
                       Min(1.0, Max(dimensions.z, 0.0)));
    assert 0.0 <= capped.x <= 1.0 && 0.0 <= capped.y <= 1.0 && 0.0 <= capped.z <= 1.0;
    LenSqMulShrinks(ball, capped);
    Mul(ball, capped)
  }

  /** Scaling each component by a factor in [0, 1] never lengthens a vector. */
  lemma LenSqMulShrinks(a: Vec3, c: Vec3)
    requires 0.0 <= c.x <= 1.0 && 0.0 <= c.y <= 1.0 && 0.0 <= c.z <= 1.0
    ensures LenSq(Mul(a, c)) <= LenSq(a)
  {
    var m := Mul(a, c);
    ShrinkSquare(a.x, c.x, m.x * m.x, a.x * a.x);
    ShrinkSquare(a.y, c.y, m.y * m.y, a.y * a.y);
    ShrinkSquare(a.z, c.z, m.z * m.z, a.z * a.z);
  }

  lemma ShrinkSquare(a: real, c: real, p: real, q: real)
    requires 0.0 <= c <= 1.0
    requires p == (a * c) * (a * c) && q == a * a
    ensures p <= q
  {
    assert p == q * (c * c);
    SquareLe(c, 1.0);
    SquareSign(a, q);
    MulLe(q, c * c, 1.0);
  }

  /** `random_in_unit_circle_xy`: a point of the open unit disk in the xy-plane. */
  function RandomInUnitCircleXy(ball: Vec3): (r: Vec3)
    requires LenSq(ball) < 1.0
    ensures r.z == 0.0
    ensures LenSq(r) < 1.0
  {
    RandomInUnitDim(ball, Vec3(1.0, 1.0, 0.0))
  }

  /**
   * `random_unit` given the accepted unit-ball sample. A zero sample would
   * make the source divide by zero; it is excluded.
   */
  function RandomUnit(ball: Vec3, sqrt: real -> real): (r: Vec3)
    requires IsSqrt(sqrt)
    requires ball != Zero
    ensures LenSq(r) == 1.0
  {
    Unit(ball, sqrt)
  }

  /**
   * `random_on_hemisphere` given the unit-sphere sample `s`: `s` is kept if
   * it points strictly into the normal's hemisphere, otherwise negated.
   */
  function RandomOnHemisphere(s: Vec3, normal: Vec3): (r: Vec3)
    ensures r == s || r == Neg(s)
    ensures Dot(r, normal) >= 0.0
    ensures Dot(s, normal) > 0.0 ==> r == s
    ensures LenSq(r) == LenSq(s)
  {
    assert Dot(Neg(s), normal) == -Dot(s, normal);
    if Dot(s, normal) > 0.0 then s else Neg(s)
  }
}
