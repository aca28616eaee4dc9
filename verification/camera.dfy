/**
 * The camera's control logic (rtcli/src/camera.rs, with the pinhole variant of
 * src/camera.rs): the image-height floor, the per-pixel sample scale, the
 * per-sample ray and the recursive `ray_color`. Viewport geometry (the basis
 * frame, the pixel deltas and the defocus disk) is taken as given.
 */
module Camera {
  import opened Reals
  import opened Wrappers
  import opened Interval
  import opened Vec3
  import opened Ray
  import opened Material
  import opened HitRecord
  import opened Scattering
  import opened Colors
  import World

  /** The largest value of a `u32`. */
  const U32Max: int := 0xFFFF_FFFF

  /** `x as u32` for a float: truncation toward zero, saturating at both ends. */
  function TruncToU32(x: real): (r: int)
    ensures 0 <= r <= U32Max
    ensures 0.0 <= x < U32Max as real ==> r as real <= x < r as real + 1.0
    ensures x < 1.0 ==> r == 0
    ensures U32Max as real <= x ==> r == U32Max
  {
    if x < 0.0 then 0
    else if U32Max as real <= x then U32Max
    else x.Floor
  }

  /**
   * The image height of `Camera::from`: `image_width / aspect_ratio`
   * truncated to a `u32`, and 1 when that is 0. A zero aspect ratio makes the
   * float division infinite (`u32::MAX` after the cast) for a positive width
   * and NaN (0 after the cast) for a zero width.
   */
  function ImageHeight(imageWidth: nat, aspectRatio: real): (h: int)
    ensures 1 <= h <= U32Max
    ensures aspectRatio != 0.0 && 1.0 <= imageWidth as real / aspectRatio < U32Max as real ==>
      h as real <= imageWidth as real / aspectRatio < h as real + 1.0
    ensures aspectRatio != 0.0 && imageWidth as real / aspectRatio < 1.0 ==> h == 1
  {
    var height :=
      if aspectRatio == 0.0 then (if imageWidth > 0 then U32Max else 0)
      else TruncToU32(imageWidth as real / aspectRatio);
    if height > 0 then height else 1
  }

  /**
   * With a positive aspect ratio the image is never taller than the ratio
   * allows, `height * aspect <= width`, unless the floor of one pixel applies.
   */
  lemma ImageHeightFitsAspect(imageWidth: nat, aspectRatio: real)
    requires 0.0 < aspectRatio
    requires 1.0 <= imageWidth as real / aspectRatio < U32Max as real
    ensures ImageHeight(imageWidth, aspectRatio) as real * aspectRatio <= imageWidth as real
    ensures imageWidth as real < (ImageHeight(imageWidth, aspectRatio) as real + 1.0) * aspectRatio
  {
    var h := ImageHeight(imageWidth, aspectRatio) as real;
    var q := imageWidth as real / aspectRatio;
    assert q * aspectRatio == imageWidth as real;
    MulLe(aspectRatio, h, q);
    MulPos(aspectRatio, h + 1.0 - q, aspectRatio * (h + 1.0 - q));
  }

  /** `px_sample_scale = 1 / num_samples`: averaging weight, so at least one sample is needed. */
  function SampleScale(numSamples: nat): (s: real)
    requires 1 <= numSamples
    ensures s * numSamples as real == 1.0
    ensures 0.0 < s <= 1.0
  {
    1.0 / numSamples as real
  }

  /**
   * The camera state the per-sample logic reads. The pixel grid and the
   * defocus disk come from the viewport geometry of `Camera::from`.
   */
  datatype Camera = Camera(
    cameraPos: Point3,
    pxTopLeft: Point3,
    pxDx: Vec3,
    pxDy: Vec3,
    depthOfFieldAngle: real,
    defocusDisk: (Vec3, Vec3))

  /** `sample_square`: an offset in the unit square centred on the pixel, from two draws. */
  function SampleSquare(draw1: real, draw2: real): (r: Vec3)
    ensures r.z == 0.0
    ensures 0.0 <= draw1 < 1.0 ==> -0.5 <= r.x < 0.5
    ensures 0.0 <= draw2 < 1.0 ==> -0.5 <= r.y < 0.5
  {
    Vec3(draw1 - 0.5, draw2 - 0.5, 0.0)
  }

  /** The sampled point of pixel `(x, y)` displaced by `offset`. */
  function PixelSample(cam: Camera, x: nat, y: nat, offset: Vec3): Point3
  {
    Add(Add(cam.pxTopLeft, Scale(x as real + offset.x, cam.pxDx)), Scale(y as real + offset.y, cam.pxDy))
  }

  /**
   * `depth_of_field_disk_sample`: the camera position displaced within the
   * defocus disk by the accepted unit-ball sample.
   */
  function DiskSample(cam: Camera, ball: Vec3): (p: Point3)
    requires LenSq(ball) < 1.0
  {
    var point := RandomInUnitCircleXy(ball);
    Add(Add(cam.cameraPos, Scale(point.x, cam.defocusDisk.0)), Scale(point.y, cam.defocusDisk.1))
  }

  /**
   * When the disk is spanned by two orthogonal radii of equal squared length
   * `rad2` (as `Camera::from` builds it from the basis frame), every disk
   * sample lies strictly inside the lens of that radius.
   */
  lemma DiskSampleInLens(cam: Camera, ball: Vec3, rad2: real)
    requires LenSq(ball) < 1.0 && 0.0 < rad2
    requires Dot(cam.defocusDisk.0, cam.defocusDisk.1) == 0.0
    requires LenSq(cam.defocusDisk.0) == rad2 && LenSq(cam.defocusDisk.1) == rad2
    ensures LenSq(Sub(DiskSample(cam, ball), cam.cameraPos)) < rad2
  {
    var p := RandomInUnitCircleXy(ball);
    assert Sub(DiskSample(cam, ball), cam.cameraPos) == Add(Scale(p.x, cam.defocusDisk.0), Scale(p.y, cam.defocusDisk.1));
    LensOffset(p, cam.defocusDisk.0, cam.defocusDisk.1, rad2);
  }

  /** `|p.x du + p.y dv|^2 < rad2` for orthogonal radii of squared length `rad2` and `p` in the unit disk. */
  lemma LensOffset(p: Vec3, du: Vec3, dv: Vec3, rad2: real)
    requires LenSq(p) < 1.0 && p.z == 0.0 && 0.0 < rad2
    requires Dot(du, dv) == 0.0 && LenSq(du) == rad2 && LenSq(dv) == rad2
    ensures LenSq(Add(Scale(p.x, du), Scale(p.y, dv))) < rad2
  {
    assert p.x * p.x + p.y * p.y < 1.0;
    Lens(p.x, p.y, du, dv, rad2);
  }

  lemma Lens(a: real, b: real, du: Vec3, dv: Vec3, rad2: real)
    requires a * a + b * b < 1.0 && 0.0 < rad2
    requires Dot(du, dv) == 0.0 && LenSq(du) == rad2 && LenSq(dv) == rad2
    ensures LenSq(Add(Scale(a, du), Scale(b, dv))) < rad2
  {
    LenSqAddScaled(Scale(a, du), b, dv);
    DotScale(a, du, dv);
    LenSqScale(a, du);
    assert LenSq(Add(Scale(a, du), Scale(b, dv))) == (a * a + b * b) * rad2;
    MulPos(1.0 - (a * a + b * b), rad2, (1.0 - (a * a + b * b)) * rad2);
  }

  /**
   * `get_ray`: from the camera position, or from a point of the defocus disk
   * when `depth_of_field_angle > 0`, towards the sampled point of pixel
   * `(x, y)`. The draws stand for the two `random_float()` calls of
   * `sample_square` and the unit-ball sample of the disk.
   */
  function GetRay(cam: Camera, x: nat, y: nat, draw1: real, draw2: real, lensBall: Vec3): (r: Ray)
    requires 0.0 < cam.depthOfFieldAngle ==> LenSq(lensBall) < 1.0
    ensures At(r, 1.0) == PixelSample(cam, x, y, SampleSquare(draw1, draw2))
    ensures cam.depthOfFieldAngle <= 0.0 ==> r.origin == cam.cameraPos
    ensures 0.0 < cam.depthOfFieldAngle ==> r.origin == DiskSample(cam, lensBall)
  {
    var offset := SampleSquare(draw1, draw2);
    var pxSample := PixelSample(cam, x, y, offset);
    var origin := if cam.depthOfFieldAngle > 0.0 then DiskSample(cam, lensBall) else cam.cameraPos;
    Ray(origin, Sub(pxSample, origin))
  }

  /** The pinhole `get_ray` of src/camera.rs: always from the camera position. */
  function PinholeGetRay(cam: Camera, x: nat, y: nat, draw1: real, draw2: real): (r: Ray)
    ensures r.origin == cam.cameraPos
    ensures At(r, 1.0) == PixelSample(cam, x, y, SampleSquare(draw1, draw2))
  {
    var pxSample := PixelSample(cam, x, y, SampleSquare(draw1, draw2));
    Ray(cam.cameraPos, Sub(pxSample, cam.cameraPos))
  }

  /** Without depth of field the two cameras cast the same ray, whatever the lens sample. */
  lemma GetRayAgreesWithPinhole(cam: Camera, x: nat, y: nat, draw1: real, draw2: real, lensBall: Vec3)
    requires cam.depthOfFieldAngle <= 0.0
    ensures GetRay(cam, x, y, draw1, draw2, lensBall) == PinholeGetRay(cam, x, y, draw1, draw2)
  {
  }

  /** The lower end of the window every bounce searches, which keeps a ray off its own surface. */
  const HitFloor: real := 0.001

  /** The search window of `ray_color`: `(0.001, +inf)`. */
  function HitWindow(): Interval
  {
    Interval(Fin(HitFloor), PosInf)
  }

  const White: Color := Vec3(1.0, 1.0, 1.0)

  const Sky: Color := Vec3(0.5, 0.7, 1.0)

  /** The blend factor of the background: `0.5 (y + 1)` of the unit direction, in [0, 1]. */
  function BlendFactor(ray: Ray, sqrt: real -> real): (s: real)
    requires IsSqrt(sqrt) && ray.direction != Zero
    ensures 0.0 <= s <= 1.0
    ensures s == 0.5 * (Unit(ray.direction, sqrt).y + 1.0)
  {
    var u := Unit(ray.direction, sqrt);
    assert u.y * u.y <= 1.0 by {
      SquareSign(u.x, u.x * u.x);
      SquareSign(u.z, u.z * u.z);
    }
    SquareAtMostOne(u.y);
    0.5 * (u.y + 1.0)
  }

  /** White blended towards sky blue by the factor `s`: `(1 - s) white + s sky`. */
  function Blend(s: real): (c: Color)
    requires 0.0 <= s <= 1.0
    ensures 0.5 <= c.x <= 1.0 && 0.7 <= c.y <= 1.0 && c.z == 1.0
    ensures s == 0.0 ==> c == White
    ensures s == 1.0 ==> c == Sky
  {
    Add(Scale(1.0 - s, White), Scale(s, Sky))
  }

  /** The background of a missed ray: white blended towards sky blue as the ray points up. */
  function Background(ray: Ray, sqrt: real -> real): (c: Color)
    requires IsSqrt(sqrt) && ray.direction != Zero
    ensures 0.5 <= c.x <= 1.0 && 0.7 <= c.y <= 1.0 && c.z == 1.0
  {
    Blend(BlendFactor(ray, sqrt))
  }

  /** A ray pointing straight up sees pure sky blue, one pointing straight down pure white. */
  lemma BackgroundVertical(k: real, origin: Point3, sqrt: real -> real)
    requires IsSqrt(sqrt) && k != 0.0
    ensures 0.0 < k ==> Background(Ray(origin, Vec3(0.0, k, 0.0)), sqrt) == Sky
    ensures k < 0.0 ==> Background(Ray(origin, Vec3(0.0, k, 0.0)), sqrt) == White
  {
    VerticalUnit(k, sqrt);
  }

  /** The unit vector of `(0, k, 0)` is `(0, 1, 0)` or `(0, -1, 0)` by the sign of `k`. */
  lemma VerticalUnit(k: real, sqrt: real -> real)
    requires IsSqrt(sqrt) && k != 0.0
    ensures 0.0 < k ==> Unit(Vec3(0.0, k, 0.0), sqrt).y == 1.0
    ensures k < 0.0 ==> Unit(Vec3(0.0, k, 0.0), sqrt).y == -1.0
  {
    var v := Vec3(0.0, k, 0.0);
    assert Scale(Len(v, sqrt), Unit(v, sqrt)) == v;
    ZeroProduct(Len(v, sqrt), Unit(v, sqrt).x, Len(v, sqrt) * Unit(v, sqrt).x);
    ZeroProduct(Len(v, sqrt), Unit(v, sqrt).z, Len(v, sqrt) * Unit(v, sqrt).z);
    SignedUnit(Len(v, sqrt), Unit(v, sqrt).y, k);
  }

  /** A positive multiple `k` of a value `u` with `u * u == 1` has the sign of `u`. */
  lemma SignedUnit(l: real, u: real, k: real)
    requires 0.0 < l && l * u == k && u * u == 1.0
    ensures 0.0 < k ==> u == 1.0
    ensures k < 0.0 ==> u == -1.0
  {
    ZeroProduct(u - 1.0, u + 1.0, (u - 1.0) * (u + 1.0));
    if 0.0 < k && u < 0.0 {
      MulPos(l, -u, l * -u);
    }
    if k < 0.0 && 0.0 < u {
      MulPos(l, u, l * u);
    }
  }

  /** Every object is a valid sphere with a valid material. */
  predicate ValidScene(w: World.World)
  {
    World.ValidObjects(w.objects) &&
    forall i :: 0 <= i < |w.objects| ==> ValidMaterial(w.objects[i].material)
  }

  /** Each bounce consumes one valid sample. */
  predicate ValidSamples(samples: seq<Sample>)
  {
    forall i :: 0 <= i < |samples| ==> ValidSample(samples[i])
  }

  /**
   * `ray_color`: black once the bounce budget is spent; otherwise the world
   * is searched in `(0.001, +inf)`; a hit whose material absorbs the ray is
   * black, a scattered ray contributes its colour times the attenuation, and
   * a miss shows the background. `samples[0]` feeds this bounce's scatter.
   */
  function RayColor(ray: Ray, w: World.World, bounces: nat, samples: seq<Sample>, sqrt: real -> real): (c: Color)
    requires IsSqrt(sqrt) && ValidScene(w) && ray.direction != Zero
    requires bounces <= |samples| && ValidSamples(samples)
    decreases bounces
  {
    if bounces == 0 then Zero
    else
      match World.Hit(w, ray, HitWindow(), sqrt)
      case None => Background(ray, sqrt)
      case Some(rec) =>
        World.HitRecordFacts(w, ray, HitWindow(), sqrt);
        match Scatter(rec.material, ray, rec, samples[0], sqrt)
        case None => Zero
        case Some((scattered, attenuation)) =>
          Mul(attenuation, RayColor(scattered, w, bounces - 1, samples[1..], sqrt))
  }

  /**
   * The cases of `ray_color`: no bounces left is black; a miss is the
   * background; an absorbed hit is black; a scattered hit is the attenuation
   * times the colour of the scattered ray with one bounce fewer.
   */
  lemma RayColorCases(ray: Ray, w: World.World, bounces: nat, samples: seq<Sample>, sqrt: real -> real)
    requires IsSqrt(sqrt) && ValidScene(w) && ray.direction != Zero
    requires bounces <= |samples| && ValidSamples(samples)
    ensures bounces == 0 ==> RayColor(ray, w, bounces, samples, sqrt) == Zero
    ensures 0 < bounces && World.Hit(w, ray, HitWindow(), sqrt).None? ==>
      RayColor(ray, w, bounces, samples, sqrt) == Background(ray, sqrt)
    ensures 0 < bounces && World.Hit(w, ray, HitWindow(), sqrt).Some? ==>
      var rec := World.Hit(w, ray, HitWindow(), sqrt).value;
      LenSq(rec.normal) == 1.0 && ValidMaterial(rec.material) &&
      var s := Scatter(rec.material, ray, rec, samples[0], sqrt);
      (s.None? ==> RayColor(ray, w, bounces, samples, sqrt) == Zero) &&
      (s.Some? ==> RayColor(ray, w, bounces, samples, sqrt)
                   == Mul(s.value.1, RayColor(s.value.0, w, bounces - 1, samples[1..], sqrt)))
  {
    World.HitRecordFacts(w, ray, HitWindow(), sqrt);
  }

  /** Every channel in [0, 1]. */
  predicate InUnitCube(c: Color)
  {
    0.0 <= c.x <= 1.0 && 0.0 <= c.y <= 1.0 && 0.0 <= c.z <= 1.0
  }

  /** Every diffuse and metallic albedo of the scene is a colour in the unit cube. */
  predicate AlbedosInUnitCube(w: World.World)
  {
    forall i :: 0 <= i < |w.objects| && !w.objects[i].material.Dielectric? ==>
      InUnitCube(w.objects[i].material.albedo)
  }

  lemma MulInUnitCube(a: Color, b: Color)
    requires InUnitCube(a) && InUnitCube(b)
    ensures InUnitCube(Mul(a, b))
  {
    FractionProduct(a.x, b.x);
    FractionProduct(a.y, b.y);
    FractionProduct(a.z, b.z);
  }

  lemma FractionProduct(p: real, q: real)
    requires 0.0 <= p <= 1.0 && 0.0 <= q <= 1.0
    ensures 0.0 <= p * q <= 1.0
  {
    MulShrinks(p, q, p * q);
  }

  /**
   * With albedos in the unit cube, every traced colour is in the unit cube:
   * attenuation only darkens, and the background is in the cube.
   */
  lemma {:induction false} RayColorInUnitCube(ray: Ray, w: World.World, bounces: nat, samples: seq<Sample>,
                                              sqrt: real -> real)
    requires IsSqrt(sqrt) && ValidScene(w) && ray.direction != Zero
    requires bounces <= |samples| && ValidSamples(samples)
    requires AlbedosInUnitCube(w)
    ensures InUnitCube(RayColor(ray, w, bounces, samples, sqrt))
    decreases bounces
  {
    RayColorCases(ray, w, bounces, samples, sqrt);
    if 0 < bounces && World.Hit(w, ray, HitWindow(), sqrt).Some? {
      var rec := World.Hit(w, ray, HitWindow(), sqrt).value;
      var s := Scatter(rec.material, ray, rec, samples[0], sqrt);
      if s.Some? {
        World.HitRecordFacts(w, ray, HitWindow(), sqrt);
        var i :| 0 <= i < |w.objects| && rec.material == w.objects[i].material;
        AttenuationInUnitCube(rec.material, ray, rec, samples[0], sqrt);
        RayColorInUnitCube(s.value.0, w, bounces - 1, samples[1..], sqrt);
        MulInUnitCube(s.value.1, RayColor(s.value.0, w, bounces - 1, samples[1..], sqrt));
      }
    }
  }

  /** Scattering off a material whose albedo is in the unit cube attenuates by a colour in the unit cube. */
  lemma AttenuationInUnitCube(m: Material, ray: Ray, record: HitRecord, sample: Sample, sqrt: real -> real)
    requires IsSqrt(sqrt) && ValidMaterial(m) && ValidSample(sample)
    requires ray.direction != Zero && LenSq(record.normal) == 1.0
    requires !m.Dielectric? ==> InUnitCube(m.albedo)
    ensures Scatter(m, ray, record, sample, sqrt).Some? ==> InUnitCube(Scatter(m, ray, record, sample, sqrt).value.1)
  {
  }

  /** The accumulated colour of a pixel's samples, added in order. */
  function SumColors(colors: seq<Color>): Color
  {
    if |colors| == 0 then Zero else Add(SumColors(colors[..|colors| - 1]), colors[|colors| - 1])
  }

  /** `n` equal samples add up to `n` times the sample. */
  lemma {:induction false} SumOfEqualColors(colors: seq<Color>, c: Color)
    requires forall i :: 0 <= i < |colors| ==> colors[i] == c
    ensures SumColors(colors) == Scale(|colors| as real, c)
  {
    if |colors| > 0 {
      var prefix := colors[..|colors| - 1];
      SumOfEqualColors(prefix, c);
      assert (|prefix| as real + 1.0) * c.x == |prefix| as real * c.x + c.x;
      assert (|prefix| as real + 1.0) * c.y == |prefix| as real * c.y + c.y;
      assert (|prefix| as real + 1.0) * c.z == |prefix| as real * c.z + c.z;
    }
  }

  /**
   * The per-pixel step of `render`: the sum of the sample colours, scaled by
   * `px_sample_scale`, gamma corrected and quantised.
   */
  function PixelColor(colors: seq<Color>, numSamples: nat, sqrt: real -> real): (p: Rgb)
    requires IsSqrt(sqrt) && 1 <= numSamples
    ensures 0 <= p.r <= 255 && 0 <= p.g <= 255 && 0 <= p.b <= 255
  {
    ToRgb(ToGamma(Scale(SampleScale(numSamples), SumColors(colors)), sqrt))
  }

  /** When every one of the `num_samples` samples has the same colour, the pixel shows that colour. */
  lemma PixelOfEqualSamples(colors: seq<Color>, c: Color, sqrt: real -> real)
    requires IsSqrt(sqrt) && 1 <= |colors|
    requires forall i :: 0 <= i < |colors| ==> colors[i] == c
    ensures PixelColor(colors, |colors|, sqrt) == ToRgb(ToGamma(c, sqrt))
  {
    var n := |colors| as real;
    var s := SampleScale(|colors|);
    SumOfEqualColors(colors, c);
    assert s * (n * c.x) == (s * n) * c.x;
    assert s * (n * c.y) == (s * n) * c.y;
    assert s * (n * c.z) == (s * n) * c.z;
    assert Scale(s, Scale(n, c)) == c;
  }
}
