# Ray tracer core in Dafny

A model of the decision and selection logic of the SigSeg-V ray tracer (a Rust
path tracer in the style of "Ray Tracing in One Weekend"), over exact real
arithmetic:

- **Intervals** (`Interval`): the open and closed membership tests, and the
  empty and universe sentinels. Bounds may be infinite.
- **Quadratic solving** (`MathUtils`, `Math`):
  - the reduced `h`-form discriminant, root classification and two-root formula;
  - the classic `b`-form discriminant and classification, and how the two forms agree.
- **Vector and colour algebra** (`Vec3`, `Colors`):
  - the operators, including the in-place division and `unit_mut` as written;
  - cross product, reflection and refraction;
  - the near-zero test and hemisphere flip;
  - gamma correction and 8-bit quantisation.
- **Hit records and spheres** (`HitRecord`, `Sphere`): normal orientation and
  `front_face`. The sphere keeps the nearer root that lies strictly inside the search window.
- **The world's closest-hit scan** (`World`). It is modelled as the source's
  shrinking-bound loop (`Scan`), and proved to return the nearest hit over the
  whole window, with the earliest object winning ties.
- **Scattering** (`Scattering`): diffuse, metallic and dielectric scattering,
  with the random sample and the uniform draw as inputs.
- **Camera control** (`Camera`):
  - the image-height floor and the per-sample scale;
  - the per-sample ray, with or without depth of field;
  - the depth-bounded recursive `ray_color` and the per-pixel colour.

Square roots come in as a parameter `sqrt: real -> real` that satisfies
`IsSqrt`: for every `x >= 0`, `sqrt(x) >= 0 && sqrt(x) * sqrt(x) == x`.
Random numbers are explicit arguments. Where a zero divisor would give `f32`
infinities or NaN, the model either states a precondition or models the
saturating cast explicitly (`Camera.ImageHeight`).

## Model

| member | source | states |
|---|---|---|
| Interval.From | src/interval.rs:13-15 | the bounds are stored as given, so `contains(x)` iff `lo <= x <= hi` and `surrounds(x)` iff `lo < x < hi` |
| Interval.New | src/interval.rs:9-11 | the `[+inf, -inf]` sentinel contains and surrounds no value |
| Interval.Empty | src/interval.rs:29-31 | `empty()` is the same sentinel: it contains and surrounds nothing |
| Interval.Universe | src/interval.rs:25-27 | `[-inf, +inf]` contains and surrounds every finite value |
| Interval.ContainsFinite | src/interval.rs:13-19 | on finite bounds, `contains(x)` holds exactly when `min <= x <= max` |
| Interval.SurroundsImpliesContains | src/interval.rs:17-23 | open membership implies closed membership |
| Interval.SurroundsExcludesEndpoints | src/interval.rs:21-23 | neither finite endpoint is surrounded |
| Interval.SurroundsNarrowed | src/interval.rs:21-23 | lowering the upper bound to a finite `hi` keeps exactly the surrounded points below `hi` |
| Interval.Clamp | src/vec3.rs:275-280 | clamping leaves an inside value unchanged, and lands inside any non-empty interval |
| MathUtils.DiscriminantIntersections | src/utils/math.rs:7-16 | `Some(2)` iff the discriminant is positive, `Some(1)` iff it is zero, `None` iff it is negative |
| MathUtils.QuadraticFormula | src/utils/math.rs:18-27 | `None` iff the discriminant is negative, and then no root exists. Otherwise both values are roots and every root is one of them. For `a > 0` they are ordered, and equal iff the discriminant is zero |
| MathUtils.Discriminant | src/utils/math.rs:3-5 | no contract of its own: `MathUtils.CompletedSquare` relates `h^2 - a c` to the roots of `a t^2 - 2 h t + c` |
| MathUtils.CompletedSquare | src/utils/math.rs:3-5 | `a (a t^2 - 2 h t + c) = (a t - h)^2 - (h^2 - a c)`, which links the discriminant to the roots |
| MathUtils.NoRootWhenNegative | src/utils/math.rs:19-23 | a negative discriminant means no real root |
| MathUtils.FormulaRoots | src/utils/math.rs:24-26 | `(h -+ s) / a` with `s^2` the discriminant are exactly the roots, ordered for `a > 0` |
| MathUtils.IntersectionsCountRoots | src/utils/math.rs:7-16 | the classification counts the distinct real roots: none, one double root, or two distinct roots |
| Math.DiscriminantIntersections | src/math.rs:5-14 | on the `b`-form discriminant: `Some(2)` iff positive, `Some(1)` iff zero, `None` iff negative |
| Math.Discriminant | src/math.rs:1-3 | no contract of its own: `Math.FormsAgree` shows `b^2 - 4 a c` is four times the `h`-form discriminant when `b = -2h` |
| Math.FormsAgree | src/math.rs:1-3 | with `b = -2h`, the `b`-form discriminant is four times the `h`-form one, the classifications agree, and the roots are the same |
| Vec3.Div | src/vec3.rs:243-250 | scaling the quotient back by `t` gives the vector |
| Vec3.DivAssign | src/vec3.rs:189-196 | as written, x and y are unchanged and z is divided by `t^3` |
| Vec3.DivAssignCounterexample | src/vec3.rs:189-196 | `(1, 1, 1) /= 2` gives `(1, 1, 1/8)`, and scaling back by 2 does not restore the vector |
| Vec3.DivAssignIntended | src/vec3.rs:189-196 | the corrected in-place division updates x, y and z once each: it agrees with `/` (`Vec3.Div`), and scaling back by `t` restores the vector |
| Vec3.LenSq | src/vec3.rs:17-19 | the squared length is non-negative and zero only for the zero vector |
| Vec3.Len | src/vec3.rs:21-23 | the length is the non-negative square root of the squared length |
| Vec3.Dot | src/vec3.rs:31-33 | no contract of its own: `Vec3.CauchySchwarz` bounds `(a . b)^2` by `len_sq(a) len_sq(b)`, and `Vec3.UnitDotBounded` puts the dot product of unit vectors in [-1, 1] |
| Vec3.Cross | src/vec3.rs:36-42 | the cross product is orthogonal to both factors |
| Vec3.Unit | src/vec3.rs:44-46 | the unit vector has length 1, and scaling it by the length gives back the vector |
| Vec3.UnitMut | src/vec3.rs:72-74 | as written, `*self /= self.len()` leaves x and y unchanged and divides z by the cube of the length |
| Vec3.UnitMutCounterexample | src/vec3.rs:72-74 | `unit_mut` turns `(0, 0, 2)` into `(0, 0, 1/4)`, which is not a unit vector |
| Vec3.UnitMutIntended | src/vec3.rs:72-74 | through the corrected `/=`, `unit_mut` gives exactly `unit(v)`, a unit vector |
| Vec3.NearZeroIsShort | src/vec3.rs:114-117 | zero is near zero; a near-zero vector is shorter than `sqrt(3)` times the limit; a vector that is not near zero is non-zero |
| Vec3.Reflect | src/vec3.rs:119-125 | about a unit normal, reflection negates the normal component and keeps the length |
| Vec3.Refract | src/vec3.rs:136-144 | for unit `v` and `n`, the refracted vector has squared length at least 1, and exactly 1 when `ratio^2 (1 - cos^2) <= 1` (Snell's law admits refraction) |
| Vec3.RefractRatioOne | src/vec3.rs:136-144 | with ratio 1, a unit vector entering through a unit normal passes unchanged |
| Vec3.RefractRatioOneLeaving | src/vec3.rs:136-144 | with ratio 1, a unit vector leaving through a unit normal (`v . n > 0`) comes out as `reflect(v, n)`: the parallel part always points against `n` |
| Vec3.RandomInUnitDim | src/vec3.rs:86-95 | capped to [0, 1] per axis, a unit-ball sample stays in the unit ball, and non-positive axes are zeroed |
| Vec3.RandomInUnitCircleXy | src/vec3.rs:97-99 | the sample lies in the unit disc of the xy-plane |
| Vec3.RandomUnit | src/vec3.rs:101-103 | normalising a non-zero ball sample gives a unit vector |
| Vec3.RandomOnHemisphere | src/vec3.rs:105-112 | the result is the sample or its negation. It never points against the normal, keeps a sample already pointing out, and has the sample's length |
| HitRecord.NewHitRecord | src/object/mod.rs:15-20 | `front_face` iff the ray meets the outward normal head-on. The stored normal is the outward one or its negation accordingly, never points along the ray, and keeps its length; `t`, point and material are stored as given |
| Ray.AtOffset | src/object/sphere.rs:58 | `ray.at(t)` lies `t` directions from the origin, and `at(0)` is the origin |
| Sphere.Hit | src/object/sphere.rs:43-69 | a negative discriminant means no hit; any hit's `t` lies strictly inside the window |
| Sphere.HitIsNearestSurfacePoint | src/object/sphere.rs:43-69 | a hit is the record at a surface point, and no surface point strictly inside the window comes before it; `None` iff no surface point lies strictly inside the window |
| Sphere.SurfaceIsRoots | src/object/sphere.rs:43-47 | the surface points along the ray are exactly the roots of `a t^2 - 2 h t + c` with the source's coefficients |
| Sphere.OnSphereIffRoot | src/object/sphere.rs:43-47 | one point: on the sphere iff its `t` is a root |
| Sphere.OutwardNormalIsUnit | src/object/sphere.rs:63 | `(point - center) / radius` is a unit vector for a surface point |
| Sphere.Record | src/object/sphere.rs:57-66 | no contract of its own: `Sphere.HitRecordFacts` states the point, normal and material of the record a hit returns |
| Sphere.HitRecordFacts | src/object/sphere.rs:57-66 | the record's point is `ray.at(t)` and lies on the sphere; its normal is unit and faces the ray; it carries the sphere's material |
| Sphere.NearerRootPreferred | src/object/sphere.rs:49-55 | the smaller root wins when it is inside the window, the larger is taken otherwise, and neither inside gives `None` |
| Sphere.NarrowedHit | src/object/sphere.rs:49-55 | shrinking the upper bound to `hi` keeps the hit iff it lies below `hi`, with the same record |
| World.New | rtcli/src/object/world.rs:14-18 | a new world is empty |
| World.From | rtcli/src/object/world.rs:20-22 | `from(o)` holds exactly `[o]` |
| World.Clear | rtcli/src/object/world.rs:24-26 | `clear` empties the world |
| World.Push | rtcli/src/object/world.rs:28-30 | `push` appends at the end and keeps the earlier objects in order |
| World.Hit | rtcli/src/object/world.rs:34-47 | the shrinking-bound scan returns the reference closest hit: the fold `Closest`, which meets `IsClosest` (nearest `t`, earliest object on ties, `None` iff every object misses) |
| World.ClosestMeetsReference | rtcli/src/object/world.rs:34-47 | the left-to-right fold meets the declarative closest-hit specification for every prefix |
| World.ClosestUnique | rtcli/src/object/world.rs:34-47 | the closest-hit specification determines the result uniquely |
| World.ScanFindsClosest | rtcli/src/object/world.rs:35-46 | from any state meeting the scan invariant, the rest of the loop ends at the closest hit over all objects |
| World.Scan | rtcli/src/object/world.rs:35-46 | no contract of its own: `World.ScanFindsClosest` shows that the loop from any state meeting its invariant ends at the closest hit |
| World.Step | rtcli/src/object/world.rs:39-44 | no contract of its own: `World.ScanStep` shows that one iteration preserves the invariant |
| World.ScanStep | rtcli/src/object/world.rs:39-44 | one iteration with the narrowed window `(min, closest)` preserves the invariant (record = closest so far, `closest` = its `t`) |
| World.HitIsNearestSurfacePoint | rtcli/src/object/world.rs:34-47 | a world hit lies strictly inside the window on some sphere and no sphere is met earlier; `None` iff no sphere's surface lies strictly inside the window |
| World.HitRecordFacts | rtcli/src/object/world.rs:39-43 | the winning record's point is `ray.at(t)`; its normal is unit and faces the ray; its material is one of the world's |
| World.EmptyWorldMisses | rtcli/src/object/world.rs:34-47 | an empty world is never hit |
| World.PushedHit | rtcli/src/object/world.rs:28-47 | after `push(o)`, `o`'s hit replaces the old result only when strictly nearer |
| Material.NewMetallic | rtcli/src/material.rs:53-59 | the stored fuzz is `min(fuzz, 1)`, so never above 1 |
| Material.SchlickReflectance | rtcli/src/material.rs:83-87 | equals `r0 = ((1 - n) / (1 + n))^2` at `cos = 1`, and lies in `[r0, 1]` for `cos` in [0, 1] and `n >= 0` |
| Material.SchlickIgnoresRatio | rtcli/src/material.rs:83-87 | the result does not depend on the `ri` argument |
| Scattering.ScatterDiffuse | rtcli/src/material.rs:34-45 | always scatters from the hit point with the albedo, towards `normal + unit`, or along the normal when that sum is near zero |
| Scattering.DiffuseLeavesSurface | rtcli/src/material.rs:36-40 | a diffuse direction is non-zero and never points into the surface |
| Scattering.ScatterMetallic | rtcli/src/material.rs:62-71 | absorbed iff `unit(reflect) + fuzz * unit` does not point out of the surface; otherwise that direction from the hit point, with the albedo |
| Scattering.ReflectionLeaves | rtcli/src/material.rs:64-65 | the unit mirror reflection of an incoming ray points out of the surface |
| Scattering.MetallicScattersWhenFuzzSmall | rtcli/src/material.rs:63-70 | a fuzz below the reflection's normal component never absorbs |
| Scattering.MirrorScatters | rtcli/src/material.rs:63-70 | a metal with no fuzz scatters every ray arriving strictly against the normal, along the unit mirror reflection; a grazing ray (`dot == 0`) is absorbed |
| Scattering.RefractionRatio | rtcli/src/material.rs:93-97 | `1 / n` on the front face, `n` from inside |
| Scattering.ScatterDielectric | rtcli/src/material.rs:90-114 | always scatters from the hit point with attenuation (1, 1, 1). It reflects under total internal reflection or when Schlick beats the draw, and refracts otherwise |
| Scattering.TotalInternalReflectionIgnoresDraw | rtcli/src/material.rs:104-108 | under total internal reflection the draw does not matter |
| Scattering.DielectricDirectionIsUnit | rtcli/src/material.rs:99-110 | for a positive index the dielectric's direction is a unit vector, reflected or refracted |
| Scattering.RefractedIsUnit | rtcli/src/material.rs:101-109 | when refraction is admitted, the refracted unit direction stays unit |
| Scattering.IndexOnePassesStraight | rtcli/src/material.rs:92-110 | an index-1 dielectric passes an entering ray straight through when Schlick does not win the draw |
| Scattering.DielectricDirectionNonZero | rtcli/src/material.rs:105-111 | the dielectric's direction is never zero |
| Scattering.Scatter | rtcli/src/material.rs:10-21 | dispatch: diffuse and dielectric always scatter; diffuse and metal attenuate by the albedo, glass by (1, 1, 1); a scattered ray starts at the hit point with a non-zero direction |
| Colors.LinearToGamma | src/vec3.rs:292-298 | non-positive input maps to 0, positive input to its square root |
| Colors.GammaOfSquare | src/vec3.rs:292-298 | gamma undoes squaring of a positive value |
| Colors.GammaMonotone | src/vec3.rs:292-298 | gamma correction is monotone |
| Colors.ToGamma | src/vec3.rs:284-290 | each channel is gamma corrected independently |
| Colors.ChannelToByte | src/vec3.rs:276-280 | a channel quantises into 0..255, with 0 for input `<= 0` and 255 for input `>= 0.999` |
| Colors.ChannelToByteFloor | src/vec3.rs:276-280 | inside [0, 0.999] the byte is `floor(256 x)` |
| Colors.ChannelToByteMonotone | src/vec3.rs:276-280 | quantisation is monotone |
| Colors.ToRgb | src/vec3.rs:275-282 | every byte is in 0..255, and black maps to (0, 0, 0) |
| Camera.TruncToU32 | rtcli/src/camera.rs:84 | `as u32` truncates in range and saturates at 0 and `u32::MAX` |
| Camera.ImageHeight | rtcli/src/camera.rs:83-85 | the height is at least 1 and at most `u32::MAX`. It is `floor(width / aspect)` when that is a valid `u32` of at least 1, and 1 when below 1 (`src/camera.rs:76-78` is identical) |
| Camera.ImageHeightFitsAspect | rtcli/src/camera.rs:84-89 | `height * aspect <= width < (height + 1) * aspect` |
| Camera.SampleScale | rtcli/src/camera.rs:104 | `px_sample_scale * num_samples == 1`, in (0, 1] (`src/camera.rs:97` is identical) |
| Camera.SampleSquare | rtcli/src/camera.rs:183-185 | the offset lies in the unit square centred at 0, in the z = 0 plane |
| Camera.DiskSample | rtcli/src/camera.rs:187-193 | no contract of its own: `Camera.DiskSampleInLens` places the sample strictly inside the defocus disk |
| Camera.DiskSampleInLens | rtcli/src/camera.rs:187-193 | for orthogonal disk axes of equal length, the lens sample lies strictly inside the defocus disk |
| Camera.GetRay | rtcli/src/camera.rs:142-158 | the ray reaches the pixel sample at `t = 1`. It starts at the camera for a non-positive angle, and at the lens sample otherwise |
| Camera.PinholeGetRay | src/camera.rs:129-139 | every ray starts at the camera and reaches the pixel sample at `t = 1` |
| Camera.GetRayAgreesWithPinhole | rtcli/src/camera.rs:150-154 | with depth of field off, the rtcli ray equals the pinhole ray of `src/camera.rs` |
| Camera.BlendFactor | rtcli/src/camera.rs:176-177 | `s = 0.5 (unit(dir).y + 1)` lies in [0, 1] |
| Camera.Blend | rtcli/src/camera.rs:180 | the blend stays between white and sky blue, with white at 0 and sky blue at 1 |
| Camera.Background | rtcli/src/camera.rs:175-180 | the background lies between white and sky blue, channel by channel |
| Camera.BackgroundVertical | rtcli/src/camera.rs:175-180 | straight up is sky blue, straight down is white |
| Camera.RayColor | rtcli/src/camera.rs:160-181 | no contract of its own: `Camera.RayColorCases` states its four cases and `Camera.RayColorInUnitCube` its range |
| Camera.RayColorCases | rtcli/src/camera.rs:160-181 | no bounces left gives black; a miss of the window `(0.001, inf)` gives the background; an absorbed hit gives black; a scattered hit gives attenuation times the scattered ray's colour with one bounce fewer (`src/camera.rs:141-162` is the same recursion) |
| Camera.RayColorInUnitCube | rtcli/src/camera.rs:160-181 | with every albedo in the unit cube, every traced colour is in the unit cube |
| Camera.AttenuationInUnitCube | rtcli/src/camera.rs:168-169 | a bounce attenuates by a colour in the unit cube when the albedo is in it |
| Camera.SumOfEqualColors | rtcli/src/camera.rs:53-57 | `n` equal samples add up to `n` times the sample |
| Camera.PixelColor | rtcli/src/camera.rs:52-59 | the pixel's bytes are in 0..255 |
| Camera.PixelOfEqualSamples | rtcli/src/camera.rs:52-59 | when every sample has the same colour, the pixel shows that colour, gamma corrected and quantised |

## Left out

- Rendering: parallel pixel iteration, the progress counter, printing, timing and
  the image buffer. These are concurrency and I/O. Only the per-pixel step is
  modelled, as `Camera.PixelColor`.
- The random-number generator. Every random value is an argument: the unit-ball
  sample, the uniform draws and the lens sample.
- `random_in_unit_sphere`'s rejection loop: it is randomised and need not
  terminate. The accepted sample is a parameter with `LenSq < 1`.
- `Camera::from`'s trigonometry and viewport geometry: `deg_to_rad`, `tan`,
  the basis frame, the pixel deltas and the defocus disk. These are
  floating-point numerics. The camera's vectors are taken as given.
- `f32` rounding, NaN and infinities, except the interval bounds and the
  saturating `as u32` cast. Everything else is exact real arithmetic.
- The scenes, the GUI front end and the entry point: demo data and plumbing.
- The ray type's own file is not part of this model. `Ray.At` follows its use in
  `Sphere::hit`.
- rtcli's `Object` enum, `Sphere` and material-carrying `HitRecord` are not
  part of this model. They are modelled as `src/object/`'s sphere and record,
  with a material field added.
- `src/camera.rs`'s `ray_color` calls a material module that is not part of this
  model. It has the same body as rtcli's and is modelled by the same `RayColor`.
- Division by zero is a precondition wherever `f32` would produce infinities or
  NaN:
  - a zero sphere radius;
  - a zero ray direction;
  - `a == 0` in the quadratic formula;
  - a dielectric index of 0 or -1;
  - a zero unit-ball sample, which `random_in_unit_sphere` can return and
    `unit()` would then divide by zero;
  - zero samples per pixel.
- Camera.RayColor: it has no postcondition of its own. `Camera.RayColorCases`
  states its cases and `Camera.RayColorInUnitCube` its range.
- Camera.ImageHeight: the rounding of `image_width as f32` is not modelled; the
  width is converted exactly.
- Scattering.Scatter: it requires a unit normal, a non-zero incoming direction
  and a valid material. These hold for every record the world returns
  (`World.HitRecordFacts`); the source does not check them.
- Vec3.RefractRatioOne: it is stated for unit vectors entering head-on
  (`v . n < 0`). The parallel part is always `-sqrt(|1 - |perp|^2|) n`, so a unit
  vector leaving (`v . n > 0`) is mirrored instead; `Vec3.RefractRatioOneLeaving`
  states that case.
- Camera.PixelColor: its own contract gives only the byte range.
  `Camera.PixelOfEqualSamples` relates it to the sample colour.
- `Vec3::random`, `random_range`, `Color::random`, `Display` and the `x/y/z`
  accessors: random generation, formatting and field access.
- World sharing: rtcli's `World` is a cloneable handle to one shared,
  lock-protected list, so `push` or `clear` through one clone is seen by all.
  The model's world is a plain value. Nothing in the modelled code clones a world.

## Findings

| source | as written | input that shows it | evidently intended | confidence | as-written member | corrected member |
|---|---|---|---|---|---|---|
| src/vec3.rs:189-196 (and the same code in src/vec3.rs:353-360) | `/=` divides `self.2` three times and leaves x and y unchanged | `(1, 1, 1) /= 2` gives `(1, 1, 0.125)`, not `(0.5, 0.5, 0.5)` | divide each of x, y and z once | not executed | Vec3.DivAssign, Vec3.DivAssignCounterexample | Vec3.DivAssignIntended |
| src/vec3.rs:72-74 | `unit_mut` normalises through the defective `/=`, so only z is divided, by the cube of the length | `(0, 0, 2)` becomes `(0, 0, 0.25)`, not `(0, 0, 1)` | divide every component once by the length, as `unit` does | not executed | Vec3.UnitMut, Vec3.UnitMutCounterexample | Vec3.UnitMutIntended |
