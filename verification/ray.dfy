/**
 * A ray `P(t) = origin + t direction`. The ray type itself lives in a file
 * that is not part of this model; `at` is the parametric point every caller
 * relies on.
 */
module Ray {
  import opened Vec3

  datatype Ray = Ray(origin: Point3, direction: Vec3)

  /** `Ray::at`. */
  function At(ray: Ray, t: real): Point3
  {
    Add(ray.origin, Scale(t, ray.direction))
  }

  /** The point at `t` lies `t` directions away from the origin, and `t == 0` is the origin. */
  lemma AtOffset(ray: Ray, t: real)
    ensures Sub(At(ray, t), ray.origin) == Scale(t, ray.direction)
    ensures At(ray, 0.0) == ray.origin
  {
  }
}
