/**
 * The record of a ray hitting a surface (src/object/mod.rs), with the
 * material the command-line renderer attaches to it.
 */
module HitRecord {
  import opened Vec3
  import opened Ray
  import opened Material

  datatype HitRecord = HitRecord(point: Point3, normal: Vec3, t: real, frontFace: bool, material: Material)

  /**
   * `HitRecord::new`: the stored normal is oriented against the incoming ray,
   * and `front_face` records whether the ray arrived from outside.
   */
  function NewHitRecord(t: real, ray: Ray, point: Point3, outwardNormal: Vec3, material: Material): (r: HitRecord)
    ensures r.frontFace <==> Dot(ray.direction, outwardNormal) < 0.0
    ensures r.normal == (if r.frontFace then outwardNormal else Neg(outwardNormal))
    ensures Dot(ray.direction, r.normal) <= 0.0
    ensures LenSq(r.normal) == LenSq(outwardNormal)
    ensures r.t == t && r.point == point && r.material == material
  {
    var frontFace := Dot(ray.direction, outwardNormal) < 0.0;
    assert Dot(ray.direction, Neg(outwardNormal)) == -Dot(ray.direction, outwardNormal);
    var normal := if frontFace then outwardNormal else Neg(outwardNormal);
    HitRecord(point, normal, t, frontFace, material)
  }
}
