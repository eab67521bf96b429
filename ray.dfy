/** A ray: an origin and a direction, evaluated parametrically. */
module Rays {
  import opened Vectors

  /** `Ray::new` is this datatype's constructor: it stores origin and
      direction unchanged. */
  datatype Ray = Ray(origin: Vec3, direction: Vec3)

  /** The point `origin + direction * t`. */
  function PointAtParameter(ray: Ray, t: real): Vec3 {
    Add(ray.origin, Scale(ray.direction, t))
  }

  /** The point lies `direction * t` away from the origin. */
  lemma PointAtParameterOffset(ray: Ray, t: real)
    ensures Sub(PointAtParameter(ray, t), ray.origin) == Scale(ray.direction, t)
  {
  }

  lemma PointAtZero(ray: Ray)
    ensures PointAtParameter(ray, 0.0) == ray.origin
  {
  }

  /** The parametrisation is affine: moving from `s` to `t` moves by
      `direction * (t - s)`. */
  lemma PointAtParameterAffine(ray: Ray, t: real, s: real)
    ensures Sub(PointAtParameter(ray, t), PointAtParameter(ray, s)) == Scale(ray.direction, t - s)
  {
  }

  lemma PointAtParameterExample()
    ensures PointAtParameter(Ray(Vec3(1.0, 2.0, 3.0), Vec3(2.0, 3.0, 4.0)), 2.0) == Vec3(5.0, 8.0, 11.0)
  {
  }
}
