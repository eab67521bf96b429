/** The pinhole camera: a location, the lower-left corner of the image
    plane and the two vectors spanning it. `tan`, `unit` and the value of
    pi are parameters. */
module Cameras {
  import opened Vectors
  import opened Rays

  datatype Camera = Camera(location: Vec3, lowerLeft: Vec3, horizontal: Vec3, vertical: Vec3)

  /** The orthogonal frame `Camera::new` builds: `w` points from the
      look-at point back to the camera, `u` is horizontal in the image and
      `v` vertical. */
  datatype Frame = Frame(u: Vec3, v: Vec3, w: Vec3, halfWidth: real, halfHeight: real)

  function CameraFrame(location: Vec3, lookAt: Vec3, vup: Vec3, vfov: real, aspect: real,
                       tan: real -> real, pi: real, unit: Vec3 -> Vec3): (f: Frame)
    ensures f.halfWidth == aspect * f.halfHeight
    ensures f.w == unit(Sub(location, lookAt))
    ensures Dot(f.v, f.w) == 0.0 && Dot(f.v, f.u) == 0.0
  {
    var theta := vfov * pi / 180.0;
    var halfHeight := tan(theta / 2.0);
    var w := unit(Sub(location, lookAt));
    var u := unit(Cross(vup, w));
    Frame(u, Cross(w, u), w, aspect * halfHeight, halfHeight)
  }

  /** `Camera::new`. */
  function CameraNew(location: Vec3, lookAt: Vec3, vup: Vec3, vfov: real, aspect: real,
                     tan: real -> real, pi: real, unit: Vec3 -> Vec3): (c: Camera)
    ensures c.location == location
    ensures var f := CameraFrame(location, lookAt, vup, vfov, aspect, tan, pi, unit);
            c.horizontal == ScalarMul(2.0 * f.halfWidth, f.u) &&
            c.vertical == ScalarMul(2.0 * f.halfHeight, f.v)
  {
    var f := CameraFrame(location, lookAt, vup, vfov, aspect, tan, pi, unit);
    Camera(location,
           Sub(Sub(Sub(location, ScalarMul(f.halfWidth, f.u)), ScalarMul(f.halfHeight, f.v)), f.w),
           ScalarMul(2.0 * f.halfWidth, f.u),
           ScalarMul(2.0 * f.halfHeight, f.v))
  }

  /** `get_ray`. The direction is the image-plane point itself:
      `location` is not subtracted from it. */
  function GetRay(c: Camera, u: real, v: real): (r: Ray)
    ensures r.origin == c.location
  {
    Ray(c.location, Add(Add(c.lowerLeft, ScalarMul(u, c.horizontal)), ScalarMul(v, c.vertical)))
  }

  /** At image coordinates (0, 0) the direction is the lower-left corner. */
  lemma GetRayAtLowerLeft(c: Camera)
    ensures GetRay(c, 0.0, 0.0).direction == c.lowerLeft
  {
  }

  /** The direction is affine in each image coordinate. */
  lemma GetRayShiftU(c: Camera, u: real, v: real, delta: real)
    ensures Sub(GetRay(c, u + delta, v).direction, GetRay(c, u, v).direction) == ScalarMul(delta, c.horizontal)
  {
  }

  lemma GetRayShiftV(c: Camera, u: real, v: real, delta: real)
    ensures Sub(GetRay(c, u, v + delta).direction, GetRay(c, u, v).direction) == ScalarMul(delta, c.vertical)
  {
  }

  /** The middle of the image lies at `location - w`; the ray through it
      has that point, not `-w`, as its direction. */
  lemma GetRayAtCentre(location: Vec3, lookAt: Vec3, vup: Vec3, vfov: real, aspect: real,
                       tan: real -> real, pi: real, unit: Vec3 -> Vec3)
    ensures var c := CameraNew(location, lookAt, vup, vfov, aspect, tan, pi, unit);
            var f := CameraFrame(location, lookAt, vup, vfov, aspect, tan, pi, unit);
            Add(Add(c.lowerLeft, ScalarMul(0.5, c.horizontal)), ScalarMul(0.5, c.vertical)) == Sub(location, f.w) &&
            GetRay(c, 0.5, 0.5).direction == Sub(location, f.w)
  {
    var f := CameraFrame(location, lookAt, vup, vfov, aspect, tan, pi, unit);
    PlaneCentre(location, f.u, f.v, f.w, f.halfWidth, f.halfHeight);
  }

  lemma PlaneCentre(location: Vec3, u: Vec3, v: Vec3, w: Vec3, halfWidth: real, halfHeight: real)
    ensures var lowerLeft := Sub(Sub(Sub(location, ScalarMul(halfWidth, u)), ScalarMul(halfHeight, v)), w);
            Add(Add(lowerLeft, ScalarMul(0.5, ScalarMul(2.0 * halfWidth, u))), ScalarMul(0.5, ScalarMul(2.0 * halfHeight, v)))
            == Sub(location, w)
  {
  }

  /** The two vectors spanning the image plane are orthogonal, and the
      vertical one is orthogonal to the view axis, whatever `unit` and
      `tan` return. */
  lemma ImagePlaneOrthogonal(location: Vec3, lookAt: Vec3, vup: Vec3, vfov: real, aspect: real,
                             tan: real -> real, pi: real, unit: Vec3 -> Vec3)
    ensures var c := CameraNew(location, lookAt, vup, vfov, aspect, tan, pi, unit);
            var f := CameraFrame(location, lookAt, vup, vfov, aspect, tan, pi, unit);
            Dot(c.horizontal, c.vertical) == 0.0 && Dot(c.vertical, f.w) == 0.0
  {
    var c := CameraNew(location, lookAt, vup, vfov, aspect, tan, pi, unit);
    var f := CameraFrame(location, lookAt, vup, vfov, aspect, tan, pi, unit);
    DotScale(f.u, 2.0 * f.halfWidth, c.vertical);
    DotSymmetric(f.u, c.vertical);
    DotScale(f.v, 2.0 * f.halfHeight, f.u);
    DotSymmetric(f.v, f.u);
    DotScale(f.v, 2.0 * f.halfHeight, f.w);
  }

  /** When `unit` only rescales its argument (as normalisation does), the
      horizontal vector is orthogonal to the view axis too, so the image
      plane is perpendicular to it. */
  lemma HorizontalOrthogonalToAxis(location: Vec3, lookAt: Vec3, vup: Vec3, vfov: real, aspect: real,
                                   tan: real -> real, pi: real, unit: Vec3 -> Vec3, k: real)
    requires var w := unit(Sub(location, lookAt));
             unit(Cross(vup, w)) == Scale(Cross(vup, w), k)
    ensures var c := CameraNew(location, lookAt, vup, vfov, aspect, tan, pi, unit);
            var f := CameraFrame(location, lookAt, vup, vfov, aspect, tan, pi, unit);
            Dot(c.horizontal, f.w) == 0.0
  {
    var c := CameraNew(location, lookAt, vup, vfov, aspect, tan, pi, unit);
    var f := CameraFrame(location, lookAt, vup, vfov, aspect, tan, pi, unit);
    var n := Cross(vup, f.w);
    DotScale(n, k, f.w);
    DotSymmetric(n, f.w);
    DotScale(f.u, 2.0 * f.halfWidth, f.w);
  }
}
