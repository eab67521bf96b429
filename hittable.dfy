/** Ray-object intersection: spheres, and a world that reports the nearest
    hit among its objects. `sqrt` and `unit` are the floating-point square
    root and normalisation, left abstract. */
module Geometry {
  import opened Vectors
  import opened Rays
  import opened Options
  import opened Materials

  /** A hit: the ray parameter, the surface normal as a ray starting at the
      hit point, and the material hit. */
  datatype HitRecord = HitRecord(t: real, normal: Ray, material: Material)

  datatype Sphere = Sphere(center: Vec3, radius: real, material: Material)

  /** The objects of a scene; every object of the renderer is a sphere. */
  datatype World = World(objects: seq<Sphere>)

  /** The coefficients of `a t^2 + b t + c = 0`, whose roots are the ray
      parameters at which the ray meets the sphere's surface. */
  function QuadA(ray: Ray): real {
    Dot(ray.direction, ray.direction)
  }

  function QuadB(s: Sphere, ray: Ray): real {
    2.0 * Dot(Sub(ray.origin, s.center), ray.direction)
  }

  function QuadC(s: Sphere, ray: Ray): real {
    var oc := Sub(ray.origin, s.center);
    Dot(oc, oc) - s.radius * s.radius
  }

  function Discriminant(s: Sphere, ray: Ray): real {
    QuadB(s, ray) * QuadB(s, ray) - 4.0 * QuadA(ray) * QuadC(s, ray)
  }

  /** The smaller root, the only one the source ever considers. */
  function SmallerRoot(s: Sphere, ray: Ray, sqrt: real -> real): real
    requires QuadA(ray) != 0.0
  {
    (-QuadB(s, ray) - sqrt(Discriminant(s, ray))) / (2.0 * QuadA(ray))
  }

  /** `Sphere::hit`. A zero direction makes `a`, `b` and the discriminant
      zero, so the source divides zero by zero: the NaN parameter fails both
      range comparisons and there is no hit, which is what the model says. */
  function SphereHit(s: Sphere, ray: Ray, minT: real, maxT: real,
                     sqrt: real -> real, unit: Vec3 -> Vec3): (r: Option<HitRecord>)
    ensures r.Some? <==>
              Discriminant(s, ray) >= 0.0 && QuadA(ray) != 0.0 &&
              minT < SmallerRoot(s, ray, sqrt) < maxT
    ensures r.Some? ==> r.value.t == SmallerRoot(s, ray, sqrt) && minT < r.value.t < maxT
    ensures r.Some? ==> r.value.normal.origin == PointAtParameter(ray, r.value.t)
    ensures r.Some? ==> r.value.normal.direction == unit(Sub(r.value.normal.origin, s.center))
    ensures r.Some? ==> r.value.material == s.material
  {
    if Discriminant(s, ray) < 0.0 || QuadA(ray) == 0.0 then
      None
    else
      var t := SmallerRoot(s, ray, sqrt);
      if minT < t && t < maxT then
        var hitPoint := PointAtParameter(ray, t);
        Some(HitRecord(t, Ray(hitPoint, unit(Sub(hitPoint, s.center))), s.material))
      else
        None
  }

  /** With a square root exact at the discriminant, a reported hit lies on
      the sphere's surface. */
  lemma SphereHitOnSurface(s: Sphere, ray: Ray, minT: real, maxT: real,
                           sqrt: real -> real, unit: Vec3 -> Vec3)
    requires SphereHit(s, ray, minT, maxT, sqrt, unit).Some?
    requires sqrt(Discriminant(s, ray)) * sqrt(Discriminant(s, ray)) == Discriminant(s, ray)
    ensures var h := SphereHit(s, ray, minT, maxT, sqrt, unit).value;
            SquaredLength(Sub(h.normal.origin, s.center)) == s.radius * s.radius
  {
    var h := SphereHit(s, ray, minT, maxT, sqrt, unit).value;
    SmallerRootSolves(s, ray, sqrt);
    OnSurfaceAtRoot(s, ray, h.t);
  }

  lemma SmallerRootSolves(s: Sphere, ray: Ray, sqrt: real -> real)
    requires QuadA(ray) != 0.0
    requires sqrt(Discriminant(s, ray)) * sqrt(Discriminant(s, ray)) == Discriminant(s, ray)
    ensures var t := SmallerRoot(s, ray, sqrt);
            t * t * QuadA(ray) + t * QuadB(s, ray) + QuadC(s, ray) == 0.0
  {
    var t := SmallerRoot(s, ray, sqrt);
    var qa, qb, qc := QuadA(ray), QuadB(s, ray), QuadC(s, ray);
    assert Discriminant(s, ray) == qb * qb - 4.0 * qa * qc;
    assert t == (-qb - sqrt(Discriminant(s, ray))) / (2.0 * qa);
    QuadraticRoot(qa, qb, qc, Discriminant(s, ray), sqrt(Discriminant(s, ray)), t);
  }

  /** A root of the quadratic gives a point at squared distance `r^2` from
      the centre. */
  lemma OnSurfaceAtRoot(s: Sphere, ray: Ray, t: real)
    requires t * t * QuadA(ray) + t * QuadB(s, ray) + QuadC(s, ray) == 0.0
    ensures SquaredLength(Sub(PointAtParameter(ray, t), s.center)) == s.radius * s.radius
  {
    SquaredDistanceAt(s, ray, t);
  }

  /** The squared distance from the centre along the ray is the quadratic
      plus `r^2`. */
  lemma SquaredDistanceAt(s: Sphere, ray: Ray, t: real)
    ensures SquaredLength(Sub(PointAtParameter(ray, t), s.center))
            == t * t * QuadA(ray) + t * QuadB(s, ray) + QuadC(s, ray) + s.radius * s.radius
  {
    PointOffset(s, ray, t);
    OffsetSquared(Sub(ray.origin, s.center), ray.direction, t);
  }

  lemma PointOffset(s: Sphere, ray: Ray, t: real)
    ensures Sub(PointAtParameter(ray, t), s.center) == Add(Sub(ray.origin, s.center), Scale(ray.direction, t))
  {
  }

  /** `|o + t d|^2 = t^2 |d|^2 + 2 t o.d + |o|^2`. */
  lemma OffsetSquared(o: Vec3, d: Vec3, t: real)
    ensures Dot(Add(o, Scale(d, t)), Add(o, Scale(d, t))) == t * t * Dot(d, d) + t * (2.0 * Dot(o, d)) + Dot(o, o)
  {
    var w := Scale(d, t);
    DotOfSum(o, w);
    DotScale(d, t, o);
    DotSymmetric(w, o);
    DotScale(d, t, w);
    DotScale(d, t, d);
    DotSymmetric(w, d);
    ExpandQuadratic(Dot(Add(o, w), Add(o, w)), Dot(o, o), Dot(o, d), Dot(d, d), t,
                    Dot(o, w), Dot(w, w), Dot(d, w));
  }

  /** `|a + b|^2 = |a|^2 + 2 a.b + |b|^2`. */
  lemma DotOfSum(a: Vec3, b: Vec3)
    ensures Dot(Add(a, b), Add(a, b)) == Dot(a, a) + 2.0 * Dot(a, b) + Dot(b, b)
  {
    SumSquare(a.x, b.x);
    SumSquare(a.y, b.y);
    SumSquare(a.z, b.z);
  }

  lemma SumSquare(p: real, q: real)
    ensures (p + q) * (p + q) == p * p + 2.0 * (p * q) + q * q
  {
  }

  /** The scalar step of `SquaredDistanceAt`, with each dot product named. */
  lemma ExpandQuadratic(total: real, oo: real, od: real, dd: real, t: real, ow: real, ww: real, dw: real)
    requires total == oo + 2.0 * ow + ww
    requires ow == t * od && ww == t * dw && dw == t * dd
    ensures total == t * t * dd + t * (2.0 * od) + oo
  {
  }

  /** `t = (-b - s) / 2a` with `s^2 = b^2 - 4ac` solves `a t^2 + b t + c = 0`. */
  lemma QuadraticRoot(a: real, b: real, c: real, discriminant: real, s: real, t: real)
    requires a != 0.0
    requires discriminant == b * b - 4.0 * a * c && s * s == discriminant
    requires t == (-b - s) / (2.0 * a)
    ensures t * t * a + t * b + c == 0.0
  {
    var u := 2.0 * a * t;
    assert u == -b - s;
    var q := t * t * a + t * b + c;
    assert u * u == b * b + 2.0 * b * s + s * s;
    assert u * u == 4.0 * a * (t * t * a);
    assert 4.0 * a * q == u * u + 2.0 * b * u + 4.0 * a * c;
    assert 4.0 * a * q == 0.0;
    ProductZero(4.0 * a, q);
  }

  /** A ray that starts strictly inside a sphere never reports it, whatever
      its range from 0 up: only the smaller root is considered, and that one
      lies behind the origin. */
  lemma NoHitFromInside(s: Sphere, ray: Ray, minT: real, maxT: real, sqrt: real -> real, unit: Vec3 -> Vec3)
    requires SquaredLength(Sub(ray.origin, s.center)) < s.radius * s.radius
    requires 0.0 <= minT
    requires sqrt(Discriminant(s, ray)) >= 0.0
    requires sqrt(Discriminant(s, ray)) * sqrt(Discriminant(s, ray)) == Discriminant(s, ray)
    ensures SphereHit(s, ray, minT, maxT, sqrt, unit).None?
    ensures QuadA(ray) != 0.0 ==>
              (-QuadB(s, ray) + sqrt(Discriminant(s, ray))) / (2.0 * QuadA(ray)) > 0.0
  {
    if QuadA(ray) != 0.0 {
      InsideConstantTerm(s, ray);
      SquaredLengthNonNegative(ray.direction);
      var root := sqrt(Discriminant(s, ray));
      InsideRootNegative(QuadA(ray), QuadB(s, ray), QuadC(s, ray), Discriminant(s, ray), root,
                         SmallerRoot(s, ray, sqrt));
      InsideLargerRootPositive(QuadA(ray), QuadB(s, ray), QuadC(s, ray), Discriminant(s, ray), root,
                               (-QuadB(s, ray) + root) / (2.0 * QuadA(ray)));
    }
  }

  /** From inside the sphere, `c` is negative. */
  lemma InsideConstantTerm(s: Sphere, ray: Ray)
    requires SquaredLength(Sub(ray.origin, s.center)) < s.radius * s.radius
    ensures QuadC(s, ray) < 0.0
  {
  }

  /** With `a > 0` and `c < 0` the smaller root is negative. */
  lemma InsideRootNegative(a: real, b: real, c: real, discriminant: real, root: real, t: real)
    requires a > 0.0 && c < 0.0
    requires discriminant == b * b - 4.0 * a * c
    requires root >= 0.0 && root * root == discriminant
    requires t == (-b - root) / (2.0 * a)
    ensures t < 0.0
  {
    NegativeProduct(a, c);
    RootExceeds(b, root);
    QuotientNegative(-b - root, 2.0 * a, t);
  }

  /** With `a > 0` and `c < 0` the larger root is positive. */
  lemma InsideLargerRootPositive(a: real, b: real, c: real, discriminant: real, root: real, t: real)
    requires a > 0.0 && c < 0.0
    requires discriminant == b * b - 4.0 * a * c
    requires root >= 0.0 && root * root == discriminant
    requires t == (-b + root) / (2.0 * a)
    ensures t > 0.0
  {
    NegativeProduct(a, c);
    RootExceeds(b, root);
    QuotientPositive(-b + root, 2.0 * a, t);
  }

  lemma NegativeProduct(a: real, c: real)
    requires a > 0.0 && c < 0.0
    ensures a * c < 0.0
  {
  }

  /** A non-negative root of something above `b^2` exceeds `|b|`. */
  lemma RootExceeds(b: real, root: real)
    requires root >= 0.0 && root * root > b * b
    ensures -b - root < 0.0 && -b + root > 0.0
  {
    if b < 0.0 {
      SquareBelow(-b, root);
    } else {
      SquareBelow(b, root);
    }
  }

  lemma SquareBelow(p: real, q: real)
    requires p >= 0.0 && q >= 0.0 && q * q > p * p
    ensures p < q
  {
    assert (q - p) * (q + p) == q * q - p * p;
    PositiveFactor(q - p, q + p);
  }

  lemma PositiveFactor(x: real, y: real)
    requires x * y > 0.0 && y >= 0.0
    ensures x > 0.0
  {
  }

  lemma QuotientPositive(n: real, d: real, q: real)
    requires n > 0.0 && d > 0.0 && q == n / d
    ensures q > 0.0
  {
    assert q * d == n;
  }

  lemma QuotientNegative(n: real, d: real, q: real)
    requires n < 0.0 && d > 0.0 && q == n / d
    ensures q < 0.0
  {
    assert q * d == n;
  }

  /** A ray that grazes a sphere, with the discriminant exactly zero, still
      hits it, at `t = -b / 2a`. */
  lemma TangentHit(s: Sphere, ray: Ray, minT: real, maxT: real, sqrt: real -> real, unit: Vec3 -> Vec3)
    requires Discriminant(s, ray) == 0.0 && QuadA(ray) != 0.0 && sqrt(0.0) == 0.0
    requires minT < -QuadB(s, ray) / (2.0 * QuadA(ray)) < maxT
    ensures SphereHit(s, ray, minT, maxT, sqrt, unit).Some?
    ensures SphereHit(s, ray, minT, maxT, sqrt, unit).value.t == -QuadB(s, ray) / (2.0 * QuadA(ray))
  {
    assert SmallerRoot(s, ray, sqrt) == (-QuadB(s, ray) - 0.0) / (2.0 * QuadA(ray));
  }

  /** A ray along the view axis at a sphere of radius `rho` centred at
      distance `k` ahead of it: with a square root exact at the
      discriminant `4 rho^2`, the hit is on the near pole, at `t = k - rho`,
      with the outward normal along the axis. */
  lemma HeadOnHit(k: real, rho: real, minT: real, maxT: real, sqrt: real -> real, unit: Vec3 -> Vec3, m: Material)
    requires 0.0 < rho < k
    requires sqrt(4.0 * (rho * rho)) == 2.0 * rho
    requires minT < k - rho < maxT
    ensures SphereHit(Sphere(Vec3(0.0, 0.0, -k), rho, m), Ray(Zero, Vec3(0.0, 0.0, -1.0)), minT, maxT, sqrt, unit)
            == Some(HitRecord(k - rho, Ray(Vec3(0.0, 0.0, rho - k), unit(Vec3(0.0, 0.0, rho))), m))
  {
    var s := Sphere(Vec3(0.0, 0.0, -k), rho, m);
    var ray := Ray(Zero, Vec3(0.0, 0.0, -1.0));
    assert QuadA(ray) == 1.0;
    assert QuadB(s, ray) == -2.0 * k;
    assert QuadC(s, ray) == k * k - rho * rho;
    assert Discriminant(s, ray) == 4.0 * (rho * rho);
    assert SmallerRoot(s, ray, sqrt) == (2.0 * k - 2.0 * rho) / 2.0;
    assert PointAtParameter(ray, k - rho) == Vec3(0.0, 0.0, rho - k);
    assert Sub(Vec3(0.0, 0.0, rho - k), s.center) == Vec3(0.0, 0.0, rho);
  }

  /** The comparison `min_by` makes between the best hit so far and the next
      one: the next replaces the best only when strictly nearer. */
  function Closer(best: Option<HitRecord>, next: Option<HitRecord>): Option<HitRecord> {
    match next
    case None => best
    case Some(h) =>
      if best.None? || h.t < best.value.t then next else best
  }

  /** The missing hits dropped, and the nearest of the rest, the first of
      several equally near ones. */
  function Nearest(hits: seq<Option<HitRecord>>): (r: Option<HitRecord>)
    ensures r.None? <==> forall i :: 0 <= i < |hits| ==> hits[i].None?
    ensures r.Some? ==> forall i :: 0 <= i < |hits| && hits[i].Some? ==> r.value.t <= hits[i].value.t
    ensures r.Some? ==> exists i :: 0 <= i < |hits| && hits[i] == r && NoneNearerBefore(hits, i)
  {
    if |hits| == 0 then
      None
    else
      var prefix := hits[..|hits| - 1];
      var best := Nearest(prefix);
      var r := Closer(best, hits[|hits| - 1]);
      assert forall i :: 0 <= i < |prefix| ==> prefix[i] == hits[i];
      r
  }

  /** No hit before index `i` is strictly nearer than (or as near as)
      `hits[i]`: `hits[i]` is the first of the nearest. */
  predicate NoneNearerBefore(hits: seq<Option<HitRecord>>, i: nat)
    requires i < |hits| && hits[i].Some?
  {
    forall j :: 0 <= j < i && hits[j].Some? ==> hits[j].value.t > hits[i].value.t
  }

  /** The hit of each object of the world, in order. */
  function ObjectHits(world: World, ray: Ray, minT: real, maxT: real,
                      sqrt: real -> real, unit: Vec3 -> Vec3): (hits: seq<Option<HitRecord>>)
    ensures |hits| == |world.objects|
    ensures forall i :: 0 <= i < |hits| ==> hits[i] == SphereHit(world.objects[i], ray, minT, maxT, sqrt, unit)
  {
    seq(|world.objects|, i requires 0 <= i < |world.objects| => SphereHit(world.objects[i], ray, minT, maxT, sqrt, unit))
  }

  /** `World::hit`: no hit when no object is hit; otherwise the hit of the
      first object whose hit is nearest. */
  function WorldHit(world: World, ray: Ray, minT: real, maxT: real,
                    sqrt: real -> real, unit: Vec3 -> Vec3): (r: Option<HitRecord>)
    ensures r.None? <==>
              forall i :: 0 <= i < |world.objects| ==> SphereHit(world.objects[i], ray, minT, maxT, sqrt, unit).None?
    ensures r.Some? ==> minT < r.value.t < maxT
    ensures r.Some? ==>
              forall i :: 0 <= i < |world.objects| && SphereHit(world.objects[i], ray, minT, maxT, sqrt, unit).Some? ==>
                r.value.t <= SphereHit(world.objects[i], ray, minT, maxT, sqrt, unit).value.t
    ensures r.Some? ==>
              exists i :: 0 <= i < |world.objects| && r == SphereHit(world.objects[i], ray, minT, maxT, sqrt, unit)
  {
    var hits := ObjectHits(world, ray, minT, maxT, sqrt, unit);
    Nearest(hits)
  }

  /** Two hits equally near: the first object's hit is the one reported. */
  lemma NearestTieKeepsFirst(a: HitRecord, b: HitRecord)
    requires a.t == b.t
    ensures Nearest([Some(a), Some(b)]) == Some(a)
  {
    assert [Some(a), Some(b)][..1] == [Some(a)];
    assert [Some(a)][..0] == [];
  }

  /** A nearer hit later in the list replaces an earlier one. */
  lemma NearestLaterNearer(a: HitRecord, b: HitRecord)
    requires b.t < a.t
    ensures Nearest([Some(a), None, Some(b)]) == Some(b)
  {
    assert [Some(a), None, Some(b)][..2] == [Some(a), None];
    assert [Some(a), None][..1] == [Some(a)];
    assert [Some(a)][..0] == [];
  }
}
