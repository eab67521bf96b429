/** Surface materials: a closed set of four behaviours, each turning a hit
    into directly emitted light plus zero or one scattered rays. The random
    draws of the source are parameters: `sample` is the point that
    `random_in_unit_sphere` produced for this hit and `u` the uniform draw
    compared with Schlick's value. `sqrt`, `unit` and `length` are the
    floating-point square root, normalisation and length, left abstract. */
module Materials {
  import opened Vectors
  import opened Rays
  import opened Options

  datatype Material =
    | Normal
    | Lambertian(albedo: Vec3)
    | Metal(albedo: Vec3, fuzz: real)
    | Dielectric(refractiveIndex: real)

  datatype ScatteredRay = ScatteredRay(ray: Ray, attenuation: Vec3)

  datatype LightInteraction = LightInteraction(directlyEmitted: Vec3, scatteredRays: seq<ScatteredRay>)

  /** Mirror reflection of `inbound` about `normal`: `d - 2 (d . n) n`. */
  function Reflect(inbound: Vec3, normal: Vec3): Vec3 {
    Sub(inbound, ScalarMul(2.0 * Dot(inbound, normal), normal))
  }

  /** About a unit normal, reflection negates the normal component. */
  lemma ReflectFlipsNormalComponent(inbound: Vec3, normal: Vec3)
    requires Dot(normal, normal) == 1.0
    ensures Dot(Reflect(inbound, normal), normal) == -Dot(inbound, normal)
  {
    var k := 2.0 * Dot(inbound, normal);
    DotScale(normal, k, normal);
    DotSub(inbound, Scale(normal, k), normal);
  }

  /** About a unit normal, reflection keeps the squared length. */
  lemma ReflectPreservesSquaredLength(inbound: Vec3, normal: Vec3)
    requires Dot(normal, normal) == 1.0
    ensures SquaredLength(Reflect(inbound, normal)) == SquaredLength(inbound)
  {
    var dn := Dot(inbound, normal);
    var m := Scale(normal, 2.0 * dn);
    DotScale(normal, 2.0 * dn, normal);
    DotScale(normal, 2.0 * dn, inbound);
    DotSymmetric(m, inbound);
    ScaleSquaredLength(normal, 2.0 * dn);
    SquaredLengthOfDifference(inbound, m);
    assert Dot(inbound, m) == 2.0 * dn * dn;
    assert SquaredLength(m) == 4.0 * dn * dn;
  }

  lemma DotSub(a: Vec3, b: Vec3, c: Vec3)
    ensures Dot(Sub(a, b), c) == Dot(a, c) - Dot(b, c)
  {
  }

  lemma SquaredLengthOfDifference(a: Vec3, b: Vec3)
    ensures SquaredLength(Sub(a, b)) == SquaredLength(a) - 2.0 * Dot(a, b) + SquaredLength(b)
  {
  }

  /** Diffuse scattering: the target is `origin + normal + sample`, and the
      ray runs from the hit point towards it. */
  function InteractWithLambertian(hitNormal: Ray, albedo: Vec3, sample: Vec3): (li: LightInteraction)
    ensures li.directlyEmitted == Zero && |li.scatteredRays| == 1
    ensures li.scatteredRays[0].ray == Ray(hitNormal.origin, Add(hitNormal.direction, sample))
    ensures li.scatteredRays[0].attenuation == albedo
  {
    var target := Add(Add(hitNormal.origin, hitNormal.direction), sample);
    LightInteraction(Zero, [ScatteredRay(Ray(hitNormal.origin, Sub(target, hitNormal.origin)), albedo)])
  }

  /** The direction a metal surface sends a ray in: the mirror direction
      perturbed by `fuzz` times the sample. */
  function MetalDirection(ray: Ray, hitNormal: Ray, fuzz: real, sample: Vec3): Vec3 {
    Add(Reflect(ray.direction, hitNormal.direction), ScalarMul(fuzz, sample))
  }

  /** Metal keeps its one candidate ray exactly when the perturbed
      reflection leaves the surface (positive dot product with the normal),
      and absorbs the light otherwise. */
  function InteractWithMetal(ray: Ray, hitNormal: Ray, albedo: Vec3, fuzz: real, sample: Vec3): (li: LightInteraction)
    ensures li.directlyEmitted == Zero && |li.scatteredRays| <= 1
    ensures |li.scatteredRays| == 1 <==> Dot(MetalDirection(ray, hitNormal, fuzz, sample), hitNormal.direction) > 0.0
    ensures |li.scatteredRays| == 1 ==>
              li.scatteredRays[0] == ScatteredRay(Ray(hitNormal.origin, MetalDirection(ray, hitNormal, fuzz, sample)), albedo)
  {
    var candidate := ScatteredRay(Ray(hitNormal.origin, MetalDirection(ray, hitNormal, fuzz, sample)), albedo);
    var kept := if Dot(candidate.ray.direction, hitNormal.direction) > 0.0 then [candidate] else [];
    LightInteraction(Zero, kept)
  }

  /** A perfect mirror (`fuzz` 0) with normal (0, 1, 0) sends a downward
      ray (a, b, c), b < 0, back up as (a, -b, c). */
  lemma MetalMirror(origin: Vec3, albedo: Vec3, sample: Vec3, a: real, b: real, c: real)
    requires b < 0.0
    ensures InteractWithMetal(Ray(origin, Vec3(a, b, c)), Ray(origin, Vec3(0.0, 1.0, 0.0)), albedo, 0.0, sample).scatteredRays
            == [ScatteredRay(Ray(origin, Vec3(a, -b, c)), albedo)]
  {
    var ray := Ray(origin, Vec3(a, b, c));
    var hitNormal := Ray(origin, Vec3(0.0, 1.0, 0.0));
    assert Reflect(ray.direction, hitNormal.direction) == Vec3(a, -b, c);
    assert MetalDirection(ray, hitNormal, 0.0, sample) == Vec3(a, -b, c);
  }

  /** The quantity under the square root in Snell's law, for the unit
      inbound direction and the (outward) normal `normal`. */
  function RefractDiscriminant(inbound: Vec3, normal: Vec3, niOverNt: real, unit: Vec3 -> Vec3): real {
    var dt := Dot(unit(inbound), normal);
    1.0 - niOverNt * niOverNt * (1.0 - dt * dt)
  }

  /** Refraction through a surface; no refracted ray unless the
      discriminant is strictly positive (total internal reflection
      includes the discriminant being exactly zero). */
  function Refract(inbound: Vec3, normal: Vec3, niOverNt: real, sqrt: real -> real, unit: Vec3 -> Vec3): (r: Option<Vec3>)
    ensures r.None? <==> RefractDiscriminant(inbound, normal, niOverNt, unit) <= 0.0
  {
    var inboundUnit := unit(inbound);
    var dt := Dot(inboundUnit, normal);
    var discriminant := 1.0 - niOverNt * niOverNt * (1.0 - dt * dt);
    if discriminant > 0.0 then
      Some(Sub(ScalarMul(niOverNt, Sub(inboundUnit, Scale(normal, dt))), Scale(normal, sqrt(discriminant))))
    else
      None
  }

  function Pow5(x: real): real {
    x * x * x * x * x
  }

  /** Reflectance at normal incidence, `((1 - n) / (1 + n))^2`. */
  function R0(refractiveIndex: real): real
    requires 1.0 + refractiveIndex != 0.0
  {
    var r := (1.0 - refractiveIndex) / (1.0 + refractiveIndex);
    r * r
  }

  /** Schlick's approximation of the Fresnel reflectance. */
  function Schlick(cosine: real, refractiveIndex: real): real
    requires 1.0 + refractiveIndex != 0.0
  {
    var r0 := R0(refractiveIndex);
    r0 + (1.0 - r0) * Pow5(1.0 - cosine)
  }

  /** For a positive index the normal-incidence reflectance lies in [0, 1). */
  lemma R0Bounds(refractiveIndex: real)
    requires refractiveIndex > 0.0
    ensures 0.0 <= R0(refractiveIndex) < 1.0
  {
    var r := (1.0 - refractiveIndex) / (1.0 + refractiveIndex);
    assert r * (1.0 + refractiveIndex) == 1.0 - refractiveIndex;
    assert -1.0 < r < 1.0;
    SquareBelowOne(r);
  }

  lemma SquareBelowOne(r: real)
    requires -1.0 < r < 1.0
    ensures 0.0 <= r * r < 1.0
  {
    if r >= 0.0 {
      assert r * r <= r * 1.0;
    } else {
      assert r * r <= (-r) * 1.0;
    }
  }

  /** For a positive index and a cosine in [0, 1], Schlick's reflectance
      lies between the normal-incidence value and 1. */
  lemma SchlickBounds(cosine: real, refractiveIndex: real)
    requires refractiveIndex > 0.0 && 0.0 <= cosine <= 1.0
    ensures R0(refractiveIndex) <= Schlick(cosine, refractiveIndex) <= 1.0
  {
    var r0 := R0(refractiveIndex);
    R0Bounds(refractiveIndex);
    var p := Pow5(1.0 - cosine);
    Pow5Bounds(1.0 - cosine);
    FactorBounds(1.0 - r0, p);
    assert Schlick(cosine, refractiveIndex) == r0 + (1.0 - r0) * p;
  }

  lemma Pow5Bounds(x: real)
    requires 0.0 <= x <= 1.0
    ensures 0.0 <= Pow5(x) <= 1.0
  {
    FactorBounds(x, x);
    FactorBounds(x * x, x);
    FactorBounds(x * x * x, x);
    FactorBounds(x * x * x * x, x);
  }

  lemma FactorBounds(a: real, p: real)
    requires 0.0 <= a && 0.0 <= p <= 1.0
    ensures 0.0 <= a * p <= a
  {
    assert a * p <= a * 1.0;
  }

  lemma SchlickAtNormalIncidence(refractiveIndex: real)
    requires 1.0 + refractiveIndex != 0.0
    ensures Schlick(1.0, refractiveIndex) == R0(refractiveIndex)
  {
  }

  lemma SchlickAtGrazingIncidence(refractiveIndex: real)
    requires 1.0 + refractiveIndex != 0.0
    ensures Schlick(0.0, refractiveIndex) == 1.0
  {
  }

  /** Whether the ray leaves the surface (direction and normal agree), the
      oriented normal, the index ratio and the incidence cosine a
      dielectric works with. */
  datatype DielectricFrame = DielectricFrame(exiting: bool, outwardNormal: Vec3, niOverNt: real, cosine: real)

  function DielectricFrameOf(ray: Ray, hitNormal: Ray, refractiveIndex: real, unit: Vec3 -> Vec3, length: Vec3 -> real): (f: DielectricFrame)
    requires refractiveIndex != 0.0 && length(ray.direction) != 0.0
    ensures f.exiting <==> Dot(unit(ray.direction), unit(hitNormal.direction)) > 0.0
    ensures f.outwardNormal == if f.exiting then Neg(unit(hitNormal.direction)) else unit(hitNormal.direction)
    ensures f.niOverNt == if f.exiting then refractiveIndex else 1.0 / refractiveIndex
    ensures f.cosine * length(ray.direction) ==
            (if f.exiting then refractiveIndex else -1.0) * Dot(ray.direction, unit(hitNormal.direction))
  {
    var normalUnit := unit(hitNormal.direction);
    if Dot(unit(ray.direction), normalUnit) > 0.0 then
      DielectricFrame(true, Neg(normalUnit), refractiveIndex,
                      refractiveIndex * Dot(ray.direction, normalUnit) / length(ray.direction))
    else
      DielectricFrame(false, normalUnit, 1.0 / refractiveIndex,
                      -(Dot(ray.direction, normalUnit) / length(ray.direction)))
  }

  /** With a positive index and a `unit` that rescales the ray direction
      by its length, the oriented normal faces the ray, and the cosine
      handed to Schlick is the cosine between the ray and that normal,
      weighted by the index when the ray leaves the surface: never
      negative. */
  lemma DielectricFrameFacesRay(ray: Ray, hitNormal: Ray, refractiveIndex: real, unit: Vec3 -> Vec3, length: Vec3 -> real)
    requires refractiveIndex > 0.0 && length(ray.direction) > 0.0
    requires unit(ray.direction) == Scale(ray.direction, 1.0 / length(ray.direction))
    ensures var f := DielectricFrameOf(ray, hitNormal, refractiveIndex, unit, length);
            Dot(unit(ray.direction), f.outwardNormal) <= 0.0 &&
            f.cosine == (if f.exiting then refractiveIndex else 1.0) * -Dot(unit(ray.direction), f.outwardNormal) &&
            f.cosine >= 0.0
  {
    var d := ray.direction;
    var n := unit(hitNormal.direction);
    var len := length(d);
    var f := DielectricFrameOf(ray, hitNormal, refractiveIndex, unit, length);
    DotScale(d, 1.0 / len, n);
    var c := Dot(unit(d), n);
    assert c == Dot(d, n) / len;
    DotScale(n, -1.0, unit(d));
    DotSymmetric(Scale(n, -1.0), unit(d));
    DotSymmetric(n, unit(d));
    assert Neg(n) == Scale(n, -1.0);
    if c > 0.0 {
      assert Dot(unit(d), f.outwardNormal) == -c;
      assert f.cosine == refractiveIndex * c;
      ProductPositive(refractiveIndex, c);
    } else {
      assert f.cosine == -c;
    }
  }

  lemma ProductPositive(a: real, b: real)
    requires a > 0.0 && b > 0.0
    ensures a * b > 0.0
  {
  }

  /** A dielectric always sends exactly one colourless ray from the hit
      point: the reflected direction when refraction is impossible or when
      the draw `u` does not exceed Schlick's reflectance, the refracted one
      otherwise. */
  function InteractWithDielectric(ray: Ray, hitNormal: Ray, refractiveIndex: real, u: real,
                                  sqrt: real -> real, unit: Vec3 -> Vec3, length: Vec3 -> real): (li: LightInteraction)
    requires refractiveIndex != 0.0 && 1.0 + refractiveIndex != 0.0 && length(ray.direction) != 0.0
    ensures li.directlyEmitted == Zero && |li.scatteredRays| == 1
    ensures li.scatteredRays[0].ray.origin == hitNormal.origin
    ensures li.scatteredRays[0].attenuation == Ones
    ensures var f := DielectricFrameOf(ray, hitNormal, refractiveIndex, unit, length);
            var refracted := Refract(ray.direction, f.outwardNormal, f.niOverNt, sqrt, unit);
            li.scatteredRays[0].ray.direction ==
              if refracted.Some? && Schlick(f.cosine, refractiveIndex) < u then refracted.value
              else Reflect(ray.direction, hitNormal.direction)
  {
    var reflected := Reflect(ray.direction, hitNormal.direction);
    var f := DielectricFrameOf(ray, hitNormal, refractiveIndex, unit, length);
    var direction :=
      match Refract(ray.direction, f.outwardNormal, f.niOverNt, sqrt, unit)
      case Some(refracted) => if Schlick(f.cosine, refractiveIndex) < u then refracted else reflected
      case None => reflected;
    LightInteraction(Zero, [ScatteredRay(Ray(hitNormal.origin, direction), Ones)])
  }

  /** When the discriminant is not positive (including exactly zero) the
      dielectric reflects, whatever the draw. */
  lemma DielectricTotalInternalReflection(ray: Ray, hitNormal: Ray, refractiveIndex: real, u: real,
                                          sqrt: real -> real, unit: Vec3 -> Vec3, length: Vec3 -> real)
    requires refractiveIndex != 0.0 && 1.0 + refractiveIndex != 0.0 && length(ray.direction) != 0.0
    requires var f := DielectricFrameOf(ray, hitNormal, refractiveIndex, unit, length);
             RefractDiscriminant(ray.direction, f.outwardNormal, f.niOverNt, unit) <= 0.0
    ensures InteractWithDielectric(ray, hitNormal, refractiveIndex, u, sqrt, unit, length).scatteredRays[0].ray.direction
            == Reflect(ray.direction, hitNormal.direction)
  {
  }

  /** Glass of index 1 does not bend light: unless the ray grazes the
      surface, and provided `sqrt` is exact at the one square it is applied
      to, a draw above Schlick's value sends the ray on in its own (unit)
      direction. A draw at or below that value reflects it instead. */
  lemma DielectricIndexOneStraightThrough(ray: Ray, hitNormal: Ray, u: real,
                                          sqrt: real -> real, unit: Vec3 -> Vec3, length: Vec3 -> real)
    requires length(ray.direction) != 0.0
    requires Dot(unit(ray.direction), unit(hitNormal.direction)) != 0.0
    requires ExactAtSquare(sqrt, Dot(unit(ray.direction), unit(hitNormal.direction)))
    requires Schlick(DielectricFrameOf(ray, hitNormal, 1.0, unit, length).cosine, 1.0) < u
    ensures InteractWithDielectric(ray, hitNormal, 1.0, u, sqrt, unit, length).scatteredRays[0].ray.direction
            == unit(ray.direction)
  {
    IndexOneRefracts(ray, hitNormal, sqrt, unit, length);
  }

  /** At index 1 refraction is possible and leaves the unit direction as it is. */
  lemma IndexOneRefracts(ray: Ray, hitNormal: Ray, sqrt: real -> real, unit: Vec3 -> Vec3, length: Vec3 -> real)
    requires length(ray.direction) != 0.0
    requires Dot(unit(ray.direction), unit(hitNormal.direction)) != 0.0
    requires ExactAtSquare(sqrt, Dot(unit(ray.direction), unit(hitNormal.direction)))
    ensures var f := DielectricFrameOf(ray, hitNormal, 1.0, unit, length);
            f.niOverNt == 1.0 &&
            Refract(ray.direction, f.outwardNormal, 1.0, sqrt, unit) == Some(unit(ray.direction))
  {
    var d := Dot(unit(ray.direction), unit(hitNormal.direction));
    var f := DielectricFrameOf(ray, hitNormal, 1.0, unit, length);
    var dt := Dot(unit(ray.direction), f.outwardNormal);
    IndexOneOrientedCosine(ray, hitNormal, unit, length);
    if d > 0.0 {
      ExactAtSquareNegated(sqrt, d);
    }
    RefractIndexOne(ray.direction, f.outwardNormal, dt, sqrt, unit);
  }

  /** At index 1 the oriented normal makes a negative cosine with the ray. */
  lemma IndexOneOrientedCosine(ray: Ray, hitNormal: Ray, unit: Vec3 -> Vec3, length: Vec3 -> real)
    requires length(ray.direction) != 0.0
    requires Dot(unit(ray.direction), unit(hitNormal.direction)) != 0.0
    ensures var d := Dot(unit(ray.direction), unit(hitNormal.direction));
            var f := DielectricFrameOf(ray, hitNormal, 1.0, unit, length);
            f.niOverNt == 1.0 &&
            Dot(unit(ray.direction), f.outwardNormal) == if d > 0.0 then -d else d
  {
    var nu := unit(hitNormal.direction);
    DotScale(nu, -1.0, unit(ray.direction));
    DotSymmetric(Scale(nu, -1.0), unit(ray.direction));
    DotSymmetric(nu, unit(ray.direction));
    assert Neg(nu) == Scale(nu, -1.0);
  }

  /** `sqrt` returns `|t|` at `t * t`. */
  predicate ExactAtSquare(sqrt: real -> real, t: real) {
    sqrt(t * t) == if t >= 0.0 then t else -t
  }

  lemma ExactAtSquareNegated(sqrt: real -> real, t: real)
    requires ExactAtSquare(sqrt, t)
    ensures ExactAtSquare(sqrt, -t)
  {
    assert (-t) * (-t) == t * t;
  }

  /** With index ratio 1 and an exact square root, refraction returns the
      unit inbound direction unchanged. */
  lemma RefractIndexOne(inbound: Vec3, normal: Vec3, dt: real, sqrt: real -> real, unit: Vec3 -> Vec3)
    requires dt == Dot(unit(inbound), normal) && dt < 0.0
    requires ExactAtSquare(sqrt, dt)
    ensures Refract(inbound, normal, 1.0, sqrt, unit) == Some(unit(inbound))
  {
    var iu := unit(inbound);
    var discriminant := 1.0 - 1.0 * 1.0 * (1.0 - dt * dt);
    assert discriminant == dt * dt;
    ProductOfNegatives(dt, dt, discriminant);
    assert sqrt(discriminant) == -dt;
    var tangential := Sub(iu, Scale(normal, dt));
    assert Sub(ScalarMul(1.0, tangential), Scale(normal, -dt)) == iu;
    assert RefractDiscriminant(inbound, normal, 1.0, unit) == discriminant;
    assert Refract(inbound, normal, 1.0, sqrt, unit).Some?;
    assert Refract(inbound, normal, 1.0, sqrt, unit) == Some(Sub(ScalarMul(1.0, tangential), Scale(normal, sqrt(discriminant))));
  }

  lemma ProductOfNegatives(a: real, b: real, p: real)
    requires a < 0.0 && b < 0.0 && p == a * b
    ensures p > 0.0
  {
  }

  /** `Material::interact`: the variant decides the interaction. */
  function Interact(m: Material, ray: Ray, hitNormal: Ray, sample: Vec3, u: real,
                    sqrt: real -> real, unit: Vec3 -> Vec3, length: Vec3 -> real): (li: LightInteraction)
    requires m.Dielectric? ==>
               m.refractiveIndex != 0.0 && 1.0 + m.refractiveIndex != 0.0 && length(ray.direction) != 0.0
    ensures m.Normal? ==> li == LightInteraction(Map(hitNormal.direction, c => c + 1.0), [])
    ensures !m.Normal? ==> li.directlyEmitted == Zero
    ensures |li.scatteredRays| <= 1
    ensures (m.Lambertian? || m.Dielectric?) ==> |li.scatteredRays| == 1
    ensures forall k :: 0 <= k < |li.scatteredRays| ==> li.scatteredRays[k].ray.origin == hitNormal.origin
    ensures forall k :: 0 <= k < |li.scatteredRays| ==>
              li.scatteredRays[k].attenuation == (if m.Dielectric? then Ones else m.albedo)
  {
    match m
    case Normal => LightInteraction(Map(hitNormal.direction, c => c + 1.0), [])
    case Lambertian(albedo) => InteractWithLambertian(hitNormal, albedo, sample)
    case Metal(albedo, fuzz) => InteractWithMetal(ray, hitNormal, albedo, fuzz, sample)
    case Dielectric(refractiveIndex) => InteractWithDielectric(ray, hitNormal, refractiveIndex, u, sqrt, unit, length)
  }

  /** The candidate point one draw of three uniform numbers gives:
      `2 * draw - (1, 1, 1)`. */
  function Candidate(draw: Vec3): Vec3 {
    Sub(ScalarMul(2.0, draw), Ones)
  }

  /** A draw in [0, 1) per component gives a candidate in the cube
      [-1, 1) per component. */
  lemma CandidateInCube(draw: Vec3)
    requires 0.0 <= draw.x < 1.0 && 0.0 <= draw.y < 1.0 && 0.0 <= draw.z < 1.0
    ensures var c := Candidate(draw);
            -1.0 <= c.x < 1.0 && -1.0 <= c.y < 1.0 && -1.0 <= c.z < 1.0
  {
  }

  /** Rejection sampling: draws are tried in order until a candidate lies
      strictly inside the unit sphere. `used` counts the draws consumed;
      `None` means the supplied draws ran out before one was accepted. */
  method RandomInUnitSphere(draws: seq<Vec3>) returns (p: Option<Vec3>, used: nat)
    ensures used <= |draws|
    ensures p.Some? ==> 0 < used && p.value == Candidate(draws[used - 1]) && SquaredLength(p.value) < 1.0
    ensures p.None? ==> used == |draws|
    ensures forall k :: 0 <= k < used && !(p.Some? && k == used - 1) ==> SquaredLength(Candidate(draws[k])) >= 1.0
  {
    used := 0;
    while used < |draws|
      invariant used <= |draws|
      invariant forall k :: 0 <= k < used ==> SquaredLength(Candidate(draws[k])) >= 1.0
    {
      var candidate := Candidate(draws[used]);
      used := used + 1;
      if SquaredLength(candidate) < 1.0 {
        return Some(candidate), used;
      }
    }
    p := None;
  }
}
