/** The tracer: the depth-bounded recursive colour integrator, the sky,
    the pixel jitter, the list of work items and the loop that renders
    them into the image accumulator, one running average per pixel.

    The random draws are supplied: the jitter of pixel `(i, j)` at sample
    `s` is `jitter(i, j, s)`, and the draws a material makes are inside the
    `interact` parameter. Work items run one after another, in list order. */
module Tracer {
  import opened Vectors
  import opened Rays
  import opened Options
  import opened Materials
  import opened Geometry
  import opened Cameras
  import opened PixelGrid
  import opened Images

  /** The smallest ray parameter a hit may have. */
  const Epsilon: real := 0.0001

  /** The largest finite double, `std::f64::MAX`, as an exact number. */
  const FarT: real := 179769313486231570814527423731704356798070567525844996598917476803157260780028538760589558632766878171540458953514382464234321326889464182768467546703537516986049910576551282076245490090389328944075868508455133942304583236903222948165808559332123348274797826204144723168738177180919299881250404026184124858368.0

  /** The bounce limit of each primary ray. */
  const MaxDepth: nat := 50

  /** What the integrator needs besides the ray: the `Hittable` it is
      given, with `hit(ray, minT, maxT)` as its one method, normalisation,
      and the material interaction with its draws. */
  datatype Tracing = Tracing(hit: (Ray, real, real) -> Option<HitRecord>, unit: Vec3 -> Vec3,
                             interact: (Material, Ray, Ray) -> LightInteraction)

  /** `tr` traces against `world`: its hittable is `World::hit`. */
  ghost predicate TracesWorld(tr: Tracing, world: World, sqrt: real -> real) {
    forall ray, minT, maxT :: tr.hit(ray, minT, maxT) == WorldHit(world, ray, minT, maxT, sqrt, tr.unit)
  }

  predicate NonNegative(v: Vec3) {
    v.x >= 0.0 && v.y >= 0.0 && v.z >= 0.0
  }

  /** `interpolate`: `first * factor + second * (1 - factor)`. */
  function Interpolate(first: Vec3, second: Vec3, factor: real): Vec3 {
    Add(Scale(first, factor), Scale(second, 1.0 - factor))
  }

  /** One component of `interpolate`. */
  function Lerp(a: real, b: real, f: real): real {
    a * f + b * (1.0 - f)
  }

  lemma InterpolateAtOne(first: Vec3, second: Vec3)
    ensures Interpolate(first, second, 1.0) == first
  {
  }

  lemma InterpolateAtZero(first: Vec3, second: Vec3)
    ensures Interpolate(first, second, 0.0) == second
  {
  }

  /** For a factor in [0, 1] each component lies between the two
      end points' components. */
  lemma InterpolateBetween(first: Vec3, second: Vec3, factor: real)
    requires 0.0 <= factor <= 1.0
    requires second.x <= first.x && second.y <= first.y && second.z <= first.z
    ensures var r := Interpolate(first, second, factor);
            second.x <= r.x <= first.x && second.y <= r.y <= first.y && second.z <= r.z <= first.z
  {
    var r := Interpolate(first, second, factor);
    assert r == Vec3(Lerp(first.x, second.x, factor), Lerp(first.y, second.y, factor), Lerp(first.z, second.z, factor));
    BetweenComponent(first.x, second.x, factor);
    BetweenComponent(first.y, second.y, factor);
    BetweenComponent(first.z, second.z, factor);
  }

  lemma BetweenComponent(a: real, b: real, f: real)
    requires 0.0 <= f <= 1.0 && b <= a
    ensures b <= Lerp(a, b, f) <= a
  {
    var c := Lerp(a, b, f);
    var d := a - b;
    assert c == b + d * f;
    ProductNonNegative(d, f);
    ProductNonNegative(d, 1.0 - f);
    assert d - d * f == d * (1.0 - f);
  }

  lemma ProductNonNegative(a: real, b: real)
    requires 0.0 <= a && 0.0 <= b
    ensures 0.0 <= a * b
  {
  }

  const SkyBlue: Vec3 := Vec3(0.5, 0.7, 1.0)

  /** `sky_color`: white straight up, the sky blue straight down, and a
      blend of the two in between. */
  function SkyColor(ray: Ray, unit: Vec3 -> Vec3): Vec3 {
    var t := 0.5 * (unit(ray.direction).y + 1.0);
    Interpolate(Ones, SkyBlue, t)
  }

  lemma SkyColorStraightUp(ray: Ray, unit: Vec3 -> Vec3)
    requires unit(ray.direction).y == 1.0
    ensures SkyColor(ray, unit) == Ones
  {
  }

  lemma SkyColorStraightDown(ray: Ray, unit: Vec3 -> Vec3)
    requires unit(ray.direction).y == -1.0
    ensures SkyColor(ray, unit) == SkyBlue
  {
  }

  /** For a unit direction the sky colour lies between sky blue and white. */
  lemma SkyColorRange(ray: Ray, unit: Vec3 -> Vec3)
    requires -1.0 <= unit(ray.direction).y <= 1.0
    ensures var c := SkyColor(ray, unit);
            0.5 <= c.x <= 1.0 && 0.7 <= c.y <= 1.0 && c.z == 1.0
  {
    InterpolateBetween(Ones, SkyBlue, 0.5 * (unit(ray.direction).y + 1.0));
  }

  /** The left fold `fold(init, |a, b| a + b)`. */
  function SumFrom(acc: Vec3, vs: seq<Vec3>): Vec3
    decreases |vs|
  {
    if |vs| == 0 then acc else SumFrom(Add(acc, vs[0]), vs[1..])
  }

  lemma {:induction false} SumFromNonNegative(acc: Vec3, vs: seq<Vec3>)
    requires NonNegative(acc)
    requires forall k :: 0 <= k < |vs| ==> NonNegative(vs[k])
    ensures NonNegative(SumFrom(acc, vs))
    decreases |vs|
  {
    if |vs| > 0 {
      assert forall k :: 0 <= k < |vs[1..]| ==> vs[1..][k] == vs[k + 1];
      SumFromNonNegative(Add(acc, vs[0]), vs[1..]);
    }
  }

  lemma SumFromSingle(acc: Vec3, v: Vec3)
    ensures SumFrom(acc, [v]) == Add(acc, v)
  {
    assert [v][1..] == [];
  }

  /** `color`: the sky when nothing is hit; black when the bounce budget is
      spent (the empty interaction); otherwise what the surface emits plus
      each scattered ray's colour weighted by its attenuation. Rays after
      the first bounce use `Epsilon` and `FarT` as their range. */
  function Color(ray: Ray, tr: Tracing, minT: real, maxT: real, maxDepth: nat): Vec3
    decreases maxDepth, 1
  {
    match tr.hit(ray, minT, maxT)
    case None => SkyColor(ray, tr.unit)
    case Some(hit) =>
      if maxDepth == 0 then
        SumFrom(Zero, [])
      else
        var li := tr.interact(hit.material, ray, hit.normal);
        SumFrom(li.directlyEmitted, Contributions(li.scatteredRays, tr, maxDepth))
  }

  /** Each scattered ray's attenuation times the colour it brings back,
      traced with one bounce less than `maxDepth`. */
  function Contributions(rays: seq<ScatteredRay>, tr: Tracing, maxDepth: nat): (cs: seq<Vec3>)
    requires maxDepth > 0
    ensures |cs| == |rays|
    decreases maxDepth, 0
  {
    seq(|rays|, k requires 0 <= k < |rays| => Mul(rays[k].attenuation, Color(rays[k].ray, tr, Epsilon, FarT, maxDepth - 1)))
  }

  lemma ColorOnMiss(ray: Ray, tr: Tracing, minT: real, maxT: real, maxDepth: nat)
    requires tr.hit(ray, minT, maxT).None?
    ensures Color(ray, tr, minT, maxT, maxDepth) == SkyColor(ray, tr.unit)
  {
  }

  /** Against a world of spheres, a ray that misses every sphere shows the
      sky; in particular every ray does in an empty world. */
  lemma ColorOfWorldMiss(ray: Ray, tr: Tracing, world: World, sqrt: real -> real,
                         minT: real, maxT: real, maxDepth: nat)
    requires TracesWorld(tr, world, sqrt)
    requires forall i :: 0 <= i < |world.objects| ==> SphereHit(world.objects[i], ray, minT, maxT, sqrt, tr.unit).None?
    ensures Color(ray, tr, minT, maxT, maxDepth) == SkyColor(ray, tr.unit)
  {
    assert tr.hit(ray, minT, maxT) == WorldHit(world, ray, minT, maxT, sqrt, tr.unit);
  }

  /** Against a world of spheres, a hit ray with bounces left asks the
      material of the nearest sphere hit, at that hit's normal. */
  lemma ColorOfWorldHit(ray: Ray, tr: Tracing, world: World, sqrt: real -> real,
                        minT: real, maxT: real, maxDepth: nat)
    requires TracesWorld(tr, world, sqrt) && maxDepth > 0
    requires exists i :: 0 <= i < |world.objects| && SphereHit(world.objects[i], ray, minT, maxT, sqrt, tr.unit).Some?
    ensures var hit := WorldHit(world, ray, minT, maxT, sqrt, tr.unit);
            hit.Some? &&
            var li := tr.interact(hit.value.material, ray, hit.value.normal);
            Color(ray, tr, minT, maxT, maxDepth) == SumFrom(li.directlyEmitted, Contributions(li.scatteredRays, tr, maxDepth))
  {
    assert tr.hit(ray, minT, maxT) == WorldHit(world, ray, minT, maxT, sqrt, tr.unit);
  }

  lemma ColorAtDepthZero(ray: Ray, tr: Tracing, minT: real, maxT: real)
    requires tr.hit(ray, minT, maxT).Some?
    ensures Color(ray, tr, minT, maxT, 0) == Zero
  {
  }

  /** A hit whose interaction scatters nothing shows exactly what the
      surface emits. */
  lemma ColorOfEmitter(ray: Ray, tr: Tracing, minT: real, maxT: real, maxDepth: nat)
    requires maxDepth > 0
    requires var hit := tr.hit(ray, minT, maxT);
             hit.Some? && tr.interact(hit.value.material, ray, hit.value.normal).scatteredRays == []
    ensures var hit := tr.hit(ray, minT, maxT).value;
            Color(ray, tr, minT, maxT, maxDepth) == tr.interact(hit.material, ray, hit.normal).directlyEmitted
  {
  }

  /** A hit with one scattered ray: the emitted light plus the attenuated
      colour of that ray, traced with one bounce less. */
  lemma ColorOfOneBounce(ray: Ray, tr: Tracing, minT: real, maxT: real, maxDepth: nat)
    requires maxDepth > 0
    requires var hit := tr.hit(ray, minT, maxT);
             hit.Some? && |tr.interact(hit.value.material, ray, hit.value.normal).scatteredRays| == 1
    ensures var hit := tr.hit(ray, minT, maxT).value;
            var li := tr.interact(hit.material, ray, hit.normal);
            Color(ray, tr, minT, maxT, maxDepth) ==
              Add(li.directlyEmitted,
                  Mul(li.scatteredRays[0].attenuation, Color(li.scatteredRays[0].ray, tr, Epsilon, FarT, maxDepth - 1)))
  {
    var hit := tr.hit(ray, minT, maxT).value;
    var li := tr.interact(hit.material, ray, hit.normal);
    var cs := Contributions(li.scatteredRays, tr, maxDepth);
    assert cs == [cs[0]];
    SumFromSingle(li.directlyEmitted, cs[0]);
  }

  predicate NonNegativeInteraction(li: LightInteraction) {
    NonNegative(li.directlyEmitted) &&
    forall k :: 0 <= k < |li.scatteredRays| ==> NonNegative(li.scatteredRays[k].attenuation)
  }

  /** The interaction `Color` asks for at every hit `tr.hit` reports, on
      the ray that made the hit, has non-negative emission and attenuation. */
  ghost predicate HitInteractionsNonNegative(tr: Tracing) {
    forall ray, minT, maxT :: tr.hit(ray, minT, maxT).Some? ==>
      NonNegativeInteraction(tr.interact(tr.hit(ray, minT, maxT).value.material, ray,
                                         tr.hit(ray, minT, maxT).value.normal))
  }

  /** With non-negative emission and attenuation at every hit, and a `unit`
      whose `y` component stays in [-1, 1], every colour is non-negative. */
  lemma {:induction false} ColorNonNegative(ray: Ray, tr: Tracing, minT: real, maxT: real, maxDepth: nat)
    requires forall v :: -1.0 <= tr.unit(v).y <= 1.0
    requires HitInteractionsNonNegative(tr)
    ensures NonNegative(Color(ray, tr, minT, maxT, maxDepth))
    decreases maxDepth, 1
  {
    match tr.hit(ray, minT, maxT)
    case None =>
      SkyColorRange(ray, tr.unit);
    case Some(hit) =>
      if maxDepth > 0 {
        var li := tr.interact(hit.material, ray, hit.normal);
        assert NonNegativeInteraction(li);
        ContributionsNonNegative(li.scatteredRays, tr, maxDepth);
        SumFromNonNegative(li.directlyEmitted, Contributions(li.scatteredRays, tr, maxDepth));
      }
  }

  lemma {:induction false} ContributionsNonNegative(rays: seq<ScatteredRay>, tr: Tracing, maxDepth: nat)
    requires maxDepth > 0
    requires forall v :: -1.0 <= tr.unit(v).y <= 1.0
    requires HitInteractionsNonNegative(tr)
    requires forall k :: 0 <= k < |rays| ==> NonNegative(rays[k].attenuation)
    ensures forall k :: 0 <= k < |rays| ==> NonNegative(Contributions(rays, tr, maxDepth)[k])
    decreases maxDepth, 0
  {
    var cs := Contributions(rays, tr, maxDepth);
    forall k | 0 <= k < |rays|
      ensures NonNegative(cs[k])
    {
      var c := Color(rays[k].ray, tr, Epsilon, FarT, maxDepth - 1);
      ColorNonNegative(rays[k].ray, tr, Epsilon, FarT, maxDepth - 1);
      MulNonNegative(rays[k].attenuation, c);
      assert cs[k] == Mul(rays[k].attenuation, c);
    }
  }

  lemma MulNonNegative(a: Vec3, b: Vec3)
    requires NonNegative(a) && NonNegative(b)
    ensures NonNegative(Mul(a, b))
  {
  }

  /** One call of `Materials.Interact` is non-negative for a non-negative
      albedo and, on a `Normal` surface, a normal whose components are at
      least -1. */
  lemma InteractNonNegative(m: Material, ray: Ray, hitNormal: Ray, sample: Vec3, u: real,
                            sqrt: real -> real, unit: Vec3 -> Vec3, length: Vec3 -> real)
    requires m.Dielectric? ==>
               m.refractiveIndex != 0.0 && 1.0 + m.refractiveIndex != 0.0 && length(ray.direction) != 0.0
    requires (m.Lambertian? || m.Metal?) ==> NonNegative(m.albedo)
    requires m.Normal? ==>
               hitNormal.direction.x >= -1.0 && hitNormal.direction.y >= -1.0 && hitNormal.direction.z >= -1.0
    ensures NonNegativeInteraction(Interact(m, ray, hitNormal, sample, u, sqrt, unit, length))
  {
  }

  /** Every component of every normalised vector lies in [-1, 1], as it
      does for a unit vector. */
  ghost predicate UnitBounded(unit: Vec3 -> Vec3) {
    forall v :: -1.0 <= unit(v).x <= 1.0 && -1.0 <= unit(v).y <= 1.0 && -1.0 <= unit(v).z <= 1.0
  }

  /** What `InteractNonNegative` asks of a sphere's material: a
      non-negative albedo, and a refractive index that neither it nor its
      inverse turns into a division by zero. */
  predicate RenderableMaterial(m: Material) {
    ((m.Lambertian? || m.Metal?) ==> NonNegative(m.albedo)) &&
    (m.Dielectric? ==> m.refractiveIndex != 0.0 && 1.0 + m.refractiveIndex != 0.0)
  }

  /** `tr.interact` is `Materials.Interact` wherever that is defined, with
      the draws a fixed function of the material, the ray and the normal. */
  ghost predicate InteractsAsMaterials(tr: Tracing, sample: (Material, Ray, Ray) -> Vec3,
                                       u: (Material, Ray, Ray) -> real,
                                       sqrt: real -> real, length: Vec3 -> real) {
    forall m: Material, r: Ray, n: Ray ::
      (m.Dielectric? ==> m.refractiveIndex != 0.0 && 1.0 + m.refractiveIndex != 0.0 && length(r.direction) != 0.0) ==>
        tr.interact(m, r, n) == Interact(m, r, n, sample(m, r, n), u(m, r, n), sqrt, tr.unit, length)
  }

  /** The interaction at one hit of a world of renderable spheres is
      non-negative: the hit's normal is a normalised vector, and a hit
      needs a ray of non-zero length. */
  lemma WorldHitInteractionNonNegative(ray: Ray, minT: real, maxT: real, tr: Tracing, world: World,
                                       sqrt: real -> real, length: Vec3 -> real,
                                       sample: (Material, Ray, Ray) -> Vec3, u: (Material, Ray, Ray) -> real)
    requires TracesWorld(tr, world, sqrt) && UnitBounded(tr.unit)
    requires forall v :: Dot(v, v) != 0.0 ==> length(v) != 0.0
    requires forall i :: 0 <= i < |world.objects| ==> RenderableMaterial(world.objects[i].material)
    requires InteractsAsMaterials(tr, sample, u, sqrt, length)
    requires tr.hit(ray, minT, maxT).Some?
    ensures NonNegativeInteraction(tr.interact(tr.hit(ray, minT, maxT).value.material, ray,
                                               tr.hit(ray, minT, maxT).value.normal))
  {
    var h := tr.hit(ray, minT, maxT).value;
    assert Some(h) == WorldHit(world, ray, minT, maxT, sqrt, tr.unit);
    var i :| 0 <= i < |world.objects| && Some(h) == SphereHit(world.objects[i], ray, minT, maxT, sqrt, tr.unit);
    assert Dot(ray.direction, ray.direction) != 0.0;
    assert h.material == world.objects[i].material;
    assert h.normal.direction == tr.unit(Sub(h.normal.origin, world.objects[i].center));
    InteractNonNegative(h.material, ray, h.normal, sample(h.material, ray, h.normal), u(h.material, ray, h.normal),
                        sqrt, tr.unit, length);
  }

  /** The colour of every ray through a world of spheres with non-negative
      albedos, rendered with `Materials.Interact` and a normalisation that
      keeps components in [-1, 1], is non-negative. */
  lemma WorldColorNonNegative(ray: Ray, minT: real, maxT: real, maxDepth: nat, tr: Tracing, world: World,
                              sqrt: real -> real, length: Vec3 -> real,
                              sample: (Material, Ray, Ray) -> Vec3, u: (Material, Ray, Ray) -> real)
    requires TracesWorld(tr, world, sqrt) && UnitBounded(tr.unit)
    requires forall v :: Dot(v, v) != 0.0 ==> length(v) != 0.0
    requires forall i :: 0 <= i < |world.objects| ==> RenderableMaterial(world.objects[i].material)
    requires InteractsAsMaterials(tr, sample, u, sqrt, length)
    ensures NonNegative(Color(ray, tr, minT, maxT, maxDepth))
  {
    forall ray', minT', maxT' | tr.hit(ray', minT', maxT').Some?
      ensures NonNegativeInteraction(tr.interact(tr.hit(ray', minT', maxT').value.material, ray',
                                                 tr.hit(ray', minT', maxT').value.normal))
    {
      WorldHitInteractionNonNegative(ray', minT', maxT', tr, world, sqrt, length, sample, u);
    }
    ColorNonNegative(ray, tr, minT, maxT, maxDepth);
  }

  /** `get_pixel_with_randomness`: the pixel index plus a draw, as a
      fraction of the image size. */
  function GetPixelWithRandomness(i: nat, nx: nat, draw: real): (r: real)
    requires nx > 0
    ensures r * (nx as real) == i as real + draw
    ensures 0.0 <= draw < 1.0 ==> (i as real) / (nx as real) <= r < ((i + 1) as real) / (nx as real)
  {
    (i as real + draw) / (nx as real)
  }

  /** One unit of work: one row of one sample. */
  datatype WorkItem = WorkItem(j: nat, xSize: nat, ySize: nat, sample: nat)

  /** The rows of one sample, from the top row `ySize - 1` down to 0. */
  function RowItems(xSize: nat, ySize: nat, sample: nat): seq<WorkItem> {
    seq(ySize, r requires 0 <= r < ySize => WorkItem(ySize - 1 - r, xSize, ySize, sample))
  }

  /** The work list: every sample in increasing order, each as its rows. */
  function WorkItems(xSize: nat, ySize: nat, samples: int): seq<WorkItem>
    decreases samples
  {
    if samples <= 0 then [] else WorkItems(xSize, ySize, samples - 1) + RowItems(xSize, ySize, samples - 1)
  }

  function SampleCount(samples: int): nat {
    if samples <= 0 then 0 else samples
  }

  /** The position in the work list of the `m`-th row item of sample `q`:
      the list is laid out like a grid `ySize` items wide, one sample per
      grid row. */
  function ItemIndex(q: nat, m: nat, ySize: nat): nat {
    ToIndex(m, q, ySize)
  }

  /** The `m`-th item of sample `q` is row `ySize - 1 - m` of sample `q`,
      and there is nothing else in the list. */
  lemma {:induction false} WorkItemsLayout(xSize: nat, ySize: nat, samples: int)
    ensures |WorkItems(xSize, ySize, samples)| == CellCount(ySize, SampleCount(samples))
    ensures forall q: nat, m: nat :: q < SampleCount(samples) && m < ySize ==>
              ItemIndex(q, m, ySize) < |WorkItems(xSize, ySize, samples)| &&
              WorkItems(xSize, ySize, samples)[ItemIndex(q, m, ySize)] == WorkItem(ySize - 1 - m, xSize, ySize, q)
    decreases samples
  {
    if samples > 0 {
      var n: nat := samples - 1;
      WorkItemsLayout(xSize, ySize, n);
      var prefix := WorkItems(xSize, ySize, n);
      var items := WorkItems(xSize, ySize, samples);
      forall q: nat, m: nat | q < samples && m < ySize
        ensures ItemIndex(q, m, ySize) < |items| &&
                items[ItemIndex(q, m, ySize)] == WorkItem(ySize - 1 - m, xSize, ySize, q)
      {
        if q < n {
          ToIndexInRange(m, q, ySize, n);
        } else {
          assert ItemIndex(q, m, ySize) == |prefix| + m;
        }
      }
    }
  }

  /** The work list holds `samples * ySize` items. */
  lemma WorkItemsCount(xSize: nat, ySize: nat, samples: int)
    ensures |WorkItems(xSize, ySize, samples)| == SampleCount(samples) * ySize
  {
    WorkItemsLayout(xSize, ySize, samples);
    ToIndexIsRowMajor(0, 0, ySize, SampleCount(samples));
  }

  /** Sample-major order: every item of sample `q` comes before every item
      of a later sample. */
  lemma WorkItemsSampleMajor(ySize: nat, q1: nat, m1: nat, q2: nat, m2: nat)
    requires m1 < ySize && m2 < ySize && q1 < q2
    ensures ItemIndex(q1, m1, ySize) < ItemIndex(q2, m2, ySize)
  {
    ToIndexRowOrder(m1, q1, m2, q2, ySize);
  }

  /** Within a sample the rows descend. */
  lemma WorkItemsRowsDescend(xSize: nat, ySize: nat, samples: int, q: nat, m1: nat, m2: nat)
    requires q < SampleCount(samples) && m1 < m2 < ySize
    ensures var items := WorkItems(xSize, ySize, samples);
            ItemIndex(q, m1, ySize) < ItemIndex(q, m2, ySize) < |items| &&
            items[ItemIndex(q, m1, ySize)].j > items[ItemIndex(q, m2, ySize)].j
  {
    WorkItemsLayout(xSize, ySize, samples);
  }

  /** The share of the completion fraction each item adds. The source
      divides 1 by the item count even when there are none; that quotient
      is never used, and 0 stands for it here. */
  function ItemFraction(count: nat): real {
    if count == 0 then 0.0 else 1.0 / (count as real)
  }

  /** The running-average update of `draw_to_image_data_for_pixel`:
      sample 0 overwrites, sample `k > 0` stores `(old * (k - 1) + c) / k`. */
  function RunningAverage(oldAverage: Vec3, colour: Vec3, sample: nat): (r: Vec3)
    ensures sample == 0 ==> r == colour
    ensures sample > 0 ==> Scale(r, sample as real) == Add(Scale(oldAverage, (sample - 1) as real), colour)
  {
    if sample == 0 then colour
    else DivScalar(Add(Scale(oldAverage, (sample - 1) as real), colour), sample as real)
  }

  /** Sample 1 overwrites as well: its weight for the old value is 0. */
  lemma RunningAverageAtOne(oldAverage: Vec3, colour: Vec3)
    ensures RunningAverage(oldAverage, colour, 1) == colour
  {
  }

  /** The scene, the camera and the draws of the whole render. */
  datatype Renderer = Renderer(camera: Camera, tracing: Tracing, jitter: (nat, nat, nat) -> (real, real))

  /** The colour sample `sample` of pixel `(i, j)` contributes. */
  function PixelColour(rd: Renderer, xSize: nat, ySize: nat, i: nat, j: nat, sample: nat): Vec3
    requires xSize > 0 && ySize > 0
  {
    var (du, dv) := rd.jitter(i, j, sample);
    var ray := GetRay(rd.camera, GetPixelWithRandomness(i, xSize, du), GetPixelWithRandomness(j, ySize, dv));
    Color(ray, rd.tracing, Epsilon, FarT, MaxDepth)
  }

  /** The value of pixel `(i, j)`, starting from `init`, after samples
      `0 .. n - 1` were averaged in, in that order. */
  function Accumulated(init: Vec3, rd: Renderer, xSize: nat, ySize: nat, i: nat, j: nat, n: nat): Vec3
    requires xSize > 0 && ySize > 0
  {
    if n == 0 then init
    else RunningAverage(Accumulated(init, rd, xSize, ySize, i, j, n - 1), PixelColour(rd, xSize, ySize, i, j, n - 1), n - 1)
  }

  /** The sum of the colours of samples `lo .. hi - 1` of one pixel. */
  function ColourSum(rd: Renderer, xSize: nat, ySize: nat, i: nat, j: nat, lo: nat, hi: nat): Vec3
    requires xSize > 0 && ySize > 0 && lo <= hi
    decreases hi - lo
  {
    if lo == hi then Zero else Add(ColourSum(rd, xSize, ySize, i, j, lo, hi - 1), PixelColour(rd, xSize, ySize, i, j, hi - 1))
  }

  /** One sample: the pixel is that sample's colour. */
  lemma AccumulatedOneSample(init: Vec3, rd: Renderer, xSize: nat, ySize: nat, i: nat, j: nat)
    requires xSize > 0 && ySize > 0
    ensures Accumulated(init, rd, xSize, ySize, i, j, 1) == PixelColour(rd, xSize, ySize, i, j, 0)
  {
  }

  /** After `n >= 2` samples the pixel is the mean of samples `1 .. n - 1`:
      sample 0 is overwritten by sample 1 and never counted. */
  lemma {:induction false} AccumulatedMean(init: Vec3, rd: Renderer, xSize: nat, ySize: nat, i: nat, j: nat, n: nat)
    requires xSize > 0 && ySize > 0 && n >= 2
    ensures Accumulated(init, rd, xSize, ySize, i, j, n) ==
            DivScalar(ColourSum(rd, xSize, ySize, i, j, 1, n), (n - 1) as real)
    decreases n
  {
    var c := PixelColour(rd, xSize, ySize, i, j, n - 1);
    if n == 2 {
      assert ColourSum(rd, xSize, ySize, i, j, 1, 1) == Zero;
      assert ColourSum(rd, xSize, ySize, i, j, 1, 2) == Add(Zero, c);
    } else {
      AccumulatedMean(init, rd, xSize, ySize, i, j, n - 1);
      var previous := Accumulated(init, rd, xSize, ySize, i, j, n - 1);
      var s := ColourSum(rd, xSize, ySize, i, j, 1, n - 1);
      assert previous == DivScalar(s, (n - 2) as real);
      assert Scale(previous, (n - 2) as real) == s;
      var next := Accumulated(init, rd, xSize, ySize, i, j, n);
      assert next == RunningAverage(previous, c, n - 1);
      assert Scale(next, (n - 1) as real) == Add(s, c);
      assert ColourSum(rd, xSize, ySize, i, j, 1, n) == Add(s, c);
      ScaleInverse(next, Add(s, c), (n - 1) as real);
    }
  }

  lemma ScaleInverse(v: Vec3, w: Vec3, s: real)
    requires s != 0.0 && Scale(v, s) == w
    ensures v == DivScalar(w, s)
  {
  }

  /** `draw_to_image_data_for_pixel`: trace one jittered ray through
      pixel `(i, j)` and fold its colour into that pixel's running
      average; nothing else changes. */
  method DrawPixel(image: ImageData<Vec3>, rd: Renderer, i: nat, j: nat, sample: nat)
    requires image.xSize > 0 && image.ySize > 0
    requires ToIndex(i, j, image.xSize) < image.canvas.Length
    modifies image.canvas
    ensures image.canvas[ToIndex(i, j, image.xSize)] ==
            RunningAverage(old(image.canvas[ToIndex(i, j, image.xSize)]),
                           PixelColour(rd, image.xSize, image.ySize, i, j, sample), sample)
    ensures forall k :: 0 <= k < image.canvas.Length && k != ToIndex(i, j, image.xSize) ==>
              image.canvas[k] == old(image.canvas[k])
    ensures image.canvas[..] ==
            old(image.canvas[..])[ToIndex(i, j, image.xSize) :=
                                  RunningAverage(old(image.canvas[ToIndex(i, j, image.xSize)]),
                                                 PixelColour(rd, image.xSize, image.ySize, i, j, sample), sample)]
    ensures image.complete == old(image.complete)
  {
    var colour := PixelColour(rd, image.xSize, image.ySize, i, j, sample);
    var _ := image.UpdatePixel(i, j, oldAverage => RunningAverage(oldAverage, colour, sample));
  }

  /** `after` is `before` with every cell of row `item.j` advanced by
      sample `item.sample` and every other row as it was. */
  ghost predicate RowDrawn(before: seq<Vec3>, after: seq<Vec3>, rd: Renderer, xSize: nat, ySize: nat, item: WorkItem) {
    |after| == |before| && item.j < ySize && CellsInRange(|before|, xSize, ySize) &&
    (forall x {:trigger after[ToIndex(x, item.j, xSize)]} :: 0 <= x < xSize ==>
       after[ToIndex(x, item.j, xSize)] ==
       RunningAverage(before[ToIndex(x, item.j, xSize)], PixelColour(rd, xSize, ySize, x, item.j, item.sample), item.sample)) &&
    (forall x, y {:trigger after[ToIndex(x, y, xSize)]} :: 0 <= x < xSize && 0 <= y < ySize && y != item.j ==>
       after[ToIndex(x, y, xSize)] == before[ToIndex(x, y, xSize)])
  }

  /** `after` is `before` with the first `i` cells of row `item.j`
      advanced by sample `item.sample` and every other cell as it was. */
  ghost predicate RowPrefixDrawn(before: seq<Vec3>, after: seq<Vec3>, rd: Renderer, xSize: nat, ySize: nat,
                                 item: WorkItem, i: nat) {
    |after| == |before| && item.j < ySize && i <= xSize && CellsInRange(|before|, xSize, ySize) &&
    (forall x {:trigger after[ToIndex(x, item.j, xSize)]} :: 0 <= x < i ==>
       after[ToIndex(x, item.j, xSize)] ==
       RunningAverage(before[ToIndex(x, item.j, xSize)], PixelColour(rd, xSize, ySize, x, item.j, item.sample), item.sample)) &&
    (forall x, y {:trigger after[ToIndex(x, y, xSize)]} :: 0 <= x < xSize && 0 <= y < ySize && (y != item.j || x >= i) ==>
       after[ToIndex(x, y, xSize)] == before[ToIndex(x, y, xSize)])
  }

  /** Drawing pixel `i` of the row extends the drawn prefix by one. */
  lemma RowPrefixStep(before: seq<Vec3>, mid: seq<Vec3>, after: seq<Vec3>, rd: Renderer, xSize: nat, ySize: nat,
                      item: WorkItem, i: nat)
    requires RowPrefixDrawn(before, mid, rd, xSize, ySize, item, i) && i < xSize
    requires ToIndex(i, item.j, xSize) < |mid|
    requires after == mid[ToIndex(i, item.j, xSize) :=
                          RunningAverage(mid[ToIndex(i, item.j, xSize)],
                                         PixelColour(rd, xSize, ySize, i, item.j, item.sample), item.sample)]
    ensures RowPrefixDrawn(before, after, rd, xSize, ySize, item, i + 1)
  {
    GridFacts(xSize, ySize);
  }

  /** A prefix as long as the row is the whole row. */
  lemma RowPrefixWhole(before: seq<Vec3>, after: seq<Vec3>, rd: Renderer, xSize: nat, ySize: nat, item: WorkItem)
    requires RowPrefixDrawn(before, after, rd, xSize, ySize, item, xSize)
    ensures RowDrawn(before, after, rd, xSize, ySize, item)
  {
  }

  /** One work item: every pixel of its row, left to right, then the
      completion fraction grows by `fraction`. Other rows are untouched. */
  method DrawWorkItem(image: ImageData<Vec3>, rd: Renderer, item: WorkItem, fraction: real)
    requires image.Valid() && item.j < image.ySize
    modifies image, image.canvas
    ensures RowDrawn(old(image.canvas[..]), image.canvas[..], rd, image.xSize, image.ySize, item)
    ensures image.complete == old(image.complete) + fraction
  {
    ghost var before := image.canvas[..];
    for i := 0 to image.xSize
      invariant RowPrefixDrawn(before, image.canvas[..], rd, image.xSize, image.ySize, item, i)
      invariant image.complete == old(image.complete)
    {
      ghost var mid := image.canvas[..];
      ToIndexInRange(i, item.j, image.xSize, image.ySize);
      DrawPixel(image, rd, i, item.j, item.sample);
      RowPrefixStep(before, mid, image.canvas[..], rd, image.xSize, image.ySize, item, i);
    }
    RowPrefixWhole(before, image.canvas[..], rd, image.xSize, image.ySize, item);
    var _ := image.UpdateComplete(prev => prev + fraction);
  }

  /** How many samples pixel row `y` has had once `m` row items of sample
      `q` are done (after all items of samples `0 .. q - 1`). */
  function SamplesDone(y: nat, q: nat, m: nat, ySize: nat): nat {
    q + (if ySize - 1 - y < m then 1 else 0)
  }

  /** Finishing row item `m` of sample `q` advances row `ySize - 1 - m` by
      one sample and leaves the others where they were. */
  lemma SamplesDoneStep(y: nat, q: nat, m: nat, ySize: nat)
    requires y < ySize && m < ySize
    ensures var q' := if m + 1 < ySize then q else q + 1;
            var m' := if m + 1 < ySize then m + 1 else 0;
            if y == ySize - 1 - m then SamplesDone(y, q, m, ySize) == q && SamplesDone(y, q', m', ySize) == q + 1
            else SamplesDone(y, q', m', ySize) == SamplesDone(y, q, m, ySize)
  {
  }

  /** Every pixel of `s` holds its value in `init` with the samples of
      its row so far averaged in. */
  ghost predicate Progress(init: seq<Vec3>, s: seq<Vec3>, rd: Renderer, xSize: nat, ySize: nat, q: nat, m: nat) {
    |s| == |init| && CellsInRange(|s|, xSize, ySize) &&
    forall x, y {:trigger s[ToIndex(x, y, xSize)]} :: 0 <= x < xSize && 0 <= y < ySize ==>
      s[ToIndex(x, y, xSize)] == Accumulated(init[ToIndex(x, y, xSize)], rd, xSize, ySize, x, y, SamplesDone(y, q, m, ySize))
  }

  /** Drawing the `m`-th row item of sample `q` takes the progress one item
      further. */
  lemma ProgressStep(init: seq<Vec3>, before: seq<Vec3>, after: seq<Vec3>, rd: Renderer,
                     xSize: nat, ySize: nat, q: nat, m: nat)
    requires m < ySize
    requires Progress(init, before, rd, xSize, ySize, q, m)
    requires RowDrawn(before, after, rd, xSize, ySize, WorkItem(ySize - 1 - m, xSize, ySize, q))
    ensures var q' := if m + 1 < ySize then q else q + 1;
            var m' := if m + 1 < ySize then m + 1 else 0;
            Progress(init, after, rd, xSize, ySize, q', m')
  {
    var q' := if m + 1 < ySize then q else q + 1;
    var m' := if m + 1 < ySize then m + 1 else 0;
    forall x, y | 0 <= x < xSize && 0 <= y < ySize
      ensures after[ToIndex(x, y, xSize)] ==
              Accumulated(init[ToIndex(x, y, xSize)], rd, xSize, ySize, x, y, SamplesDone(y, q', m', ySize))
    {
      var cell := ToIndex(x, y, xSize);
      ProgressCell(init[cell], before[cell], after[cell], rd, xSize, ySize, q, m, x, y);
    }
  }

  /** `ProgressStep` for the one pixel at column `x` of row `y`, which
      starts at `start` and goes from `previous` to `next`. */
  lemma ProgressCell(start: Vec3, previous: Vec3, next: Vec3, rd: Renderer,
                     xSize: nat, ySize: nat, q: nat, m: nat, x: nat, y: nat)
    requires m < ySize && x < xSize && y < ySize
    requires previous == Accumulated(start, rd, xSize, ySize, x, y, SamplesDone(y, q, m, ySize))
    requires y == ySize - 1 - m ==> next == RunningAverage(previous, PixelColour(rd, xSize, ySize, x, y, q), q)
    requires y != ySize - 1 - m ==> next == previous
    ensures var q' := if m + 1 < ySize then q else q + 1;
            var m' := if m + 1 < ySize then m + 1 else 0;
            next == Accumulated(start, rd, xSize, ySize, x, y, SamplesDone(y, q', m', ySize))
  {
    SamplesDoneStep(y, q, m, ySize);
    if y == ySize - 1 - m {
      AccumulatedStep(start, rd, xSize, ySize, x, y, q);
    }
  }

  /** One more sample averages the next colour into the running value. */
  lemma AccumulatedStep(init: Vec3, rd: Renderer, xSize: nat, ySize: nat, i: nat, j: nat, n: nat)
    requires xSize > 0 && ySize > 0
    ensures Accumulated(init, rd, xSize, ySize, i, j, n + 1) ==
            RunningAverage(Accumulated(init, rd, xSize, ySize, i, j, n), PixelColour(rd, xSize, ySize, i, j, n), n)
  {
  }

  /** Once every item of samples `0 .. n - 1` is done, every pixel has
      had exactly those samples. */
  lemma ProgressDone(init: seq<Vec3>, s: seq<Vec3>, rd: Renderer, xSize: nat, ySize: nat, n: nat)
    requires Progress(init, s, rd, xSize, ySize, n, 0)
    ensures |s| == |init| && CellsInRange(|s|, xSize, ySize)
    ensures forall x, y :: 0 <= x < xSize && 0 <= y < ySize ==>
              s[ToIndex(x, y, xSize)] == Accumulated(init[ToIndex(x, y, xSize)], rd, xSize, ySize, x, y, n)
  {
  }

  /** The item at position `k` of the list, reached after `m` row items of
      sample `q`, is row `ySize - 1 - m` of sample `q`. */
  lemma NextWorkItem(xSize: nat, ySize: nat, samples: int, k: nat, q: nat, m: nat)
    requires k < |WorkItems(xSize, ySize, samples)| && k == ItemIndex(q, m, ySize)
    requires ySize > 0 ==> m < ySize && q <= SampleCount(samples) && (q == SampleCount(samples) ==> m == 0)
    ensures ySize > 0 && m < ySize && q < SampleCount(samples)
    ensures WorkItems(xSize, ySize, samples)[k] == WorkItem(ySize - 1 - m, xSize, ySize, q)
  {
    WorkItemsNonEmpty(xSize, ySize, samples);
    WorkItemsLayout(xSize, ySize, samples);
  }

  /** There is work exactly when there are samples and rows. */
  lemma WorkItemsNonEmpty(xSize: nat, ySize: nat, samples: int)
    ensures |WorkItems(xSize, ySize, samples)| == CellCount(ySize, SampleCount(samples))
    ensures |WorkItems(xSize, ySize, samples)| > 0 <==> samples > 0 && ySize > 0
  {
    WorkItemsLayout(xSize, ySize, samples);
    if samples > 0 && ySize > 0 {
      ToIndexInRange(0, 0, ySize, SampleCount(samples));
    } else if ySize == 0 {
      RowStartIsProduct(SampleCount(samples), 0);
    }
  }

  /** One step of `DrawToImageData`: draw the `m`-th row item of sample
      `q` and advance the progress to the next item. */
  method DrawNextItem(image: ImageData<Vec3>, rd: Renderer, item: WorkItem, fraction: real,
                      ghost init: seq<Vec3>, ghost q: nat, ghost m: nat)
    returns (ghost q': nat, ghost m': nat)
    requires image.Valid() && m < image.ySize
    requires item == WorkItem(image.ySize - 1 - m, image.xSize, image.ySize, q)
    requires Progress(init, image.canvas[..], rd, image.xSize, image.ySize, q, m)
    modifies image, image.canvas
    ensures q' == (if m + 1 < image.ySize then q else q + 1)
    ensures m' == (if m + 1 < image.ySize then m + 1 else 0)
    ensures Progress(init, image.canvas[..], rd, image.xSize, image.ySize, q', m')
    ensures image.complete == old(image.complete) + fraction
  {
    ghost var before := image.canvas[..];
    DrawWorkItem(image, rd, item, fraction);
    ProgressStep(init, before, image.canvas[..], rd, image.xSize, image.ySize, q, m);
    q' := if m + 1 < image.ySize then q else q + 1;
    m' := if m + 1 < image.ySize then m + 1 else 0;
  }

  /** `draw_to_image_data`: run every work item in list order. Each pixel
      ends up with all samples averaged in, in increasing order, and the
      completion fraction has grown by exactly 1 when there was any work. */
  method DrawToImageData(image: ImageData<Vec3>, rd: Renderer, samples: int)
    requires image.Valid()
    modifies image, image.canvas
    ensures forall x, y :: 0 <= x < image.xSize && 0 <= y < image.ySize ==>
              image.canvas[ToIndex(x, y, image.xSize)] ==
              Accumulated(old(image.canvas[ToIndex(x, y, image.xSize)]), rd, image.xSize, image.ySize, x, y,
                          SampleCount(samples))
    ensures image.complete ==
            old(image.complete) + (if samples > 0 && image.ySize > 0 then 1.0 else 0.0)
  {
    var items := WorkItems(image.xSize, image.ySize, samples);
    ghost var n := SampleCount(samples);
    WorkItemsNonEmpty(image.xSize, image.ySize, samples);
    var fraction := ItemFraction(|items|);
    ghost var init := image.canvas[..];
    ghost var q: nat := 0;
    ghost var m: nat := 0;
    for k := 0 to |items|
      invariant k == ItemIndex(q, m, image.ySize)
      invariant image.ySize > 0 ==> m < image.ySize && q <= n && (q == n ==> m == 0)
      invariant image.complete == old(image.complete) + RepeatedSum(k, fraction)
      invariant Progress(init, image.canvas[..], rd, image.xSize, image.ySize, q, m)
    {
      NextWorkItem(image.xSize, image.ySize, samples, k, q, m);
      q, m := DrawNextItem(image, rd, items[k], fraction, init, q, m);
    }
    LoopFinished(|items|, image.ySize, n, q, m);
    ProgressDone(init, image.canvas[..], rd, image.xSize, image.ySize, n);
  }

  /** Once every item is drawn, every sample of every row is done and the
      fractions add up to the whole image. */
  lemma LoopFinished(count: nat, ySize: nat, n: nat, q: nat, m: nat)
    requires count == CellCount(ySize, n) && count == ItemIndex(q, m, ySize)
    requires ySize > 0 ==> m < ySize && q <= n && (q == n ==> m == 0)
    ensures ySize > 0 ==> q == n && m == 0
    ensures RepeatedSum(count, ItemFraction(count)) == if count > 0 then 1.0 else 0.0
  {
    if ySize > 0 && q < n {
      ToIndexInRange(m, q, ySize, n);
    }
    RepeatedSumIsProduct(count, ItemFraction(count));
  }

  /** `f` added `k` times. */
  function RepeatedSum(k: nat, f: real): real
    decreases k
  {
    if k == 0 then 0.0 else RepeatedSum(k - 1, f) + f
  }

  lemma {:induction false} RepeatedSumIsProduct(k: nat, f: real)
    ensures RepeatedSum(k, f) == (k as real) * f
    decreases k
  {
    if k > 0 {
      RepeatedSumIsProduct(k - 1, f);
      var r := (k - 1) as real;
      assert (k as real) == r + 1.0;
      assert (r + 1.0) * f == r * f + f;
    }
  }
}
