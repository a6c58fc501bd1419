/** The recursive Whitted tracer: mirror and refraction directions, the
    per-light shading loop, and raytracing itself. */
module Tracer {

  import opened RealFacts
  import opened Vectors
  import opened Rays
  import opened Shapes
  import opened SceneQuery
  import opened Lights

  /** The scene globals the tracer reads. */
  datatype Scene = Scene(
    shapes: seq<Shape>,
    lights: seq<Light>,
    ambientLight: Color,
    backgroundColor: Color,
    maxDepth: nat)

  /** Math.max on two numbers. */
  function Max(a: real, b: real): real { if a < b then b else a }

  // ---------------------------------------------------------------- reflect

  /** reflect(l, n) = 2(n·l)n - l: l mirrored about n. */
  function Reflect(l: Vec3, n: Vec3): Vec3
  {
    Sub(Scale(n, 2.0 * Dot(n, l)), l)
  }

  lemma DotScaleSelf(n: Vec3, k: real)
    ensures Dot(n, Scale(n, k)) == k * LengthSq(n)
  {
  }

  /** About a unit normal, reflection keeps the normal component and the
      length, and reflecting twice gives back the original vector. */
  lemma ReflectProperties(l: Vec3, n: Vec3)
    requires LengthSq(n) == 1.0
    ensures Dot(n, Reflect(l, n)) == Dot(n, l)
    ensures Reflect(Reflect(l, n), n) == l
    ensures LengthSq(Reflect(l, n)) == LengthSq(l)
  {
    var k := 2.0 * Dot(n, l);
    DotScaleSelf(n, k);
    TimesOne(k, LengthSq(n));
    assert Dot(n, Reflect(l, n)) == Dot(n, l);
    assert LengthSq(Reflect(l, n)) == LengthSq(l) by {
      ReflectLength(l, n, k);
      TimesOne(k * k, LengthSq(n));
    }
  }

  lemma ReflectLength(l: Vec3, n: Vec3, k: real)
    ensures LengthSq(Sub(Scale(n, k), l)) == k * k * LengthSq(n) - 2.0 * k * Dot(n, l) + LengthSq(l)
  {
  }

  // ---------------------------------------------------------------- refract

  /** The ratio of refraction indices: 1/ior entering (n·l < 0), ior otherwise. */
  function RefractRatio(m: Numerics, l: Vec3, n: Vec3, ior: real): real
  {
    if Dot(n, l) < 0.0 then m.divide(1.0, ior) else ior
  }

  /** Total internal reflection: mu²·(1 - cos²) > 1. */
  predicate TotalInternal(mu: real, l: Vec3, n: Vec3)
  {
    mu * mu * (1.0 - Dot(l, n) * Dot(l, n)) > 1.0
  }

  /** cosR = sqrt(1 - sinR²), with sinR = mu·sqrt(1 - cosI²). */
  function RefractCos(m: Numerics, l: Vec3, n: Vec3, mu: real): real
  {
    var cosI := Dot(l, n);
    var sinI2 := 1.0 - cosI * cosI;
    var sinR := mu * m.sqrt(sinI2);
    m.sqrt(1.0 - sinR * sinR)
  }

  /** The weight of n in the refracted direction: -mu·cosI + cosR when
      cosI > 0, -mu·cosI - cosR otherwise. */
  function RefractWeight(m: Numerics, l: Vec3, n: Vec3, mu: real): real
  {
    var cosI := Dot(l, n);
    var cosR := RefractCos(m, l, n, mu);
    if cosI > 0.0 then -mu * cosI + cosR else -mu * cosI - cosR
  }

  /** The refracted direction before normalization: the weighted n plus mu·l. */
  function RefractRaw(m: Numerics, l: Vec3, n: Vec3, mu: real): Vec3
  {
    Add(Scale(n, RefractWeight(m, l, n, mu)), Scale(l, mu))
  }

  /** refract(l, n, ior): no direction under total internal reflection,
      otherwise the normalized refracted direction. */
  function Refract(m: Numerics, l: Vec3, n: Vec3, ior: real): Option<Vec3>
  {
    var mu := RefractRatio(m, l, n, ior);
    if TotalInternal(mu, l, n) then None
    else Some(Normalize(m, RefractRaw(m, l, n, mu)))
  }

  /** refract returns null exactly when mu²(1 - (l·n)²) > 1, with mu = 1/ior
      when n·l < 0 and mu = ior otherwise. */
  lemma RefractNoneIff(m: Numerics, l: Vec3, n: Vec3, ior: real)
    requires m.Valid() && ior != 0.0
    ensures var mu := if Dot(n, l) < 0.0 then 1.0 / ior else ior;
            Refract(m, l, n, ior).None? <==> mu * mu * (1.0 - Dot(l, n) * Dot(l, n)) > 1.0
  {
    assert RefractRatio(m, l, n, ior) == if Dot(n, l) < 0.0 then 1.0 / ior else ior;
  }

  lemma CombinationLength(n: Vec3, l: Vec3, a: real, mu: real)
    ensures LengthSq(Add(Scale(n, a), Scale(l, mu)))
         == a * a * LengthSq(n) + 2.0 * a * mu * Dot(n, l) + mu * mu * LengthSq(l)
  {
  }

  lemma RefractNormIdentity(mu: real, c: real, cosR: real, a: real)
    requires a == -mu * c + cosR || a == -mu * c - cosR
    ensures a * a + 2.0 * a * mu * c + mu * mu == cosR * cosR + mu * mu * (1.0 - c * c)
  {
  }

  /** Without total internal reflection, cosR² = 1 - mu²(1 - (l·n)²). */
  lemma RefractCosSquared(m: Numerics, l: Vec3, n: Vec3, mu: real)
    requires m.Valid() && LengthSq(l) == 1.0 && LengthSq(n) == 1.0
    requires !TotalInternal(mu, l, n)
    ensures RefractCos(m, l, n, mu) * RefractCos(m, l, n, mu) == 1.0 - mu * mu * (1.0 - Dot(l, n) * Dot(l, n))
  {
    var c := Dot(l, n);
    var sinI2 := 1.0 - c * c;
    assert 0.0 <= sinI2 by {
      UnitDotBound(l, n);
    }
    var s := m.sqrt(sinI2);
    assert s * s == sinI2;
    var sinR := mu * s;
    ScaledSquare(mu, s, sinI2, sinR);
    SqrtFacts(m, 1.0 - sinR * sinR);
  }

  /** a·n + mu·l has unit length when n and l do and a is -mu·c ± cosR with
      cosR² = 1 - mu²(1 - c²), c = l·n. */
  lemma CombinationUnit(n: Vec3, l: Vec3, a: real, mu: real, cosR: real)
    requires LengthSq(n) == 1.0 && LengthSq(l) == 1.0
    requires a == -mu * Dot(l, n) + cosR || a == -mu * Dot(l, n) - cosR
    requires cosR * cosR == 1.0 - mu * mu * (1.0 - Dot(l, n) * Dot(l, n))
    ensures LengthSq(Add(Scale(n, a), Scale(l, mu))) == 1.0
  {
    var c := Dot(l, n);
    CombinationLength(n, l, a, mu);
    TimesOne(a * a, LengthSq(n));
    TimesOne(mu * mu, LengthSq(l));
    assert Dot(n, l) == c;
    RefractNormIdentity(mu, c, cosR, a);
  }

  /** For unit l and n without total internal reflection, the refracted
      direction already has unit length, so normalizing leaves it as it is. */
  lemma RefractUnit(m: Numerics, l: Vec3, n: Vec3, mu: real)
    requires m.Valid() && LengthSq(l) == 1.0 && LengthSq(n) == 1.0
    requires !TotalInternal(mu, l, n)
    ensures LengthSq(RefractRaw(m, l, n, mu)) == 1.0
    ensures Normalize(m, RefractRaw(m, l, n, mu)) == RefractRaw(m, l, n, mu)
  {
    RefractCosSquared(m, l, n, mu);
    CombinationUnit(n, l, RefractWeight(m, l, n, mu), mu, RefractCos(m, l, n, mu));
    NormalizeOfUnit(m, RefractRaw(m, l, n, mu));
  }

  lemma TangentComponent(nc: real, lc: real, a: real, mu: real, c: real, dn: real)
    requires dn == a + mu * c
    ensures (nc * a + lc * mu) - nc * dn == (lc - nc * c) * mu
  {
  }

  /** The normal part of a·n + mu·l about a unit n is a + mu·(l·n). */
  lemma NormalPart(n: Vec3, l: Vec3, a: real, mu: real)
    requires LengthSq(n) == 1.0
    ensures Dot(Add(Scale(n, a), Scale(l, mu)), n) == a + mu * Dot(l, n)
  {
    DotMix(n, l, n, a, mu);
    TimesOne(a, Dot(n, n));
  }

  /** Taking away that normal part leaves mu times the tangential part of l. */
  lemma TangentPart(n: Vec3, l: Vec3, a: real, mu: real, dn: real)
    requires dn == a + mu * Dot(l, n)
    ensures Sub(Add(Scale(n, a), Scale(l, mu)), Scale(n, dn)) == Scale(Sub(l, Scale(n, Dot(l, n))), mu)
  {
    var c := Dot(l, n);
    TangentComponent(n.x, l.x, a, mu, c, dn);
    TangentComponent(n.y, l.y, a, mu, c, dn);
    TangentComponent(n.z, l.z, a, mu, c, dn);
  }

  /** Snell's law in vector form: about a unit normal, the tangential part of
      the refracted direction is mu times the tangential part of l, and its
      normal part is cosR, signed like l·n. */
  lemma RefractSnell(m: Numerics, l: Vec3, n: Vec3, mu: real)
    requires LengthSq(n) == 1.0
    ensures var r := RefractRaw(m, l, n, mu);
            var cosI := Dot(l, n);
            && Sub(r, Scale(n, Dot(r, n))) == Scale(Sub(l, Scale(n, cosI)), mu)
            && Dot(r, n) == (if cosI > 0.0 then RefractCos(m, l, n, mu) else -RefractCos(m, l, n, mu))
  {
    var a := RefractWeight(m, l, n, mu);
    NormalPart(n, l, a, mu);
    TangentPart(n, l, a, mu, Dot(RefractRaw(m, l, n, mu), n));
  }

  // ---------------------------------------------------------------- shading

  /** The shadow test: the shadow ray from the hit towards the light meets a
      shape nearer than the light. */
  predicate Blocked(m: Numerics, scene: Scene, h: Hit, ls: LightSample)
  {
    var shadow := NearestHit(m, scene.shapes, h.position, Normalize(m, ls.direction));
    shadow.Some? && shadow.value.t < Length(m, Sub(ls.position, h.position))
  }

  /** The diffuse term: intensity times kd times max(n·l, 0). */
  function Diffuse(h: Hit, ls: LightSample): Color
  {
    ColorScale(ColorMul(ls.intensity, h.material.kd), Max(Dot(h.normal, ls.direction), 0.0))
  }

  /** The specular term: intensity times ks times max(r·v, 0)^p, with r the
      light direction mirrored about the normal and v the reversed view
      direction. */
  function Specular(m: Numerics, viewDir: Vec3, h: Hit, ls: LightSample, ks: Color): Color
  {
    var rj := Reflect(ls.direction, h.normal);
    var v := Neg(viewDir);
    ColorScale(ColorMul(ls.intensity, ks), m.pow(Max(Dot(rj, v), 0.0), h.material.p))
  }

  /** The colour one light adds at a hit seen along `viewDir`: nothing when
      the light is blocked; otherwise the diffuse term, plus the specular term
      when the material has ks. */
  function LightTerm(m: Numerics, scene: Scene, viewDir: Vec3, h: Hit, light: Light): Color
  {
    var ls := GetLight(m, light, h.position);
    if Blocked(m, scene, h, ls) then Black
    else if h.material.ks.Some? then ColorAdd(Diffuse(h, ls), Specular(m, viewDir, h, ls, h.material.ks.value))
    else Diffuse(h, ls)
  }

  /** The colour the first k lights add. */
  function ShadeSum(m: Numerics, scene: Scene, viewDir: Vec3, h: Hit, k: nat): Color
    requires k <= |scene.lights|
  {
    if k == 0 then Black
    else ColorAdd(ShadeSum(m, scene, viewDir, h, k - 1), LightTerm(m, scene, viewDir, h, scene.lights[k - 1]))
  }

  /** shading(ray, isect) as a function. */
  function Shade(m: Numerics, scene: Scene, viewDir: Vec3, h: Hit): Color
  {
    ShadeSum(m, scene, viewDir, h, |scene.lights|)
  }

  /** shading: accumulates, light by light, the colour of each light that the
      shadow query does not block. */
  method Shading(m: Numerics, scene: Scene, ray: Ray, isect: Intersection) returns (color: Color)
    requires isect.material.Some?
    ensures color == Shade(m, scene, ray.d, isect.Record())
  {
    color := Black;
    var j := 0;
    while j < |scene.lights|
      invariant 0 <= j <= |scene.lights|
      invariant color == ShadeSum(m, scene, ray.d, isect.Record(), j)
    {
      color := ShadeLight(m, scene, ray.d, isect, scene.lights[j], color);
      j := j + 1;
    }
  }

  /** One pass of shading's loop: the shadow query for one light, then the
      diffuse and, with ks, the specular term added to `color` in turn. */
  method ShadeLight(m: Numerics, scene: Scene, viewDir: Vec3, isect: Intersection, light: Light, color: Color)
    returns (result: Color)
    requires isect.material.Some?
    ensures result == ColorAdd(color, LightTerm(m, scene, viewDir, isect.Record(), light))
  {
    ghost var h := isect.Record();
    var ls := GetLight(m, light, isect.position);
    var shadowRay := new Ray(m, isect.position, ls.direction);
    var distToLight := Length(m, Sub(ls.position, isect.position));
    var shadowIsect := RayIntersectScene(m, scene.shapes, shadowRay);
    assert (shadowIsect != null && shadowIsect.t < distToLight) == Blocked(m, scene, h, ls);
    result := color;
    if shadowIsect != null && shadowIsect.t < distToLight {
      // the light is blocked: it adds nothing
    } else {
      var material := isect.material.value;
      var diffuse := ColorScale(ColorMul(ls.intensity, material.kd), Max(Dot(isect.normal, ls.direction), 0.0));
      result := ColorAdd(result, diffuse);
      var ks := material.ks;
      if ks.Some? {
        var rj := Reflect(ls.direction, isect.normal);
        var v := Neg(viewDir);
        var specular := ColorScale(ColorMul(ls.intensity, ks.value), m.pow(Max(Dot(rj, v), 0.0), material.p));
        assert specular == Specular(m, viewDir, h, ls, ks.value);
        result := ColorAdd(result, specular);
      }
    }
  }

  /** A light whose shadow ray meets a shape nearer than the light adds nothing. */
  lemma BlockedLightAddsNothing(m: Numerics, scene: Scene, viewDir: Vec3, h: Hit, light: Light)
    requires var ls := GetLight(m, light, h.position);
             var shadow := NearestHit(m, scene.shapes, h.position, Normalize(m, ls.direction));
             shadow.Some? && shadow.value.t < Length(m, Sub(ls.position, h.position))
    ensures LightTerm(m, scene, viewDir, h, light) == Black
  {
  }

  /** An unblocked light adds its diffuse term, whose factor max(n·l, 0) is
      never negative, and a specular term only when the material has ks. */
  lemma UnblockedLightTerm(m: Numerics, scene: Scene, viewDir: Vec3, h: Hit, light: Light)
    requires var ls := GetLight(m, light, h.position);
             var shadow := NearestHit(m, scene.shapes, h.position, Normalize(m, ls.direction));
             !(shadow.Some? && shadow.value.t < Length(m, Sub(ls.position, h.position)))
    ensures var ls := GetLight(m, light, h.position);
            var f := Max(Dot(h.normal, ls.direction), 0.0);
            var diffuse := ColorScale(ColorMul(ls.intensity, h.material.kd), f);
            && 0.0 <= f
            && (h.material.ks.None? ==> LightTerm(m, scene, viewDir, h, light) == diffuse)
            && (h.material.ks.Some? ==>
                  LightTerm(m, scene, viewDir, h, light)
                  == ColorAdd(diffuse, ColorScale(ColorMul(ls.intensity, h.material.ks.value),
                                                  m.pow(Max(Dot(Reflect(ls.direction, h.normal), Neg(viewDir)), 0.0),
                                                        h.material.p))))
  {
  }

  lemma ScaleNonNegative(c: Color, k: real)
    requires NonNegative(c) && 0.0 <= k
    ensures NonNegative(ColorScale(c, k))
  {
    ProductNonNegative(c.r, k, c.r * k);
    ProductNonNegative(c.g, k, c.g * k);
    ProductNonNegative(c.b, k, c.b * k);
  }

  lemma MulNonNegative(a: Color, b: Color)
    requires NonNegative(a) && NonNegative(b)
    ensures NonNegative(ColorMul(a, b))
  {
    ProductNonNegative(a.r, b.r, a.r * b.r);
    ProductNonNegative(a.g, b.g, a.g * b.g);
    ProductNonNegative(a.b, b.b, a.b * b.b);
  }

  /** With a non-negative light sample and diffuse coefficient, the diffuse
      part of a light's term is non-negative: light never subtracts colour
      through it. */
  lemma DiffuseNonNegative(h: Hit, ls: LightSample)
    requires NonNegative(ls.intensity) && NonNegative(h.material.kd)
    ensures NonNegative(Diffuse(h, ls))
  {
    MulNonNegative(ls.intensity, h.material.kd);
    ScaleNonNegative(ColorMul(ls.intensity, h.material.kd), Max(Dot(h.normal, ls.direction), 0.0));
  }

  // ---------------------------------------------------------------- raytracing

  /** The measure that bounds the recursion: it drops with every recursive
      call, which only happens below maxDepth. */
  function DepthBudget(scene: Scene, depth: nat): nat
  {
    if depth < scene.maxDepth then scene.maxDepth - depth else 0
  }

  /** The colour raytracing returns for a ray with origin o and direction d. */
  function Trace(m: Numerics, scene: Scene, o: Vec3, d: Vec3, depth: nat): Color
    decreases DepthBudget(scene, depth), 1
  {
    match NearestHit(m, scene.shapes, o, d)
    case None => scene.backgroundColor
    case Some(h) =>
      if h.material.kr.Some? || h.material.kt.Some? then
        if depth < scene.maxDepth then
          ColorAdd(ColorAdd(Black, Reflected(m, scene, d, h, depth)), Transmitted(m, scene, d, h, depth))
        else Black
      else ColorAdd(ColorAdd(Black, ColorMul(scene.ambientLight, h.material.ka)), Shade(m, scene, d, h))
  }

  /** The reflective branch: kr times the colour of the mirrored ray, which
      starts at the hit and is traced one level deeper; black without kr. */
  function Reflected(m: Numerics, scene: Scene, d: Vec3, h: Hit, depth: nat): Color
    requires depth < scene.maxDepth
    decreases DepthBudget(scene, depth), 0
  {
    if h.material.kr.Some? then
      ColorMul(h.material.kr.value, Trace(m, scene, h.position, Normalize(m, Reflect(Neg(d), h.normal)), depth + 1))
    else Black
  }

  /** The direction refract is handed: ray.d after one more negation, so d
      itself when the reflective branch has already negated it, -d otherwise. */
  function TransmitFrom(d: Vec3, h: Hit): Vec3
  {
    if h.material.kr.Some? then d else Neg(d)
  }

  /** The transmissive branch: kt times the colour of the refracted ray, traced
      one level deeper; black without kt or under total internal reflection. */
  function Transmitted(m: Numerics, scene: Scene, d: Vec3, h: Hit, depth: nat): Color
    requires depth < scene.maxDepth
    decreases DepthBudget(scene, depth), 0
  {
    if h.material.kt.Some? then
      match Refract(m, TransmitFrom(d, h), h.normal, h.material.ior)
      case None => Black
      case Some(r) => ColorMul(h.material.kt.value, Trace(m, scene, h.position, Normalize(m, r), depth + 1))
    else Black
  }

  /** The direction the caller's ray is left with: negated once by each of the
      reflective and transmissive branches that runs. */
  function DirectionAfter(m: Numerics, scene: Scene, o: Vec3, d: Vec3, depth: nat): Vec3
  {
    match NearestHit(m, scene.shapes, o, d)
    case None => d
    case Some(h) =>
      if (h.material.kr.Some? || h.material.kt.Some?) && depth < scene.maxDepth then
        var afterKr := if h.material.kr.Some? then Neg(d) else d;
        if h.material.kt.Some? then Neg(afterKr) else afterKr
      else d
  }

  /** raytracing(ray, depth): the colour of the ray, with recursive reflected
      and refracted rays below maxDepth. The caller's ray keeps its origin;
      its direction is negated in place by each branch that runs. */
  method Raytracing(m: Numerics, scene: Scene, ray: Ray, depth: nat) returns (color: Color)
    modifies ray
    decreases DepthBudget(scene, depth), 1
    ensures color == Trace(m, scene, old(ray.o), old(ray.d), depth)
    ensures ray.o == old(ray.o) && ray.d == DirectionAfter(m, scene, old(ray.o), old(ray.d), depth)
  {
    color := Black;
    ghost var d := ray.d;
    var isect := RayIntersectScene(m, scene.shapes, ray);
    if isect != null {
      var mat := isect.material.value;
      var h := isect.Record();
      assert NearestHit(m, scene.shapes, ray.o, d) == Some(h);
      if mat.kr.Some? || mat.kt.Some? {
        if depth < scene.maxDepth {
          if mat.kr.Some? {
            var c := ReflectBranch(m, scene, ray, h, depth);
            color := ColorAdd(color, c);
          }
          assert color == Reflected(m, scene, d, h, depth);
          if mat.kt.Some? {
            var c := TransmitBranch(m, scene, ray, h, depth, d);
            color := ColorAdd(color, c);
          } else {
            assert color == ColorAdd(color, Transmitted(m, scene, d, h, depth));
          }
          TraceBranches(m, scene, ray.o, d, depth, h);
        }
      } else {
        var ia := ColorMul(scene.ambientLight, mat.ka);
        var s := Shading(m, scene, ray, isect);
        color := ColorAdd(ColorAdd(color, ia), s);
      }
    } else {
      color := scene.backgroundColor;
    }
  }

  /** raytracing's reflective branch: negates the caller's direction in place,
      traces the mirrored ray from the hit one level deeper and weights it by
      kr. */
  method ReflectBranch(m: Numerics, scene: Scene, ray: Ray, h: Hit, depth: nat) returns (c: Color)
    requires depth < scene.maxDepth && h.material.kr.Some?
    modifies ray
    decreases DepthBudget(scene, depth), 0
    ensures c == Reflected(m, scene, old(ray.d), h, depth)
    ensures ray.o == old(ray.o) && ray.d == Neg(old(ray.d))
  {
    var l := ray.NegateDirection();
    var reflectRay := new Ray(m, h.position, Reflect(l, h.normal));
    var traced := Raytracing(m, scene, reflectRay, depth + 1);
    c := ColorMul(h.material.kr.value, traced);
  }

  /** raytracing's transmissive branch: negates the caller's direction in
      place, refracts it and, unless refraction is total internal reflection,
      traces the refracted ray from the hit one level deeper and weights it by
      kt. `d` is the direction the caller's ray had on entry to raytracing. */
  method TransmitBranch(m: Numerics, scene: Scene, ray: Ray, h: Hit, depth: nat, ghost d: Vec3) returns (c: Color)
    requires depth < scene.maxDepth && h.material.kt.Some?
    requires ray.d == if h.material.kr.Some? then Neg(d) else d
    modifies ray
    decreases DepthBudget(scene, depth), 0
    ensures c == Transmitted(m, scene, d, h, depth)
    ensures ray.o == old(ray.o) && ray.d == Neg(old(ray.d))
  {
    var l := ray.NegateDirection();
    assert l == TransmitFrom(d, h);
    var refraction := Refract(m, l, h.normal, h.material.ior);
    c := Black;
    if refraction.Some? {
      var refractRay := new Ray(m, h.position, refraction.value);
      var traced := Raytracing(m, scene, refractRay, depth + 1);
      c := ColorMul(h.material.kt.value, traced);
    }
  }

  /** A ray that meets nothing takes the background colour. */
  lemma TraceMiss(m: Numerics, scene: Scene, o: Vec3, d: Vec3, depth: nat)
    requires NearestHit(m, scene.shapes, o, d).None?
    ensures Trace(m, scene, o, d, depth) == scene.backgroundColor
  {
  }

  /** A hit on a material without kr and kt is lit locally: ambient light
      times ka, plus the shading of all lights. */
  lemma TraceLocal(m: Numerics, scene: Scene, o: Vec3, d: Vec3, depth: nat)
    requires NearestHit(m, scene.shapes, o, d).Some?
    requires var h := NearestHit(m, scene.shapes, o, d).value; h.material.kr.None? && h.material.kt.None?
    ensures var h := NearestHit(m, scene.shapes, o, d).value;
            Trace(m, scene, o, d, depth) == ColorAdd(ColorMul(scene.ambientLight, h.material.ka), Shade(m, scene, d, h))
  {
  }

  /** At or beyond maxDepth a reflective or transmissive hit is black, and the
      colour does not depend on any deeper ray. */
  lemma TraceDepthCutoff(m: Numerics, scene: Scene, o: Vec3, d: Vec3, depth: nat)
    requires depth >= scene.maxDepth
    requires NearestHit(m, scene.shapes, o, d).Some?
    requires var h := NearestHit(m, scene.shapes, o, d).value; h.material.kr.Some? || h.material.kt.Some?
    ensures Trace(m, scene, o, d, depth) == Black
  {
  }

  /** Below maxDepth, a purely reflective hit is kr times the colour of the
      mirrored ray, traced one level deeper from the hit point. */
  lemma TraceMirror(m: Numerics, scene: Scene, o: Vec3, d: Vec3, depth: nat)
    requires depth < scene.maxDepth
    requires NearestHit(m, scene.shapes, o, d).Some?
    requires var h := NearestHit(m, scene.shapes, o, d).value; h.material.kr.Some? && h.material.kt.None?
    ensures var h := NearestHit(m, scene.shapes, o, d).value;
            Trace(m, scene, o, d, depth)
            == ColorMul(h.material.kr.value,
                        Trace(m, scene, h.position, Normalize(m, Reflect(Neg(d), h.normal)), depth + 1))
  {
  }

  /** Below maxDepth, a reflective or transmissive hit is the sum of its two
      branches. */
  lemma TraceBranches(m: Numerics, scene: Scene, o: Vec3, d: Vec3, depth: nat, h: Hit)
    requires depth < scene.maxDepth
    requires NearestHit(m, scene.shapes, o, d) == Some(h)
    requires h.material.kr.Some? || h.material.kt.Some?
    ensures Trace(m, scene, o, d, depth) == ColorAdd(Reflected(m, scene, d, h, depth), Transmitted(m, scene, d, h, depth))
  {
    var reflected := Reflected(m, scene, d, h, depth);
    assert ColorAdd(Black, reflected) == reflected;
  }

  /** The caller's direction after raytracing: unchanged unless a reflective
      or transmissive branch ran; negated when exactly one of kr and kt is
      present; back to d when both are. */
  lemma DirectionAfterCases(m: Numerics, scene: Scene, o: Vec3, d: Vec3, depth: nat)
    ensures var hit := NearestHit(m, scene.shapes, o, d);
            DirectionAfter(m, scene, o, d, depth)
            == if hit.None? || depth >= scene.maxDepth then d
               else if hit.value.material.kr.Some? && hit.value.material.kt.Some? then d
               else if hit.value.material.kr.Some? || hit.value.material.kt.Some? then Neg(d)
               else d
  {
  }
}
