/** The scene primitives and their ray intersection routines. Each routine
    takes the ray as its origin `o` and direction `d` and a parameter range,
    and returns the hit record or `None` where the original returns null. */
module Shapes {

  import opened RealFacts
  import opened Vectors
  import opened Rays

  /** Surface coefficients. `ka` and `kd` are read whenever the hit is shaded
      locally; the specular, reflective and transmissive coefficients may be
      absent. */
  datatype Material = Material(
    ka: Color,
    kd: Color,
    ks: Option<Color>,
    p: real,
    kr: Option<Color>,
    kt: Option<Color>,
    ior: real)

  /** What an intersection routine reports: the ray parameter, the point, the
      surface normal there and the material. */
  datatype Hit = Hit(t: real, position: Vec3, normal: Vec3, material: Material)

  /** The mutable intersection record the nearest-hit scan keeps and
      overwrites. A fresh one has no material yet. */
  class Intersection {
    var t: real
    var position: Vec3
    var normal: Vec3
    var material: Option<Material>

    constructor ()
      ensures t == 0.0 && position == Zero && normal == Zero && material == None
    {
      t := 0.0;
      position := Zero;
      normal := Zero;
      material := None;
    }

    /** The record holds exactly the fields of `h`. */
    predicate Holds(h: Hit)
      reads this
    {
      t == h.t && position == h.position && normal == h.normal && material == Some(h.material)
    }

    /** The hit the record holds, once a material has been stored. */
    function Record(): (h: Hit)
      reads this
      requires material.Some?
      ensures Holds(h)
    {
      Hit(t, position, normal, material.value)
    }

    /** Intersection.set: copies the four fields of `h`; no other object changes. */
    method Set(h: Hit)
      modifies this
      ensures Holds(h)
    {
      t := h.t;
      position := h.position;
      normal := h.normal;
      material := Some(h.material);
    }
  }

  /** A plane through P0 with normal n, a sphere with centre C and radius r,
      or a triangle with vertices P0, P1, P2 and optional vertex normals. */
  datatype Shape =
    | Plane(P0: Vec3, n: Vec3, material: Material)
    | Sphere(C: Vec3, r: real, material: Material)
    | Triangle(P0: Vec3, P1: Vec3, P2: Vec3, material: Material,
               n0: Option<Vec3>, n1: Option<Vec3>, n2: Option<Vec3>)

  /** The Plane constructor stores a normalized copy of the normal. */
  function NewPlane(m: Numerics, P0: Vec3, n: Vec3, material: Material): Shape
  {
    Plane(P0, Normalize(m, n), material)
  }

  /** A plane built from a non-zero normal has a unit normal pointing the
      same way. */
  lemma NewPlaneUnitNormal(m: Numerics, P0: Vec3, n: Vec3, material: Material)
    requires m.Valid() && n != Zero
    ensures NewPlane(m, P0, n, material).P0 == P0
    ensures LengthSq(NewPlane(m, P0, n, material).n) == 1.0
    ensures exists k: real :: 0.0 < k && NewPlane(m, P0, n, material).n == Scale(n, k)
  {
    NormalizeUnit(m, n);
  }

  // ---------------------------------------------------------------- plane

  /** The ray parameter where o + t·d meets the plane, when d is not parallel to it. */
  function PlaneCrossing(P0: Vec3, n: Vec3, o: Vec3, d: Vec3): real
    requires Dot(d, n) != 0.0
  {
    Dot(Sub(P0, o), n) / Dot(d, n)
  }

  /** A point lies on the plane through P0 with normal n. */
  predicate OnPlane(P0: Vec3, n: Vec3, p: Vec3) { Dot(Sub(p, P0), n) == 0.0 }

  /** Plane.intersect: no hit for a ray parallel to the plane or a crossing
      outside the closed range [tmin, tmax]; a hit lies on the plane, at
      o + t·d, and carries the plane's normal. */
  function PlaneIntersect(P0: Vec3, n: Vec3, material: Material, o: Vec3, d: Vec3, tmin: real, tmax: real)
    : (r: Option<Hit>)
    ensures r.None? <==> Dot(d, n) == 0.0 || PlaneCrossing(P0, n, o, d) < tmin || PlaneCrossing(P0, n, o, d) > tmax
    ensures r.Some? ==> tmin <= r.value.t <= tmax && r.value.t == PlaneCrossing(P0, n, o, d)
    ensures r.Some? ==> r.value.position == PointOn(o, d, r.value.t) && OnPlane(P0, n, r.value.position)
    ensures r.Some? ==> r.value.normal == n && r.value.material == material
  {
    var denom := Dot(d, n);
    if denom == 0.0 then None
    else
      var t := Dot(Sub(P0, o), n) / denom;
      if t < tmin || t > tmax then None
      else
        PlaneCrossingOnPlane(P0, n, o, d);
        Some(Hit(t, PointOn(o, d, t), n, material))
  }

  /** The crossing parameter is the one point of the ray on the plane. */
  lemma PlaneCrossingOnPlane(P0: Vec3, n: Vec3, o: Vec3, d: Vec3)
    requires Dot(d, n) != 0.0
    ensures OnPlane(P0, n, PointOn(o, d, PlaneCrossing(P0, n, o, d)))
    ensures forall s: real :: OnPlane(P0, n, PointOn(o, d, s)) ==> s == PlaneCrossing(P0, n, o, d)
  {
    var denom := Dot(d, n);
    var a := Dot(Sub(P0, o), n);
    forall s: real
      ensures Dot(Sub(PointOn(o, d, s), P0), n) == s * denom - a
    {
    }
    DivideThenMultiply(a, denom);
    forall s: real | OnPlane(P0, n, PointOn(o, d, s))
      ensures s == PlaneCrossing(P0, n, o, d)
    {
      assert s * denom == a;
    }
  }

  /** A plane reports a hit at s exactly when the ray is not parallel to it,
      o + s·d is on the plane and s lies in the closed range. */
  lemma PlaneHitIff(P0: Vec3, n: Vec3, material: Material, o: Vec3, d: Vec3, tmin: real, tmax: real, s: real)
    ensures (var r := PlaneIntersect(P0, n, material, o, d, tmin, tmax); r.Some? && r.value.t == s)
       <==> Dot(d, n) != 0.0 && OnPlane(P0, n, PointOn(o, d, s)) && tmin <= s <= tmax
  {
    if Dot(d, n) != 0.0 {
      PlaneCrossingOnPlane(P0, n, o, d);
    }
  }

  // ---------------------------------------------------------------- sphere

  /** B = 2(O - C)·d, the linear coefficient of the sphere quadratic (A = 1). */
  function SphereB(C: Vec3, o: Vec3, d: Vec3): real { Dot(Scale(Sub(o, C), 2.0), d) }

  /** The constant coefficient |O - C|² - r². */
  function SphereC(C: Vec3, r: real, o: Vec3): real { LengthSq(Sub(o, C)) - r * r }

  function Discriminant(C: Vec3, r: real, o: Vec3, d: Vec3): real
  {
    SphereB(C, o, d) * SphereB(C, o, d) - 4.0 * SphereC(C, r, o)
  }

  /** The smaller root t1 and the larger root t2. */
  function Root1(m: Numerics, C: Vec3, r: real, o: Vec3, d: Vec3): real
  {
    (-SphereB(C, o, d) - m.sqrt(Discriminant(C, r, o, d))) / 2.0
  }

  function Root2(m: Numerics, C: Vec3, r: real, o: Vec3, d: Vec3): real
  {
    (-SphereB(C, o, d) + m.sqrt(Discriminant(C, r, o, d))) / 2.0
  }

  /** Sphere.intersect: no hit when the discriminant is negative; otherwise the
      smaller root if it lies strictly inside (tmin, tmax), else the larger
      root if it does, else no hit. The normal is the unit vector from the
      centre to the hit point. */
  function SphereIntersect(m: Numerics, C: Vec3, r: real, material: Material,
                           o: Vec3, d: Vec3, tmin: real, tmax: real): (res: Option<Hit>)
    ensures Discriminant(C, r, o, d) < 0.0 ==> res.None?
    ensures res.Some? ==> tmin < res.value.t < tmax
    ensures res.Some? ==> res.value.t == Root1(m, C, r, o, d) || res.value.t == Root2(m, C, r, o, d)
    ensures res.Some? ==> res.value.position == PointOn(o, d, res.value.t) && res.value.material == material
    ensures res.Some? ==> res.value.normal == Normalize(m, Sub(res.value.position, C))
  {
    var delta := Discriminant(C, r, o, d);
    if delta < 0.0 then None
    else
      var t1 := Root1(m, C, r, o, d);
      var t2 := Root2(m, C, r, o, d);
      if tmin < t1 && t1 < tmax then
        Some(Hit(t1, PointOn(o, d, t1), Normalize(m, Sub(PointOn(o, d, t1), C)), material))
      else if tmin < t2 && t2 < tmax then
        Some(Hit(t2, PointOn(o, d, t2), Normalize(m, Sub(PointOn(o, d, t2), C)), material))
      else None
  }

  /** |w + t·d|² expands into the sphere quadratic. */
  lemma ExpandOffset(w: Vec3, d: Vec3, t: real)
    ensures LengthSq(Add(w, Scale(d, t))) == LengthSq(w) + t * (2.0 * Dot(w, d)) + t * t * LengthSq(d)
  {
  }

  /** Along a unit direction, o + t·d is on the sphere exactly when t solves
      the sphere quadratic. */
  lemma OnSphereIffRoot(C: Vec3, r: real, o: Vec3, d: Vec3, t: real)
    requires LengthSq(d) == 1.0
    ensures LengthSq(Sub(PointOn(o, d, t), C)) == r * r
        <==> t * t + SphereB(C, o, d) * t + SphereC(C, r, o) == 0.0
  {
    var w := Sub(o, C);
    assert Sub(PointOn(o, d, t), C) == Add(w, Scale(d, t));
    ExpandOffset(w, d, t);
    assert SphereB(C, o, d) == 2.0 * Dot(w, d);
  }

  /** With a unit direction, a reported sphere hit lies on the sphere. */
  lemma SphereHitOnSurface(m: Numerics, C: Vec3, r: real, material: Material,
                           o: Vec3, d: Vec3, tmin: real, tmax: real)
    requires m.Valid() && LengthSq(d) == 1.0
    requires SphereIntersect(m, C, r, material, o, d, tmin, tmax).Some?
    ensures var h := SphereIntersect(m, C, r, material, o, d, tmin, tmax).value;
            LengthSq(Sub(h.position, C)) == r * r
  {
    var h := SphereIntersect(m, C, r, material, o, d, tmin, tmax).value;
    var delta := Discriminant(C, r, o, d);
    assert 0.0 <= delta;
    SqrtFacts(m, delta);
    RootOnSphere(C, r, o, d, m.sqrt(delta), h.t);
  }

  /** Either root of the sphere quadratic, taken along a unit direction, gives
      a point on the sphere. */
  lemma RootOnSphere(C: Vec3, r: real, o: Vec3, d: Vec3, s: real, t: real)
    requires LengthSq(d) == 1.0 && s * s == Discriminant(C, r, o, d)
    requires t == (-SphereB(C, o, d) - s) / 2.0 || t == (-SphereB(C, o, d) + s) / 2.0
    ensures LengthSq(Sub(PointOn(o, d, t), C)) == r * r
  {
    QuadraticRoot(SphereB(C, o, d), SphereC(C, r, o), s, t);
    OnSphereIffRoot(C, r, o, d, t);
  }

  /** The sphere reports the nearest crossing: with a unit direction, any
      point of the sphere at a parameter strictly inside (tmin, tmax) yields
      a hit, and the hit is no farther along the ray. */
  lemma SphereNearest(m: Numerics, C: Vec3, r: real, material: Material,
                      o: Vec3, d: Vec3, tmin: real, tmax: real, s: real)
    requires m.Valid() && LengthSq(d) == 1.0
    requires tmin < s < tmax && LengthSq(Sub(PointOn(o, d, s), C)) == r * r
    ensures var res := SphereIntersect(m, C, r, material, o, d, tmin, tmax);
            res.Some? && res.value.t <= s
  {
    var delta := Discriminant(C, r, o, d);
    OnSphereDiscriminant(C, r, o, d, s);
    SqrtFacts(m, delta);
    OnSphereIsRoot(C, r, o, d, s, m.sqrt(delta));
  }

  /** A parameter at which the ray, along a unit direction, is on the sphere
      makes the discriminant non-negative. */
  lemma OnSphereDiscriminant(C: Vec3, r: real, o: Vec3, d: Vec3, s: real)
    requires LengthSq(d) == 1.0 && LengthSq(Sub(PointOn(o, d, s), C)) == r * r
    ensures 0.0 <= Discriminant(C, r, o, d)
  {
    OnSphereIffRoot(C, r, o, d, s);
    QuadraticDiscriminant(SphereB(C, o, d), SphereC(C, r, o), s);
  }

  /** Such a parameter is one of the two roots. */
  lemma OnSphereIsRoot(C: Vec3, r: real, o: Vec3, d: Vec3, s: real, q: real)
    requires LengthSq(d) == 1.0 && LengthSq(Sub(PointOn(o, d, s), C)) == r * r
    requires 0.0 <= q && q * q == Discriminant(C, r, o, d)
    ensures s == (-SphereB(C, o, d) - q) / 2.0 || s == (-SphereB(C, o, d) + q) / 2.0
  {
    OnSphereIffRoot(C, r, o, d, s);
    QuadraticRootsOnly(SphereB(C, o, d), SphereC(C, r, o), q, s);
  }

  // ---------------------------------------------------------------- triangle

  /** The matrix the triangle routine inverts: rows d, P2 - P0, P2 - P1. */
  function TriangleMatrix(P0: Vec3, P1: Vec3, P2: Vec3, d: Vec3): Mat3
  {
    Mat3(d, Sub(P2, P0), Sub(P2, P1))
  }

  /** aᵀ·v: the combination of the rows of a with weights v. */
  function TransposeApply(a: Mat3, v: Vec3): Vec3
  {
    Vec3(Dot(Column1(a), v), Dot(Column2(a), v), Dot(Column3(a), v))
  }

  lemma TransposeApplyMul(a: Mat3, b: Mat3, v: Vec3)
    ensures TransposeApply(b, TransposeApply(a, v)) == TransposeApply(MatMul(a, b), v)
  {
  }

  lemma TransposeApplyIdentity(v: Vec3)
    ensures TransposeApply(Identity, v) == v
  {
  }

  /** The unknowns (t, alpha, beta): the hand-written product of the inverse's
      elements with P2 - O. Since the elements are column-major, this is the
      transpose of the inverse applied to P2 - O. */
  function TriangleSolve(m: Numerics, P0: Vec3, P1: Vec3, P2: Vec3, o: Vec3, d: Vec3): (tab: Vec3)
    ensures tab == TransposeApply(m.inverse(TriangleMatrix(P0, P1, P2, d)), Sub(P2, o))
  {
    var e := Elements(m.inverse(TriangleMatrix(P0, P1, P2, d)));
    var v := Sub(P2, o);
    Vec3(e[0] * v.x + e[1] * v.y + e[2] * v.z,
         e[3] * v.x + e[4] * v.y + e[5] * v.z,
         e[6] * v.x + e[7] * v.y + e[8] * v.z)
  }

  /** The acceptance test: reject a parameter outside [tmin, tmax] or below 0,
      or barycentric weights outside the triangle. */
  predicate TriangleAccepts(tab: Vec3, tmin: real, tmax: real)
  {
    !(tab.x < tmin || tab.x > tmax || tab.x < 0.0 || tab.y < 0.0 || tab.z < 0.0 || tab.y + tab.z > 1.0)
  }

  /** The interpolated vertex normal when all three are present, else the flat
      normal (P2 - P0) × (P2 - P1); normalized either way. */
  function TriangleNormal(m: Numerics, P0: Vec3, P1: Vec3, P2: Vec3,
                          n0: Option<Vec3>, n1: Option<Vec3>, n2: Option<Vec3>,
                          alpha: real, beta: real): Vec3
  {
    var gamma := 1.0 - alpha - beta;
    if n0.Some? && n1.Some? && n2.Some? then
      Normalize(m, Add(Add(Scale(n0.value, alpha), Scale(n1.value, beta)), Scale(n2.value, gamma)))
    else
      Normalize(m, Cross(Sub(P2, P0), Sub(P2, P1)))
  }

  /** Triangle.intersect: a hit has its parameter in [tmin, tmax] and not
      negative, and all three barycentric weights alpha, beta and
      gamma = 1 - alpha - beta are not negative. */
  function TriangleIntersect(m: Numerics, P0: Vec3, P1: Vec3, P2: Vec3, material: Material,
                             n0: Option<Vec3>, n1: Option<Vec3>, n2: Option<Vec3>,
                             o: Vec3, d: Vec3, tmin: real, tmax: real): (res: Option<Hit>)
    ensures var tab := TriangleSolve(m, P0, P1, P2, o, d);
            res.Some? <==> tmin <= tab.x <= tmax && 0.0 <= tab.x && 0.0 <= tab.y && 0.0 <= tab.z
                           && 0.0 <= 1.0 - tab.y - tab.z
    ensures res.Some? ==> res.value.t == TriangleSolve(m, P0, P1, P2, o, d).x
    ensures res.Some? ==> res.value.position == PointOn(o, d, res.value.t) && res.value.material == material
  {
    var tab := TriangleSolve(m, P0, P1, P2, o, d);
    var t, alpha, beta := tab.x, tab.y, tab.z;
    if !TriangleAccepts(tab, tmin, tmax) then None
    else Some(Hit(t, PointOn(o, d, t), TriangleNormal(m, P0, P1, P2, n0, n1, n2, alpha, beta), material))
  }

  /** The solved unknowns satisfy t·d + alpha(P2 - P0) + beta(P2 - P1) = P2 - O
      when the system is nonsingular, so the hit point is the barycentric
      combination alpha·P0 + beta·P1 + gamma·P2. */
  lemma TriangleBarycentric(m: Numerics, P0: Vec3, P1: Vec3, P2: Vec3, o: Vec3, d: Vec3)
    requires m.Valid() && Det(TriangleMatrix(P0, P1, P2, d)) != 0.0
    ensures var tab := TriangleSolve(m, P0, P1, P2, o, d);
            PointOn(o, d, tab.x)
            == Add(Add(Scale(P0, tab.y), Scale(P1, tab.z)), Scale(P2, 1.0 - tab.y - tab.z))
  {
    var M := TriangleMatrix(P0, P1, P2, d);
    var tab := TriangleSolve(m, P0, P1, P2, o, d);
    TransposeApplyMul(m.inverse(M), M, Sub(P2, o));
    TransposeApplyIdentity(Sub(P2, o));
    assert TransposeApply(M, tab) == Sub(P2, o);
  }

  /** Conversely, when the system is nonsingular, any parameter and weights
      that reach the ray point as a barycentric combination are the solved
      unknowns. */
  lemma TriangleSolveUnique(m: Numerics, P0: Vec3, P1: Vec3, P2: Vec3, o: Vec3, d: Vec3,
                            t: real, alpha: real, beta: real)
    requires m.Valid() && Det(TriangleMatrix(P0, P1, P2, d)) != 0.0
    requires PointOn(o, d, t) == Add(Add(Scale(P0, alpha), Scale(P1, beta)), Scale(P2, 1.0 - alpha - beta))
    ensures TriangleSolve(m, P0, P1, P2, o, d) == Vec3(t, alpha, beta)
  {
    var M := TriangleMatrix(P0, P1, P2, d);
    var w := Vec3(t, alpha, beta);
    assert TransposeApply(M, w) == Sub(P2, o);
    TransposeApplyMul(M, m.inverse(M), w);
    TransposeApplyIdentity(w);
  }

  /** The normal of a triangle hit: interpolated from the vertex normals only
      when all three are present, otherwise the flat face normal. */
  lemma TriangleNormalChoice(m: Numerics, P0: Vec3, P1: Vec3, P2: Vec3, material: Material,
                             n0: Option<Vec3>, n1: Option<Vec3>, n2: Option<Vec3>,
                             o: Vec3, d: Vec3, tmin: real, tmax: real)
    requires TriangleIntersect(m, P0, P1, P2, material, n0, n1, n2, o, d, tmin, tmax).Some?
    ensures var h := TriangleIntersect(m, P0, P1, P2, material, n0, n1, n2, o, d, tmin, tmax).value;
            var tab := TriangleSolve(m, P0, P1, P2, o, d);
            h.normal == if n0.Some? && n1.Some? && n2.Some? then
                          Normalize(m, Add(Add(Scale(n0.value, tab.y), Scale(n1.value, tab.z)),
                                           Scale(n2.value, 1.0 - tab.y - tab.z)))
                        else Normalize(m, Cross(Sub(P2, P0), Sub(P2, P1)))
  {
  }

  // ---------------------------------------------------------------- dispatch

  /** shape.intersect(ray, tmin, tmax). Every hit lies in the closed range, sits
      at o + t·d, and carries the shape's material. */
  function Intersect(m: Numerics, s: Shape, o: Vec3, d: Vec3, tmin: real, tmax: real): (r: Option<Hit>)
    ensures r.Some? ==> tmin <= r.value.t <= tmax
    ensures r.Some? ==> r.value.position == PointOn(o, d, r.value.t) && r.value.material == s.material
  {
    match s
    case Plane(P0, n, material) => PlaneIntersect(P0, n, material, o, d, tmin, tmax)
    case Sphere(C, r, material) => SphereIntersect(m, C, r, material, o, d, tmin, tmax)
    case Triangle(P0, P1, P2, material, n0, n1, n2) =>
      TriangleIntersect(m, P0, P1, P2, material, n0, n1, n2, o, d, tmin, tmax)
  }

  /** Lowering the upper bound keeps any hit that lies below the new bound. */
  lemma IntersectShrink(m: Numerics, s: Shape, o: Vec3, d: Vec3, tmin: real, tmax: real, tmax2: real)
    requires tmax2 <= tmax
    requires Intersect(m, s, o, d, tmin, tmax).Some?
    requires Intersect(m, s, o, d, tmin, tmax).value.t < tmax2
    ensures Intersect(m, s, o, d, tmin, tmax2) == Intersect(m, s, o, d, tmin, tmax)
  {
  }

  /** A sphere's hit is strictly below the bound: a sphere never reports a
      crossing at exactly tmax. */
  lemma SphereStrict(m: Numerics, s: Shape, o: Vec3, d: Vec3, tmin: real, tmax: real)
    requires s.Sphere? && Intersect(m, s, o, d, tmin, tmax).Some?
    ensures Intersect(m, s, o, d, tmin, tmax).value.t < tmax
  {
  }

  /** Raising the upper bound keeps a hit: a plane or triangle hit stays in the
      wider closed range, and a sphere still picks the same root, since the
      smaller root was already rejected for lying at or below tmin. */
  lemma IntersectGrow(m: Numerics, s: Shape, o: Vec3, d: Vec3, tmin: real, tmax: real, tmax2: real)
    requires m.Valid() && tmax <= tmax2
    requires Intersect(m, s, o, d, tmin, tmax).Some?
    ensures Intersect(m, s, o, d, tmin, tmax2) == Intersect(m, s, o, d, tmin, tmax)
  {
    if s.Sphere? {
      SqrtFacts(m, Discriminant(s.C, s.r, o, d));
    }
  }

  /** A triangle whose solved parameter is exactly tmax, with weights inside
      the triangle, is reported at tmax. */
  lemma TriangleInclusive(m: Numerics, s: Shape, o: Vec3, d: Vec3, tmin: real, tmax: real)
    requires s.Triangle? && tmin <= tmax && 0.0 <= tmax
    requires var tab := TriangleSolve(m, s.P0, s.P1, s.P2, o, d);
             tab.x == tmax && 0.0 <= tab.y && 0.0 <= tab.z && tab.y + tab.z <= 1.0
    ensures Intersect(m, s, o, d, tmin, tmax).Some?
    ensures Intersect(m, s, o, d, tmin, tmax).value.t == tmax
  {
  }

  /** A plane crossing at exactly tmax is reported. */
  lemma PlaneInclusive(m: Numerics, s: Shape, o: Vec3, d: Vec3, tmin: real, tmax: real)
    requires s.Plane? && Dot(d, s.n) != 0.0
    requires tmin <= tmax && PlaneCrossing(s.P0, s.n, o, d) == tmax
    ensures Intersect(m, s, o, d, tmin, tmax).Some?
    ensures Intersect(m, s, o, d, tmin, tmax).value.t == tmax
  {
  }
}
