/** The nearest-hit query over all shapes of the scene (rayIntersectScene):
    every shape is tried in order with the current upper bound, and each hit
    lowers the bound to its own parameter. */
module SceneQuery {

  import opened Vectors
  import opened Rays
  import opened Shapes

  /** Number.MAX_VALUE, the largest finite double: (2 - 2^-52)·2^1023. */
  const MaxValue: real := 179769313486231570814527423731704356798070567525844996598917476803157260780028538760589558632766878171540458953514382464234321326889464182768467546703537516986049910576551282076245490090389328944075868508455133942304583236903222948165808559332123348274797826204144723168738177180919299881250404026184124858368.0

  /** The lower bound every scene query uses, to skip the surface the ray starts on. */
  const TMin: real := 0.0001

  /** The scan's two variables: the hit kept so far and the current bound. */
  datatype ScanState = ScanState(isect: Option<Hit>, tmax: real)

  /** The state after the first k shapes have been tried. The kept hit always
      sits at the current bound, and the bound only starts at MaxValue and
      moves down. */
  function Scan(m: Numerics, shapes: seq<Shape>, o: Vec3, d: Vec3, k: nat): (st: ScanState)
    requires k <= |shapes|
    ensures st.tmax <= MaxValue
    ensures st.isect.None? ==> st.tmax == MaxValue
    ensures st.isect.Some? ==> st.isect.value.t == st.tmax && TMin <= st.tmax
  {
    if k == 0 then ScanState(None, MaxValue)
    else
      var prev := Scan(m, shapes, o, d, k - 1);
      match Intersect(m, shapes[k - 1], o, d, TMin, prev.tmax)
      case None => prev
      case Some(h) => ScanState(Some(h), h.t)
  }

  /** What rayIntersectScene returns: the hit kept after all shapes. */
  function NearestHit(m: Numerics, shapes: seq<Shape>, o: Vec3, d: Vec3): Option<Hit>
  {
    Scan(m, shapes, o, d, |shapes|).isect
  }

  /** rayIntersectScene: the first hit is stored in a new record, and each
      later hit overwrites that record in place. */
  method RayIntersectScene(m: Numerics, shapes: seq<Shape>, ray: Ray) returns (isect: Intersection?)
    ensures isect == null <==> NearestHit(m, shapes, ray.o, ray.d).None?
    ensures isect != null ==> isect.Holds(NearestHit(m, shapes, ray.o, ray.d).value)
  {
    var tmax := MaxValue;
    isect := null;
    var i := 0;
    while i < |shapes|
      invariant 0 <= i <= |shapes|
      invariant tmax == Scan(m, shapes, ray.o, ray.d, i).tmax
      invariant isect == null <==> Scan(m, shapes, ray.o, ray.d, i).isect.None?
      invariant isect != null ==> fresh(isect) && isect.Holds(Scan(m, shapes, ray.o, ray.d, i).isect.value)
    {
      var hit := Intersect(m, shapes[i], ray.o, ray.d, TMin, tmax);
      if hit.Some? {
        tmax := hit.value.t;
        if isect == null {
          isect := new Intersection();
        }
        isect.Set(hit.value);
      }
      i := i + 1;
    }
  }

  /** No hit is kept exactly when no shape reports a hit over the whole
      range [TMin, MaxValue]: while nothing is kept the bound stays at
      MaxValue, so every shape is asked about the whole range. */
  lemma {:induction false} ScanNoneIff(m: Numerics, shapes: seq<Shape>, o: Vec3, d: Vec3, k: nat)
    requires k <= |shapes|
    ensures Scan(m, shapes, o, d, k).isect.None?
        <==> forall i :: 0 <= i < k ==> Intersect(m, shapes[i], o, d, TMin, MaxValue).None?
  {
    if k > 0 {
      ScanNoneIff(m, shapes, o, d, k - 1);
    }
  }

  lemma NearestHitNoneIff(m: Numerics, shapes: seq<Shape>, o: Vec3, d: Vec3)
    ensures NearestHit(m, shapes, o, d).None?
        <==> forall i :: 0 <= i < |shapes| ==> Intersect(m, shapes[i], o, d, TMin, MaxValue).None?
  {
    ScanNoneIff(m, shapes, o, d, |shapes|);
  }

  /** The bound never increases from one shape to a later one. */
  lemma {:induction false} ScanBoundMonotone(m: Numerics, shapes: seq<Shape>, o: Vec3, d: Vec3, j: nat, k: nat)
    requires j <= k <= |shapes|
    ensures Scan(m, shapes, o, d, k).tmax <= Scan(m, shapes, o, d, j).tmax
  {
    if j < k {
      ScanBoundMonotone(m, shapes, o, d, j, k - 1);
    }
  }

  /** The result's parameter is the final bound. */
  lemma NearestHitAtBound(m: Numerics, shapes: seq<Shape>, o: Vec3, d: Vec3)
    requires NearestHit(m, shapes, o, d).Some?
    ensures NearestHit(m, shapes, o, d).value.t == Scan(m, shapes, o, d, |shapes|).tmax
    ensures TMin <= NearestHit(m, shapes, o, d).value.t
  {
  }

  /** The kept hit is the nearest: no shape reports a hit over the whole range
      at a smaller parameter than the one kept. */
  lemma {:induction false} ScanNearest(m: Numerics, shapes: seq<Shape>, o: Vec3, d: Vec3, k: nat, i: nat)
    requires i < k <= |shapes|
    requires Intersect(m, shapes[i], o, d, TMin, MaxValue).Some?
    ensures Scan(m, shapes, o, d, k).isect.Some?
    ensures Scan(m, shapes, o, d, k).tmax <= Intersect(m, shapes[i], o, d, TMin, MaxValue).value.t
  {
    if i < k - 1 {
      ScanNearest(m, shapes, o, d, k - 1, i);
    } else {
      var h := Intersect(m, shapes[i], o, d, TMin, MaxValue).value;
      var bound := Scan(m, shapes, o, d, i).tmax;
      if h.t < bound {
        IntersectShrink(m, shapes[i], o, d, TMin, MaxValue, bound);
      }
    }
  }

  lemma NearestHitIsNearest(m: Numerics, shapes: seq<Shape>, o: Vec3, d: Vec3, i: nat)
    requires i < |shapes|
    requires Intersect(m, shapes[i], o, d, TMin, MaxValue).Some?
    ensures NearestHit(m, shapes, o, d).Some?
    ensures NearestHit(m, shapes, o, d).value.t <= Intersect(m, shapes[i], o, d, TMin, MaxValue).value.t
  {
    ScanNearest(m, shapes, o, d, |shapes|, i);
  }

  /** The kept hit is the hit some shape already tried reported, with the
      bound that was current when that shape was tried. */
  lemma {:induction false} ScanKeepsShapeHit(m: Numerics, shapes: seq<Shape>, o: Vec3, d: Vec3, k: nat)
    requires k <= |shapes|
    ensures Scan(m, shapes, o, d, k).isect.Some? ==>
              exists j :: 0 <= j < k &&
                Scan(m, shapes, o, d, k).isect == Intersect(m, shapes[j], o, d, TMin, Scan(m, shapes, o, d, j).tmax)
  {
    if k > 0 {
      var prev := Scan(m, shapes, o, d, k - 1);
      var hit := Intersect(m, shapes[k - 1], o, d, TMin, prev.tmax);
      if hit.Some? {
        assert Scan(m, shapes, o, d, k).isect == hit;
        assert 0 <= k - 1 < k && hit == Intersect(m, shapes[k - 1], o, d, TMin, Scan(m, shapes, o, d, k - 1).tmax);
      } else {
        assert Scan(m, shapes, o, d, k) == prev;
        ScanKeepsShapeHit(m, shapes, o, d, k - 1);
        if prev.isect.Some? {
          var j :| 0 <= j < k - 1 && prev.isect == Intersect(m, shapes[j], o, d, TMin, Scan(m, shapes, o, d, j).tmax);
          assert 0 <= j < k;
        }
      }
    }
  }

  /** The returned hit is one a shape of the scene reports over the whole
      range [TMin, MaxValue], so its position, normal and material are that
      shape's. With NearestHitIsNearest, it is the nearest such hit. */
  lemma NearestHitIsShapeHit(m: Numerics, shapes: seq<Shape>, o: Vec3, d: Vec3)
    requires m.Valid() && NearestHit(m, shapes, o, d).Some?
    ensures exists j :: 0 <= j < |shapes| && NearestHit(m, shapes, o, d) == Intersect(m, shapes[j], o, d, TMin, MaxValue)
  {
    ScanKeepsShapeHit(m, shapes, o, d, |shapes|);
    var j :| 0 <= j < |shapes| &&
             NearestHit(m, shapes, o, d) == Intersect(m, shapes[j], o, d, TMin, Scan(m, shapes, o, d, j).tmax);
    IntersectGrow(m, shapes[j], o, d, TMin, Scan(m, shapes, o, d, j).tmax, MaxValue);
  }

  /** Tie-break, sphere side: a sphere tried after a hit at parameter T never
      replaces that hit with another one at T. */
  lemma SphereTieKeeps(m: Numerics, shapes: seq<Shape>, o: Vec3, d: Vec3, k: nat)
    requires k < |shapes| && shapes[k].Sphere?
    requires Scan(m, shapes, o, d, k + 1).tmax == Scan(m, shapes, o, d, k).tmax
    ensures Scan(m, shapes, o, d, k + 1) == Scan(m, shapes, o, d, k)
  {
    var prev := Scan(m, shapes, o, d, k);
    if Intersect(m, shapes[k], o, d, TMin, prev.tmax).Some? {
      SphereStrict(m, shapes[k], o, d, TMin, prev.tmax);
    }
  }

  /** Tie-break, plane side: a plane tried after a hit at parameter T, which
      the ray crosses exactly at T, replaces the kept hit with its own. */
  lemma PlaneTieReplaces(m: Numerics, shapes: seq<Shape>, o: Vec3, d: Vec3, k: nat)
    requires k < |shapes| && shapes[k].Plane? && Dot(d, shapes[k].n) != 0.0
    requires Scan(m, shapes, o, d, k).isect.Some?
    requires PlaneCrossing(shapes[k].P0, shapes[k].n, o, d) == Scan(m, shapes, o, d, k).tmax
    ensures Scan(m, shapes, o, d, k + 1).tmax == Scan(m, shapes, o, d, k).tmax
    ensures Scan(m, shapes, o, d, k + 1).isect.Some?
    ensures Scan(m, shapes, o, d, k + 1).isect.value.normal == shapes[k].n
    ensures Scan(m, shapes, o, d, k + 1).isect.value.material == shapes[k].material
  {
    PlaneInclusive(m, shapes[k], o, d, TMin, Scan(m, shapes, o, d, k).tmax);
  }

  /** Tie-break, triangle side: a triangle tried after a hit at parameter T,
      whose solved parameter is exactly T with weights inside the triangle,
      replaces the kept hit with its own. */
  lemma TriangleTieReplaces(m: Numerics, shapes: seq<Shape>, o: Vec3, d: Vec3, k: nat)
    requires k < |shapes| && shapes[k].Triangle?
    requires Scan(m, shapes, o, d, k).isect.Some?
    requires var s := shapes[k];
             var tab := TriangleSolve(m, s.P0, s.P1, s.P2, o, d);
             tab.x == Scan(m, shapes, o, d, k).tmax && 0.0 <= tab.y && 0.0 <= tab.z && tab.y + tab.z <= 1.0
    ensures Scan(m, shapes, o, d, k + 1).tmax == Scan(m, shapes, o, d, k).tmax
    ensures Scan(m, shapes, o, d, k + 1).isect.Some?
    ensures Scan(m, shapes, o, d, k + 1).isect == Intersect(m, shapes[k], o, d, TMin, Scan(m, shapes, o, d, k).tmax)
    ensures Scan(m, shapes, o, d, k + 1).isect.value.material == shapes[k].material
  {
    TriangleInclusive(m, shapes[k], o, d, TMin, Scan(m, shapes, o, d, k).tmax);
  }
}
