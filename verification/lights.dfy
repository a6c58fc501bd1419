/** Light sources and their samples at a shading point, and the area light
    built as a grid of point lights. */
module Lights {

  import opened RealFacts
  import opened Vectors

  /** A point light, or a spot light at `from` aimed at `to` whose cone has
      full opening angle `cutoff` degrees. */
  datatype Light =
    | PointLight(position: Vec3, intensity: Color)
    | SpotLight(from: Vec3, to: Vec3, intensity: Color, exponent: real, cutoff: real)

  /** A light's contribution at a shading point: the intensity that arrives,
      the light's position, and the unit direction from the point to the light. */
  datatype LightSample = LightSample(intensity: Color, position: Vec3, direction: Vec3)

  /** Math.PI */
  const Pi: real := 3.141592653589793

  /** PointLight.getLight: the intensity falls off with the squared distance. */
  function PointSample(m: Numerics, position: Vec3, intensity: Color, p: Vec3): LightSample
  {
    var toLight := Sub(position, p);
    LightSample(ColorScale(intensity, m.divide(1.0, LengthSq(toLight))), position, Normalize(m, toLight))
  }

  /** The cosine of the half opening angle of a spot light's cone. */
  function ConeCos(m: Numerics, cutoff: real): real { m.cos((cutoff * (Pi / 180.0)) / 2.0) }

  /** The cosine of the angle between the spot axis and the line to the point. */
  function SpotCos(m: Numerics, from: Vec3, to: Vec3, p: Vec3): real
  {
    Dot(Normalize(m, Sub(to, from)), Normalize(m, Sub(p, from)))
  }

  /** SpotLight.getLight: black outside the cone; inside it, the intensity is
      weighted by cos^exponent and falls off with the squared distance. */
  function SpotSample(m: Numerics, from: Vec3, to: Vec3, intensity: Color, exponent: real, cutoff: real,
                      p: Vec3): LightSample
  {
    var l := Normalize(m, Sub(p, from));
    var cosAlpha := SpotCos(m, from, to, p);
    var arriving :=
      if cosAlpha > ConeCos(m, cutoff) then
        ColorScale(intensity, m.divide(m.pow(cosAlpha, exponent), LengthSq(Sub(from, p))))
      else Black;
    LightSample(arriving, from, Neg(l))
  }

  /** light.getLight(shadingPoint). The sample's position is always the
      light's own position. */
  function GetLight(m: Numerics, light: Light, p: Vec3): (ls: LightSample)
    ensures ls.position == (if light.PointLight? then light.position else light.from)
  {
    match light
    case PointLight(position, intensity) => PointSample(m, position, intensity, p)
    case SpotLight(from, to, intensity, exponent, cutoff) => SpotSample(m, from, to, intensity, exponent, cutoff, p)
  }

  lemma ScaleInverse(c: Color, q: real)
    requires q != 0.0
    ensures ColorScale(ColorScale(c, 1.0 / q), q) == c
  {
    assert 1.0 / q * q == 1.0;
    assert c.r * (1.0 / q) * q == c.r * (1.0 / q * q);
    assert c.g * (1.0 / q) * q == c.g * (1.0 / q * q);
    assert c.b * (1.0 / q) * q == c.b * (1.0 / q * q);
  }

  /** A point light away from the shading point: the sample sits at the
      light, points from the shading point towards it with unit length, and
      carries the light's intensity divided by the squared distance (so the
      sample times the squared distance gives back the intensity). */
  lemma PointFalloff(m: Numerics, position: Vec3, intensity: Color, p: Vec3)
    requires m.Valid() && p != position
    ensures 0.0 < LengthSq(Sub(position, p))
    ensures var ls := GetLight(m, PointLight(position, intensity), p);
            && ls.position == position
            && ls.intensity == ColorScale(intensity, 1.0 / LengthSq(Sub(position, p)))
            && ColorScale(ls.intensity, LengthSq(Sub(position, p))) == intensity
            && LengthSq(ls.direction) == 1.0
            && exists k: real :: 0.0 < k && ls.direction == Scale(Sub(position, p), k)
  {
    var toLight := Sub(position, p);
    assert toLight != Zero;
    LengthSqNonNegative(toLight);
    NormalizeUnit(m, toLight);
    ScaleInverse(intensity, LengthSq(toLight));
  }

  /** Outside the cone (cos alpha not above the cone's cosine) a spot light
      sends nothing. */
  lemma SpotOutsideCone(m: Numerics, from: Vec3, to: Vec3, intensity: Color, exponent: real, cutoff: real, p: Vec3)
    requires SpotCos(m, from, to, p) <= ConeCos(m, cutoff)
    ensures GetLight(m, SpotLight(from, to, intensity, exponent, cutoff), p).intensity == Black
  {
  }

  /** Inside the cone the intensity is weighted by cos^exponent and divided by
      the squared distance to the light. */
  lemma SpotInsideCone(m: Numerics, from: Vec3, to: Vec3, intensity: Color, exponent: real, cutoff: real, p: Vec3)
    requires m.Valid() && p != from
    requires SpotCos(m, from, to, p) > ConeCos(m, cutoff)
    ensures 0.0 < LengthSq(Sub(from, p))
    ensures GetLight(m, SpotLight(from, to, intensity, exponent, cutoff), p).intensity
         == ColorScale(intensity, m.pow(SpotCos(m, from, to, p), exponent) / LengthSq(Sub(from, p)))
  {
    assert Sub(from, p) != Zero;
    LengthSqNonNegative(Sub(from, p));
  }

  /** Inside the cone or not, the sample of a spot light sits at `from` and
      its direction is the unit vector from the shading point towards `from`;
      the cosine it is gated on lies in [-1, 1]. */
  lemma SpotGeometry(m: Numerics, from: Vec3, to: Vec3, intensity: Color, exponent: real, cutoff: real, p: Vec3)
    requires m.Valid() && p != from
    ensures var ls := GetLight(m, SpotLight(from, to, intensity, exponent, cutoff), p);
            && ls.position == from
            && LengthSq(ls.direction) == 1.0
            && (exists k: real :: 0.0 < k && ls.direction == Scale(Sub(from, p), k))
            && SpotCos(m, from, to, p) * SpotCos(m, from, to, p) <= 1.0
  {
    TowardsLight(m, from, p);
    SpotCosBound(m, from, to, p);
  }

  /** The reversed unit vector from a light at `from` to a point p is the unit
      vector from p towards the light. */
  lemma TowardsLight(m: Numerics, from: Vec3, p: Vec3)
    requires m.Valid() && p != from
    ensures LengthSq(Neg(Normalize(m, Sub(p, from)))) == 1.0
    ensures exists k: real :: 0.0 < k && Neg(Normalize(m, Sub(p, from))) == Scale(Sub(from, p), k)
  {
    var w := Sub(p, from);
    assert w != Zero;
    NormalizeUnit(m, w);
    var k :| 0.0 < k && Normalize(m, w) == Scale(w, k);
    assert Neg(Normalize(m, w)) == Scale(Sub(from, p), k);
  }

  /** The spot cosine lies in [-1, 1]; a spot aimed at its own position has
      a zero axis and a cosine of 0. */
  lemma SpotCosBound(m: Numerics, from: Vec3, to: Vec3, p: Vec3)
    requires m.Valid() && p != from
    ensures SpotCos(m, from, to, p) * SpotCos(m, from, to, p) <= 1.0
  {
    if to == from {
      SpotZeroAxis(m, from, to, p);
    } else {
      SpotCosUnitBound(m, from, to, p);
    }
  }

  /** A spot aimed at its own position has a zero axis, so its cosine is 0. */
  lemma SpotZeroAxis(m: Numerics, from: Vec3, to: Vec3, p: Vec3)
    requires to == from
    ensures SpotCos(m, from, to, p) == 0.0
    ensures SpotCos(m, from, to, p) * SpotCos(m, from, to, p) <= 1.0
  {
    assert Sub(to, from) == Zero;
    NormalizeZero(m);
    DotZeroLeft(Normalize(m, Sub(p, from)));
    ZeroSquare(SpotCos(m, from, to, p));
  }

  lemma SpotCosUnitBound(m: Numerics, from: Vec3, to: Vec3, p: Vec3)
    requires m.Valid() && p != from && to != from
    ensures SpotCos(m, from, to, p) * SpotCos(m, from, to, p) <= 1.0
  {
    assert Sub(p, from) != Zero && Sub(to, from) != Zero;
    NormalizeUnit(m, Sub(p, from));
    NormalizeUnit(m, Sub(to, from));
    UnitDotBound(Normalize(m, Sub(to, from)), Normalize(m, Sub(p, from)));
  }

  // ---------------------------------------------------------------- area light

  /** The global list of lights, which the area light appends to. */
  class LightList {
    var lights: seq<Light>

    constructor (initial: seq<Light>)
      ensures lights == initial
    {
      lights := initial;
    }
  }

  /** A colour object the caller owns and the area light scales in place. */
  class ColorRef {
    var value: Color

    constructor (c: Color)
      ensures value == c
    {
      value := c;
    }
  }

  /** size·size/Ns/Ns: the share of the total intensity each sample carries. */
  function AreaFactor(m: Numerics, size: real, ns: int): real
  {
    m.divide(m.divide(size * size, ns as real), ns as real)
  }

  /** The position of sample (i, j), for column i and row j. */
  function AreaPosition(center: Vec3, size: real, ns: int, i: int, j: int): Vec3
    requires ns > 0
  {
    Vec3(center.x + ((i as real) / (ns as real) - 0.5) * size, center.y,
         center.z + ((j as real) / (ns as real) - 0.5) * size)
  }

  /** Row j of the grid: the samples for i = 0 .. Ns-1. */
  function AreaRow(center: Vec3, size: real, intensity: Color, ns: int, j: int): (row: seq<Light>)
    requires ns > 0
    ensures |row| == ns
  {
    seq(ns, i requires 0 <= i < ns => PointLight(AreaPosition(center, size, ns, i, j), intensity))
  }

  /** The first `rows` rows of the grid, row after row. */
  function AreaGrid(center: Vec3, size: real, intensity: Color, ns: int, rows: nat): (g: seq<Light>)
    requires rows == 0 || ns > 0
  {
    if rows == 0 then []
    else AreaGrid(center, size, intensity, ns, rows - 1) + AreaRow(center, size, intensity, ns, rows - 1)
  }

  /** The lights createAreaLight appends: Ns rows of Ns samples, none when Ns <= 0. */
  function AreaLights(center: Vec3, size: real, intensity: Color, ns: int): seq<Light>
  {
    if ns <= 0 then [] else AreaGrid(center, size, intensity, ns, ns)
  }

  /** createAreaLight: scales the caller's intensity in place by the share
      each sample carries, then appends the Ns × Ns samples, j (the z offset)
      in the outer loop and i (the x offset) in the inner one. */
  method CreateAreaLight(m: Numerics, list: LightList, center: Vec3, size: real, intensity: ColorRef, ns: int)
    modifies list, intensity
    ensures intensity.value == ColorScale(old(intensity.value), AreaFactor(m, size, ns))
    ensures list.lights == old(list.lights) + AreaLights(center, size, intensity.value, ns)
  {
    intensity.value := ColorScale(intensity.value, m.divide(m.divide(size * size, ns as real), ns as real));
    var scaled := intensity.value;
    var j := 0;
    while j < ns
      modifies list
      invariant 0 <= j && (j == 0 || j <= ns)
      invariant list.lights == old(list.lights) + AreaGrid(center, size, scaled, ns, j)
    {
      var i := 0;
      while i < ns
        modifies list
        invariant 0 <= i <= ns
        invariant list.lights == old(list.lights) + AreaGrid(center, size, scaled, ns, j)
                                 + AreaRow(center, size, scaled, ns, j)[..i]
      {
        var position := Vec3(center.x + ((i as real) / (ns as real) - 0.5) * size, center.y,
                             center.z + ((j as real) / (ns as real) - 0.5) * size);
        list.lights := list.lights + [PointLight(position, scaled)];
        ghost var row := AreaRow(center, size, scaled, ns, j);
        assert row[i] == PointLight(AreaPosition(center, size, ns, i, j), scaled);
        assert AreaPosition(center, size, ns, i, j) == position;
        assert row[..i + 1] == row[..i] + [row[i]];
        i := i + 1;
      }
      assert AreaRow(center, size, scaled, ns, j)[..ns] == AreaRow(center, size, scaled, ns, j);
      assert AreaGrid(center, size, scaled, ns, j + 1)
          == AreaGrid(center, size, scaled, ns, j) + AreaRow(center, size, scaled, ns, j);
      j := j + 1;
    }
  }

  lemma {:induction false} AreaGridAt(center: Vec3, size: real, intensity: Color, ns: int, rows: nat, i: int, j: int)
    requires ns > 0 && 0 <= i < ns && 0 <= j < rows
    ensures |AreaGrid(center, size, intensity, ns, rows)| == rows * ns
    ensures j * ns + i < rows * ns
    ensures AreaGrid(center, size, intensity, ns, rows)[j * ns + i]
         == PointLight(AreaPosition(center, size, ns, i, j), intensity)
  {
    AreaGridLength(center, size, intensity, ns, rows - 1);
    if j < rows - 1 {
      AreaGridAt(center, size, intensity, ns, rows - 1, i, j);
    } else {
      assert j * ns + i == (rows - 1) * ns + i;
    }
  }

  lemma {:induction false} AreaGridLength(center: Vec3, size: real, intensity: Color, ns: int, rows: nat)
    requires rows == 0 || ns > 0
    ensures |AreaGrid(center, size, intensity, ns, rows)| == rows * (if rows == 0 then 0 else ns)
  {
    if rows > 0 {
      AreaGridLength(center, size, intensity, ns, rows - 1);
    }
  }

  /** The area light contributes Ns² samples (none for Ns <= 0); the one at
      offset j·Ns + i is at (center.x + (i/Ns - 0.5)·size, center.y,
      center.z + (j/Ns - 0.5)·size) and carries the scaled intensity. */
  lemma AreaLightLayout(center: Vec3, size: real, intensity: Color, ns: int, i: int, j: int)
    ensures |AreaLights(center, size, intensity, ns)| == if ns > 0 then ns * ns else 0
    ensures ns > 0 && 0 <= i < ns && 0 <= j < ns ==>
              j * ns + i < ns * ns &&
              AreaLights(center, size, intensity, ns)[j * ns + i]
              == PointLight(Vec3(center.x + ((i as real) / (ns as real) - 0.5) * size, center.y,
                                 center.z + ((j as real) / (ns as real) - 0.5) * size), intensity)
  {
    if ns > 0 {
      AreaGridLength(center, size, intensity, ns, ns);
      if 0 <= i < ns && 0 <= j < ns {
        AreaGridAt(center, size, intensity, ns, ns, i, j);
      }
    }
  }

  /** The sum of the intensities of a list of lights. */
  function TotalIntensity(lights: seq<Light>): Color
  {
    if lights == [] then Black
    else ColorAdd(TotalIntensity(lights[..|lights| - 1]), lights[|lights| - 1].intensity)
  }

  lemma {:induction false} TotalIntensityAppend(a: seq<Light>, b: seq<Light>)
    ensures TotalIntensity(a + b) == ColorAdd(TotalIntensity(a), TotalIntensity(b))
  {
    if b != [] {
      assert (a + b)[..|a + b| - 1] == a + b[..|b| - 1];
      TotalIntensityAppend(a, b[..|b| - 1]);
    } else {
      assert a + b == a;
    }
  }

  lemma {:induction false} TotalIntensityRow(center: Vec3, size: real, intensity: Color, ns: int, j: int, k: nat)
    requires ns > 0 && k <= ns
    ensures TotalIntensity(AreaRow(center, size, intensity, ns, j)[..k]) == ColorScale(intensity, k as real)
  {
    var row := AreaRow(center, size, intensity, ns, j);
    if k > 0 {
      assert row[..k][..k - 1] == row[..k - 1];
      TotalIntensityRow(center, size, intensity, ns, j, k - 1);
      ScaleAdd(intensity, (k - 1) as real, 1.0);
      assert (k - 1) as real + 1.0 == k as real;
    }
  }

  lemma {:induction false} TotalIntensityGrid(center: Vec3, size: real, intensity: Color, ns: int, rows: nat)
    requires ns > 0
    ensures TotalIntensity(AreaGrid(center, size, intensity, ns, rows)) == ColorScale(intensity, (rows * ns) as real)
  {
    if rows > 0 {
      var row := AreaRow(center, size, intensity, ns, rows - 1);
      var before := AreaGrid(center, size, intensity, ns, rows - 1);
      var a := (rows - 1) * ns;
      calc {
        TotalIntensity(AreaGrid(center, size, intensity, ns, rows));
        { TotalIntensityAppend(before, row); }
        ColorAdd(TotalIntensity(before), TotalIntensity(row));
        { TotalIntensityGrid(center, size, intensity, ns, rows - 1); }
        ColorAdd(ColorScale(intensity, a as real), TotalIntensity(row));
        { TotalIntensityRow(center, size, intensity, ns, rows - 1, ns);
          assert row[..ns] == row; }
        ColorAdd(ColorScale(intensity, a as real), ColorScale(intensity, ns as real));
        { ScaleAdd(intensity, a as real, ns as real); }
        ColorScale(intensity, a as real + ns as real);
        { NextRow(rows, ns); }
        ColorScale(intensity, (rows * ns) as real);
      }
    }
  }

  lemma NextRow(r: int, n: int)
    ensures ((r - 1) * n) as real + n as real == (r * n) as real
  {
    assert (r - 1) * n + n == r * n;
  }

  lemma ScaleAdd(c: Color, a: real, b: real)
    ensures ColorAdd(ColorScale(c, a), ColorScale(c, b)) == ColorScale(c, a + b)
  {
  }

  /** The samples share out the intensity: together the Ns² lights carry
      size² times the intensity the caller passed in. */
  lemma AreaLightPower(m: Numerics, center: Vec3, size: real, intensity: Color, ns: int)
    requires m.Valid() && ns > 0
    ensures TotalIntensity(AreaLights(center, size, ColorScale(intensity, AreaFactor(m, size, ns)), ns))
         == ColorScale(intensity, size * size)
  {
    var f := AreaFactor(m, size, ns);
    TotalIntensityGrid(center, size, ColorScale(intensity, f), ns, ns);
    assert f == size * size / (ns as real) / (ns as real);
    FactorTimesSquare(size * size, ns, f);
    ScaleTwice(intensity, f, (ns * ns) as real, size * size);
  }

  lemma FactorTimesSquare(a: real, ns: int, f: real)
    requires ns > 0 && f == a / (ns as real) / (ns as real)
    ensures f * ((ns * ns) as real) == a
  {
    var n := ns as real;
    assert (ns * ns) as real == n * n;
    assert f * n == a / n;
    assert a / n * n == a;
  }

  lemma ScaleTwice(c: Color, a: real, b: real, p: real)
    requires a * b == p
    ensures ColorScale(ColorScale(c, a), b) == ColorScale(c, p)
  {
  }
}
