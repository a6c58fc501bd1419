/** Exact-real stand-ins for the THREE.js value types the ray tracer is built
    on (Vector3, Color, Matrix3), and for the floating-point library calls it
    makes (Math.sqrt, Math.cos, `**`, division by a possibly-zero number,
    Matrix3.getInverse). Those calls stay uninterpreted: they are fields of a
    `Numerics` value, and `Numerics.Valid` states the only facts the proofs
    rely on. */
module Vectors {

  import opened RealFacts

  datatype Option<T> = None | Some(value: T)

  /** A THREE.Vector3 (a point or a direction). */
  datatype Vec3 = Vec3(x: real, y: real, z: real)

  const Zero := Vec3(0.0, 0.0, 0.0)

  function Add(a: Vec3, b: Vec3): Vec3 { Vec3(a.x + b.x, a.y + b.y, a.z + b.z) }

  function Sub(a: Vec3, b: Vec3): Vec3 { Vec3(a.x - b.x, a.y - b.y, a.z - b.z) }

  /** Vector3.multiplyScalar */
  function Scale(a: Vec3, s: real): Vec3 { Vec3(a.x * s, a.y * s, a.z * s) }

  /** Vector3.negate */
  function Neg(a: Vec3): Vec3 { Vec3(-a.x, -a.y, -a.z) }

  function Dot(a: Vec3, b: Vec3): real { a.x * b.x + a.y * b.y + a.z * b.z }

  /** Vector3.cross: `a × b` */
  function Cross(a: Vec3, b: Vec3): Vec3
  {
    Vec3(a.y * b.z - a.z * b.y, a.z * b.x - a.x * b.z, a.x * b.y - a.y * b.x)
  }

  function LengthSq(a: Vec3): real { Dot(a, a) }

  /** A THREE.Color. */
  datatype Color = Color(r: real, g: real, b: real)

  const Black := Color(0.0, 0.0, 0.0)

  function ColorAdd(a: Color, b: Color): Color { Color(a.r + b.r, a.g + b.g, a.b + b.b) }

  /** Color.multiply: component-wise product */
  function ColorMul(a: Color, b: Color): Color { Color(a.r * b.r, a.g * b.g, a.b * b.b) }

  /** Color.multiplyScalar */
  function ColorScale(a: Color, s: real): Color { Color(a.r * s, a.g * s, a.b * s) }

  predicate NonNegative(c: Color) { 0.0 <= c.r && 0.0 <= c.g && 0.0 <= c.b }

  /** A THREE.Matrix3, given by its rows (the argument order of Matrix3.set). */
  datatype Mat3 = Mat3(row1: Vec3, row2: Vec3, row3: Vec3)

  const Identity := Mat3(Vec3(1.0, 0.0, 0.0), Vec3(0.0, 1.0, 0.0), Vec3(0.0, 0.0, 1.0))

  /** Matrix3.elements: the nine entries in column-major order. */
  function Elements(a: Mat3): (e: seq<real>)
    ensures |e| == 9
    ensures e[0] == a.row1.x && e[1] == a.row2.x && e[2] == a.row3.x
    ensures e[3] == a.row1.y && e[4] == a.row2.y && e[5] == a.row3.y
    ensures e[6] == a.row1.z && e[7] == a.row2.z && e[8] == a.row3.z
  {
    [a.row1.x, a.row2.x, a.row3.x, a.row1.y, a.row2.y, a.row3.y, a.row1.z, a.row2.z, a.row3.z]
  }

  function Column1(a: Mat3): Vec3 { Vec3(a.row1.x, a.row2.x, a.row3.x) }
  function Column2(a: Mat3): Vec3 { Vec3(a.row1.y, a.row2.y, a.row3.y) }
  function Column3(a: Mat3): Vec3 { Vec3(a.row1.z, a.row2.z, a.row3.z) }

  function MatMul(a: Mat3, b: Mat3): Mat3
  {
    Mat3(Vec3(Dot(a.row1, Column1(b)), Dot(a.row1, Column2(b)), Dot(a.row1, Column3(b))),
         Vec3(Dot(a.row2, Column1(b)), Dot(a.row2, Column2(b)), Dot(a.row2, Column3(b))),
         Vec3(Dot(a.row3, Column1(b)), Dot(a.row3, Column2(b)), Dot(a.row3, Column3(b))))
  }

  function Det(a: Mat3): real { Dot(a.row1, Cross(a.row2, a.row3)) }

  /** The library calls the tracer makes, left uninterpreted. */
  datatype Numerics = Numerics(
    sqrt: real -> real,
    cos: real -> real,
    pow: (real, real) -> real,
    divide: (real, real) -> real,
    inverse: Mat3 -> Mat3)
  {
    /** What the proofs assume of the library: `sqrt` is the non-negative
        square root on non-negative arguments, `divide` is exact division
        whenever the divisor is not zero (what floating point returns for a
        zero divisor is left open), and `inverse` is the two-sided inverse of
        every nonsingular matrix (what it does on a singular one is left open). */
    ghost predicate Valid()
    {
      (forall x: real :: 0.0 <= x ==> 0.0 <= sqrt(x) && sqrt(x) * sqrt(x) == x) &&
      (forall a: real, b: real :: b != 0.0 ==> divide(a, b) == a / b) &&
      (forall a: Mat3 :: Det(a) != 0.0 ==>
         MatMul(inverse(a), a) == Identity && MatMul(a, inverse(a)) == Identity)
    }
  }

  /** Vector3.length */
  function Length(m: Numerics, v: Vec3): real { m.sqrt(LengthSq(v)) }

  /** Vector3.normalize: divide by the length, or by 1 when the length is 0. */
  function Normalize(m: Numerics, v: Vec3): Vec3
  {
    var len := Length(m, v);
    Scale(v, 1.0 / (if len == 0.0 then 1.0 else len))
  }

  lemma SqrtFacts(m: Numerics, x: real)
    requires m.Valid() && 0.0 <= x
    ensures 0.0 <= m.sqrt(x) && m.sqrt(x) * m.sqrt(x) == x
    ensures x == 0.0 <==> m.sqrt(x) == 0.0
  {
    var s := m.sqrt(x);
    assert 0.0 <= s && s * s == x;
    SquareZero(s, x);
  }

  lemma SqrtOne(m: Numerics)
    requires m.Valid()
    ensures m.sqrt(1.0) == 1.0
  {
    var s := m.sqrt(1.0);
    assert 0.0 <= s && s * s == 1.0;
    UnitRoot(s);
  }

  lemma LengthSqNonNegative(v: Vec3)
    ensures 0.0 <= LengthSq(v)
    ensures LengthSq(v) == 0.0 <==> v == Zero
  {
    SquareNonNegative(v.x, v.x * v.x);
    SquareNonNegative(v.y, v.y * v.y);
    SquareNonNegative(v.z, v.z * v.z);
    if v.x != 0.0 {
      SquarePositive(v.x, v.x * v.x);
    } else if v.y != 0.0 {
      SquarePositive(v.y, v.y * v.y);
    } else if v.z != 0.0 {
      SquarePositive(v.z, v.z * v.z);
    }
  }

  lemma LengthSqScale(v: Vec3, s: real)
    ensures LengthSq(Scale(v, s)) == s * s * LengthSq(v)
  {
  }

  /** A non-zero vector normalizes to a unit vector that points the same way. */
  lemma NormalizeUnit(m: Numerics, v: Vec3)
    requires m.Valid() && v != Zero
    ensures LengthSq(Normalize(m, v)) == 1.0
    ensures exists k: real :: 0.0 < k && Normalize(m, v) == Scale(v, k)
  {
    var q := LengthSq(v);
    LengthSqNonNegative(v);
    var len := m.sqrt(q);
    assert 0.0 <= len && len * len == q;
    assert len != 0.0;
    var k := 1.0 / len;
    assert Normalize(m, v) == Scale(v, k);
    LengthSqScale(v, k);
    assert k * k * q == 1.0 by {
      assert k * len == 1.0;
      calc {
        k * k * q;
        k * k * (len * len);
        (k * len) * (k * len);
      }
    }
    assert 0.0 < k;
  }

  /** A unit vector is its own normalization. */
  lemma NormalizeOfUnit(m: Numerics, v: Vec3)
    requires m.Valid() && LengthSq(v) == 1.0
    ensures Normalize(m, v) == v
  {
    SqrtOne(m);
  }

  lemma DotZeroLeft(v: Vec3)
    ensures Dot(Zero, v) == 0.0
  {
  }

  /** The zero vector normalizes to itself, whatever `sqrt` returns. */
  lemma NormalizeZero(m: Numerics)
    ensures Normalize(m, Zero) == Zero
  {
  }

  lemma Lagrange(a: Vec3, b: Vec3)
    ensures LengthSq(a) * LengthSq(b) - Dot(a, b) * Dot(a, b) == LengthSq(Cross(a, b))
  {
    LagrangeReal(a.x, a.y, a.z, b.x, b.y, b.z, LengthSq(a), LengthSq(b), Dot(a, b), LengthSq(Cross(a, b)));
  }

  /** Lagrange's identity, hence the Cauchy-Schwarz inequality for unit vectors. */
  lemma UnitDotBound(a: Vec3, b: Vec3)
    requires LengthSq(a) == 1.0 && LengthSq(b) == 1.0
    ensures Dot(a, b) * Dot(a, b) <= 1.0
  {
    Lagrange(a, b);
    LengthSqNonNegative(Cross(a, b));
    UnitBound(LengthSq(a), LengthSq(b), Dot(a, b), LengthSq(Cross(a, b)));
  }

  /** The dot product is linear in its first argument. */
  lemma DotMix(u: Vec3, v: Vec3, w: Vec3, a: real, b: real)
    ensures Dot(Add(Scale(u, a), Scale(v, b)), w) == a * Dot(u, w) + b * Dot(v, w)
  {
    MixTerm(u.x, v.x, w.x, a, b);
    MixTerm(u.y, v.y, w.y, a, b);
    MixTerm(u.z, v.z, w.z, a, b);
    Distrib3(a, u.x * w.x, u.y * w.y, u.z * w.z);
    Distrib3(b, v.x * w.x, v.y * w.y, v.z * w.z);
  }
}
