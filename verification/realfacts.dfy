/** Facts about real products that the geometry proofs need. Each names the
    product as a parameter (`p == a * b`), so that a caller only has to match
    the product and never reasons about the signs of products itself. */
module RealFacts {

  lemma ProductPositive(a: real, b: real, p: real)
    requires 0.0 < a && 0.0 < b && p == a * b
    ensures 0.0 < p
  {
  }

  lemma SquarePositive(s: real, p: real)
    requires s != 0.0 && p == s * s
    ensures 0.0 < p
  {
    if 0.0 < s {
      ProductPositive(s, s, p);
    } else {
      ProductPositive(-s, -s, p);
    }
  }

  lemma SquareNonNegative(s: real, p: real)
    requires p == s * s
    ensures 0.0 <= p
  {
    if s != 0.0 {
      SquarePositive(s, p);
    }
  }

  lemma SquareZero(s: real, p: real)
    requires p == s * s
    ensures p == 0.0 <==> s == 0.0
  {
    if s != 0.0 {
      SquarePositive(s, p);
    }
  }

  /** A product of two reals is zero only if one of them is. */
  lemma ZeroProduct(a: real, b: real, p: real)
    requires p == a * b && p == 0.0 && b != 0.0
    ensures a == 0.0
  {
    if 0.0 < a && 0.0 < b {
      ProductPositive(a, b, p);
    } else if 0.0 < a && b < 0.0 {
      ProductPositive(a, -b, -p);
    } else if a < 0.0 && 0.0 < b {
      ProductPositive(-a, b, -p);
    } else if a < 0.0 && b < 0.0 {
      ProductPositive(-a, -b, p);
    }
  }

  lemma UnitRoot(s: real)
    requires 0.0 <= s && s * s == 1.0
    ensures s == 1.0
  {
    ZeroProduct(s - 1.0, s + 1.0, s * s - 1.0);
  }

  lemma LagrangeReal(ax: real, ay: real, az: real, bx: real, bY: real, bz: real,
                     la: real, lb: real, dab: real, lc: real)
    requires la == ax * ax + ay * ay + az * az && lb == bx * bx + bY * bY + bz * bz
    requires dab == ax * bx + ay * bY + az * bz
    requires lc == (ay * bz - az * bY) * (ay * bz - az * bY) + (az * bx - ax * bz) * (az * bx - ax * bz)
                 + (ax * bY - ay * bx) * (ax * bY - ay * bx)
    ensures la * lb - dab * dab == lc
  {
  }

  lemma UnitBound(la: real, lb: real, d: real, lc: real)
    requires la == 1.0 && lb == 1.0 && la * lb - d * d == lc && 0.0 <= lc
    ensures d * d <= 1.0
  {
  }

  /** The roots `(-B ± s) / 2`, with `s² = B² - 4C`, solve `t² + B·t + C = 0`. */
  lemma QuadraticRoot(b: real, c: real, s: real, t: real)
    requires s * s == b * b - 4.0 * c
    requires t == (-b - s) / 2.0 || t == (-b + s) / 2.0
    ensures t * t + b * t + c == 0.0
  {
  }

  /** Every solution of `t² + B·t + C = 0` is one of the two roots, and the
      discriminant is then not negative. */
  lemma QuadraticRootsOnly(b: real, c: real, s: real, t: real)
    requires 0.0 <= s && s * s == b * b - 4.0 * c
    requires t * t + b * t + c == 0.0
    ensures t == (-b - s) / 2.0 || t == (-b + s) / 2.0
  {
    var t1 := (-b - s) / 2.0;
    var t2 := (-b + s) / 2.0;
    assert (t - t1) * (t - t2) == t * t + b * t + c;
    if t != t2 {
      ZeroProduct(t - t1, t - t2, (t - t1) * (t - t2));
    }
  }

  lemma QuadraticDiscriminant(b: real, c: real, t: real)
    requires t * t + b * t + c == 0.0
    ensures 0.0 <= b * b - 4.0 * c
  {
    var u := 2.0 * t + b;
    assert u * u == b * b - 4.0 * c;
    SquareNonNegative(u, u * u);
  }

  lemma DivideThenMultiply(a: real, b: real)
    requires b != 0.0
    ensures a / b * b == a
  {
  }

  lemma ProductNonNegative(a: real, b: real, p: real)
    requires 0.0 <= a && 0.0 <= b && p == a * b
    ensures 0.0 <= p
  {
    if a != 0.0 && b != 0.0 {
      ProductPositive(a, b, p);
    }
  }

  lemma TimesOne(a: real, one: real)
    requires one == 1.0
    ensures a * one == a
  {
  }

  /** `p = mu·s` with `s² = q` gives `p² = mu²·q`. */
  lemma ScaledSquare(mu: real, s: real, q: real, p: real)
    requires s * s == q && p == mu * s
    ensures p * p == mu * mu * q
  {
    assert p * p == mu * mu * (s * s);
  }

  /** (u·a + v·b)·w, multiplied out. */
  lemma MixTerm(u: real, v: real, w: real, a: real, b: real)
    ensures (u * a + v * b) * w == a * (u * w) + b * (v * w)
  {
  }

  lemma Distrib3(a: real, p: real, q: real, r: real)
    ensures a * (p + q + r) == a * p + a * q + a * r
  {
  }

  lemma ZeroSquare(c: real)
    requires c == 0.0
    ensures c * c <= 1.0
  {
  }
}
