/** Jacobian point arithmetic on secp224r1, and the affine group law it computes. */
module JacobianP224 {
  import opened Arithmetic
  import opened FieldP224
  import opened AffineP224
  import opened NumberTheory
  import opened Residues

  /** The field elements of one Jacobian point: x = X/Z^2, y = Y/Z^3, infinity when Z is zero. */
  datatype Triple = Triple(x: nat, y: nat, z: nat)

  // ---- the formulas over the integers ------------------------------------------------------

  lemma MulHom(a: nat, i: int, b: nat, j: int)
    requires Cong(a, i, P) && Cong(b, j, P)
    ensures Cong(FMul(a, b), i * j, P)
  {
    CongMul(a, i, b, j, P);
    CongMod(a * b, P);
    CongTrans(FMul(a, b), a * b, i * j, P);
  }

  lemma AddHom(a: nat, i: int, b: nat, j: int)
    requires Cong(a, i, P) && Cong(b, j, P)
    ensures Cong(FAdd(a, b), i + j, P) && Cong(FSub(a, b), i - j, P)
  {
    CongAdd(a, i, b, j, P);
    CongMod(a + b, P);
    CongTrans(FAdd(a, b), a + b, i + j, P);
    CongMod(a - b, P);
    CongTrans(FSub(a, b), a - b, i - j, P);
  }

  /** The steps of the doubling code on field elements. */
  ghost function DoubleSteps(t: Triple): (r: Triple)
    ensures r.x < P && r.y < P && r.z < P
  {
    var delta := FMul(t.z, t.z);
    var gamma := FMul(t.y, t.y);
    var beta := FMul(t.x, gamma);
    var third := FMul(FSub(t.x, delta), FAdd(t.x, delta));
    var alpha := FAdd(FAdd(third, third), third);
    var beta2 := FAdd(beta, beta);
    var beta4 := FAdd(beta2, beta2);
    var x := FSub(FMul(alpha, alpha), FAdd(beta4, beta4));
    var sum := FAdd(t.y, t.z);
    var z := FSub(FSub(FMul(sum, sum), gamma), delta);
    var square := FMul(gamma, gamma);
    var square2 := FAdd(square, square);
    var square4 := FAdd(square2, square2);
    var y := FSub(FMul(alpha, FSub(beta4, x)), FAdd(square4, square4));
    Triple(x, y, z)
  }

  /** The tangent numerator 3(x - z^2)(x + z^2), three times x squared plus a for a = -3. */
  ghost function Alpha(x: int, z: int): int { 3 * ((x - z * z) * (x + z * z)) }
  ghost function Beta(x: int, y: int): int { x * (y * y) }
  ghost function DoubledX(x: int, y: int, z: int): int { Alpha(x, z) * Alpha(x, z) - 8 * Beta(x, y) }
  ghost function DoubledZ(y: int, z: int): int { (y + z) * (y + z) - y * y - z * z }
  ghost function DoubledY(x: int, y: int, z: int): int {
    Alpha(x, z) * (4 * Beta(x, y) - DoubledX(x, y, z)) - 8 * ((y * y) * (y * y))
  }

  lemma FourTimes(a: nat, i: int)
    requires Cong(a, i, P)
    ensures var two := FAdd(a, a);
            var four := FAdd(two, two);
            Cong(four, 4 * i, P) && Cong(FAdd(four, four), 8 * i, P)
  {
    hide Cong, FAdd;
    AddHom(a, i, a, i);
    var two := FAdd(a, a);
    AddHom(two, i + i, two, i + i);
    var four := FAdd(two, two);
    AddHom(four, 4 * i, four, 4 * i);
  }

  lemma AlphaSteps(t: Triple, x: int, z: int)
    requires Cong(t.x, x, P) && Cong(t.z, z, P)
    ensures var delta := FMul(t.z, t.z);
            var third := FMul(FSub(t.x, delta), FAdd(t.x, delta));
            Cong(FAdd(FAdd(third, third), third), Alpha(x, z), P)
  {
    hide Cong, FMul, FAdd, FSub;
    var delta, zz := FMul(t.z, t.z), z * z;
    MulHom(t.z, z, t.z, z);
    AddHom(t.x, x, delta, zz);
    MulHom(FSub(t.x, delta), x - zz, FAdd(t.x, delta), x + zz);
    var third, w := FMul(FSub(t.x, delta), FAdd(t.x, delta)), (x - zz) * (x + zz);
    AddHom(third, w, third, w);
    AddHom(FAdd(third, third), w + w, third, w);
  }

  /** The doubling steps compute the doubling polynomials at any integers congruent to the inputs. */
  lemma DoubleStepsMean(t: Triple, x: int, y: int, z: int)
    requires Cong(t.x, x, P) && Cong(t.y, y, P) && Cong(t.z, z, P)
    ensures var r := DoubleSteps(t);
            && Cong(r.x, DoubledX(x, y, z), P)
            && Cong(r.y, DoubledY(x, y, z), P)
            && Cong(r.z, DoubledZ(y, z), P)
  {
    hide Cong, FMul, FAdd, FSub, Alpha;
    MulHom(t.z, z, t.z, z);
    AddHom(t.y, y, t.z, z);
    var sum := FAdd(t.y, t.z);
    MulHom(sum, y + z, sum, y + z);
    MulHom(t.y, y, t.y, y);
    AddHom(FMul(sum, sum), (y + z) * (y + z), FMul(t.y, t.y), y * y);
    AddHom(FSub(FMul(sum, sum), FMul(t.y, t.y)), (y + z) * (y + z) - y * y, FMul(t.z, t.z), z * z);
    assert Cong(FSub(FSub(FMul(sum, sum), FMul(t.y, t.y)), FMul(t.z, t.z)), DoubledZ(y, z), P);
    hide DoubledZ;
    AlphaSteps(t, x, z);
    var delta, gamma, yy := FMul(t.z, t.z), FMul(t.y, t.y), y * y;
    var beta, b := FMul(t.x, gamma), Beta(x, y);
    MulHom(t.x, x, gamma, yy);
    hide Beta;
    FourTimes(beta, b);
    var third := FMul(FSub(t.x, delta), FAdd(t.x, delta));
    var alpha, a := FAdd(FAdd(third, third), third), Alpha(x, z);
    MulHom(alpha, a, alpha, a);
    var beta4 := FAdd(FAdd(beta, beta), FAdd(beta, beta));
    AddHom(FMul(alpha, alpha), a * a, FAdd(beta4, beta4), 8 * b);
    var rx, dx := FSub(FMul(alpha, alpha), FAdd(beta4, beta4)), DoubledX(x, y, z);
    assert Cong(rx, dx, P);
    hide DoubledX;
    MulHom(gamma, yy, gamma, yy);
    var square := FMul(gamma, gamma);
    FourTimes(square, yy * yy);
    var square4 := FAdd(FAdd(square, square), FAdd(square, square));
    AddHom(beta4, 4 * b, rx, dx);
    MulHom(alpha, a, FSub(beta4, rx), 4 * b - dx);
    AddHom(FMul(alpha, FSub(beta4, rx)), a * (4 * b - dx), FAdd(square4, square4), 8 * (yy * yy));
  }

  // ---- representation ----------------------------------------------------------------------

  ghost function Square(z: int): int { z * z }
  ghost function Cube(z: int): int { z * z * z }

  /** The affine point a triple stands for. */
  ghost predicate Represents(t: Triple, p: Point) {
    && t.x < P && t.y < P && t.z < P
    && if t.z == 0 then p.Infinity?
       else p.Affine? && p.x < P && p.y < P
            && Cong(t.x, p.x * Square(t.z), P) && Cong(t.y, p.y * Cube(t.z), P)
  }

  lemma Same(a: int)
    ensures Cong(a, a, P)
  {
    CongIntro(a, a, P, 0);
  }

  ghost predicate ThirdFormulas(p: Point, q: Point, c: int, a: int, x: int, y: int)
    requires p.Affine? && q.Affine?
  {
    && x == a * a - (p.x + q.x) * (c * c)
    && y == a * (p.x * (c * c) - x) - p.y * (c * c * c)
  }

  /**
   * The line through (u, v) of slope s, with every coordinate scaled by c: a line slope a that is
   * s * c, an abscissa formula and an ordinate formula give the scaled third point.
   */
  lemma ScaledThird(p: Point, q: Point, s: nat, c: int, a: int, x: int, y: int)
    requires p.Affine? && q.Affine? && Cong(a, s * c, P) && ThirdFormulas(p, q, c, a, x, y)
    ensures var r := ThirdPoint(p, q, s);
            Cong(x, r.x * Square(c), P) && Cong(y, r.y * Cube(c), P)
  {
    hide Cong;
    var r := ThirdPoint(p, q, s);
    var u, cc := s * s - p.x - q.x, c * c;
    CongMul(a, s * c, a, s * c, P);
    ScaledSquare(s, c);
    Same((p.x + q.x) * cc);
    CongAdd(a * a, s * s * cc, (p.x + q.x) * cc, (p.x + q.x) * cc, P);
    assert u * cc == s * s * cc - (p.x + q.x) * cc;
    CongMod(u, P);
    Same(cc);
    CongMul(u, r.x, cc, cc, P);
    CongTrans(x, u * cc, r.x * cc, P);
    ScaledOrdinate(p, r.x, s, c, a, x);
    var w, ccc := s * (p.x - r.x) - p.y, c * c * c;
    CongMod(w, P);
    Same(ccc);
    CongMul(w, r.y, ccc, ccc, P);
    CongTrans(y, w * ccc, r.y * ccc, P);
  }

  lemma ScaledSquare(s: int, c: int)
    ensures s * c * (s * c) == s * s * (c * c)
  {
    var k := s * c;
    assert k * k == s * (c * k);
    assert c * k == s * (c * c);
    MulAssoc(s, s, c * c);
  }

  lemma ScaledOrdinate(p: Point, rx: int, s: int, c: int, a: int, x: int)
    requires p.Affine? && Cong(a, s * c, P) && Cong(x, rx * (c * c), P)
    ensures Cong(a * (p.x * (c * c) - x) - p.y * (c * c * c),
                 (s * (p.x - rx) - p.y) * (c * c * c), P)
  {
    hide Cong;
    var cc, ccc := c * c, c * c * c;
    Same(p.x * cc);
    CongAdd(p.x * cc, p.x * cc, x, rx * cc, P);
    var d := p.x - rx;
    assert p.x * cc - rx * cc == d * cc;
    CongMul(a, s * c, p.x * cc - x, d * cc, P);
    assert s * c * (d * cc) == s * d * ccc by {
      MulAssoc(s, c, d * cc);
      assert c * (d * cc) == d * ccc;
      MulAssoc(s, d, ccc);
    }
    Same(p.y * ccc);
    CongAdd(a * (p.x * cc - x), s * d * ccc, p.y * ccc, p.y * ccc, P);
    assert (s * d - p.y) * ccc == s * d * ccc - p.y * ccc;
  }

  lemma NonzeroProduct(a: int, b: int)
    requires Prime(P) && !Cong(a, 0, P) && !Cong(b, 0, P)
    ensures !Cong(a * b, 0, P)
  {
    if Cong(a * b, 0, P) {
      EuclidLemma(a, b, P);
    }
  }

  lemma NonzeroCanonical(a: nat)
    requires a < P
    ensures Cong(a, 0, P) <==> a == 0
  {
    if Cong(a, 0, P) {
      CongCanonical(a, 0, P);
    }
  }

  /** The abscissa and ordinate weights may be taken at any value congruent to Z. */
  lemma Reweigh(t: Triple, r: Point, c: int, x: int, y: int)
    requires t.x < P && t.y < P && t.z < P && r.Affine? && r.x < P && r.y < P
    requires Cong(t.z, c, P) && !Cong(c, 0, P)
    requires Cong(t.x, x, P) && Cong(t.y, y, P)
    requires Cong(x, r.x * Square(c), P) && Cong(y, r.y * Cube(c), P)
    ensures Represents(t, r)
  {
    hide Cong;
    CongSym(t.z, c, P);
    CongMul(c, t.z, c, t.z, P);
    CongMul(c * c, t.z * t.z, c, t.z, P);
    Same(r.x);
    Same(r.y);
    CongMul(r.x, r.x, c * c, t.z * t.z, P);
    CongMul(r.y, r.y, c * c * c, t.z * t.z * t.z, P);
    CongTrans(t.x, x, r.x * (c * c), P);
    CongTrans(t.x, r.x * (c * c), r.x * (t.z * t.z), P);
    CongTrans(t.y, y, r.y * (c * c * c), P);
    CongTrans(t.y, r.y * (c * c * c), r.y * (t.z * t.z * t.z), P);
  }

  ghost function DoubledScale(w: int, z: int): int { 2 * (w * z) }

  /** The doubling polynomials at (u z^2, w, z), w being v z^3, with c = 2 w z. */
  lemma DoubledAlgebra(u: int, v: int, z: int, w: int, c: int)
    requires w == v * (z * z * z) && c == DoubledScale(w, z)
    ensures DoubledZ(w, z) == c
    ensures 8 * Beta(u * (z * z), w) == (u + u) * (c * c)
    ensures 4 * Beta(u * (z * z), w) == u * (c * c)
    ensures 8 * ((w * w) * (w * w)) == v * (c * c * c)
  {
    var zz, ww, k := z * z, w * w, w * z;
    assert (w + z) * (w + z) == ww + 2 * k + zz;
    assert k * k == ww * zz by {
      MulAssoc(w, z, k);
      assert z * k == w * zz;
      MulAssoc(w, w, zz);
    }
    assert c * c == 4 * (k * k);
    assert u * zz * ww == u * (ww * zz);
    assert u * (c * c) == 4 * (u * (ww * zz));
    assert c * c * c == 8 * (k * k * k);
    CubeOfProduct(w, z, v, k);
  }

  lemma CubeOfProduct(w: int, z: int, v: int, k: int)
    requires k == w * z && w == v * (z * z * z)
    ensures v * (k * k * k) == (w * w) * (w * w)
  {
    var zz, ww := z * z, w * w;
    assert k * k == ww * zz by {
      MulAssoc(w, z, k);
      assert z * k == w * zz;
      MulAssoc(w, w, zz);
    }
    assert k * k * k == (ww * w) * (zz * z) by {
      assert ww * zz * (w * z) == (ww * w) * (zz * z) by {
        Regroup(ww, zz, w, z);
      }
    }
    assert v * ((ww * w) * (zz * z)) == (ww * w) * (v * (zz * z));
    MulAssoc(ww, w, w);
  }

  lemma AlphaAlgebra(u: int, v: int, s: int, z: int, w: int, c: int)
    requires w == v * (z * z * z) && c == DoubledScale(w, z)
    ensures var q := (z * z) * (z * z);
            Alpha(u * (z * z), z) == (3 * u * u - 3) * q && s * c == s * (2 * v) * q
  {
    var zz := z * z;
    var q, k := zz * zz, u * zz;
    Regroup(u, zz, u, zz);
    assert (k - zz) * (k + zz) == k * k - q;
    assert w * z == v * q by {
      MulAssoc(v, zz * z, z);
      MulAssoc(zz, z, z);
    }
    MulAssoc(s, 2 * v, q);
  }

  lemma CongTimes(a: int, b: int, k: int, n: int, q: int)
    requires Cong(k, n, P) && a == n * q && b == k * q
    ensures Cong(a, b, P)
  {
    CongSym(k, n, P);
    Same(q);
    CongMul(n, k, q, q, P);
  }

  lemma AlphaScaled(p: Point, z: int, w: int, c: int)
    requires Prime(P) && p.Affine? && 0 < p.y < P
    requires w == p.y * Cube(z) && c == DoubledScale(w, z)
    ensures Cong(Alpha(p.x * Square(z), z), Slope(p, p) * c, P)
  {
    hide Prime, Slope, Cong, Alpha;
    TangentSlope(p);
    var s, q := Slope(p, p), (z * z) * (z * z);
    AlphaAlgebra(p.x, p.y, s, z, w, c);
    CongTimes(Alpha(p.x * (z * z), z), s * c, s * (2 * p.y), 3 * p.x * p.x - 3, q);
  }

  /** The doubling code doubles the point: tangent, vertical tangent and infinity alike. */
  lemma DoubleRefines(t: Triple, p: Point)
    requires Prime(P) && Represents(t, p)
    ensures Represents(DoubleSteps(t), Sum(p, p))
  {
    var r := DoubleSteps(t);
    if t.z == 0 {
      DoubleInfinity(t);
    } else {
      DoubleFinite(t, p, r);
    }
  }

  lemma DoubleInfinity(t: Triple)
    requires t.x < P && t.y < P && t.z == 0
    ensures DoubleSteps(t).z == 0
  {
    hide Cong, FMul, FAdd, FSub;
    Same(t.x);
    Same(t.y);
    Same(0);
    DoubleStepsMean(t, t.x, t.y, 0);
    NonzeroCanonical(DoubleSteps(t).z);
  }

  lemma DoubleFinite(t: Triple, p: Point, r: Triple)
    requires Prime(P) && Represents(t, p) && t.z != 0 && r == DoubleSteps(t)
    ensures Represents(r, Sum(p, p))
  {
    hide Cong, Prime, DoubledX, DoubledY, DoubledZ, Alpha, Slope, ThirdPoint, Square, Cube,
      DoubledScale, ThirdFormulas, DoubleSteps;
    var u, w, z := p.x * Square(t.z), p.y * Cube(t.z), t.z;
    var c := DoubledScale(w, z);
    Same(z);
    DoubleStepsMean(t, u, w, z);
    DoubledPolynomials(p, u, w, z, c);
    if p.y == 0 {
      ZeroScale(z, w);
      NonzeroCanonical(r.z);
      assert Represents(r, Infinity);
    } else {
      NonzeroScale(p.y, z, w, c);
      AlphaScaled(p, z, w, c);
      DoubleNonzero(p.y);
      var x, y := DoubledX(u, w, z), DoubledY(u, w, z);
      ScaledThird(p, p, Slope(p, p), c, Alpha(u, z), x, y);
      NonzeroTransfer(r.z, c);
      ThirdPointCanonical(p, p, Slope(p, p));
      Reweigh(r, ThirdPoint(p, p, Slope(p, p)), c, x, y);
    }
  }

  lemma ThirdPointCanonical(p: Point, q: Point, s: nat)
    requires p.Affine? && q.Affine?
    ensures var r := ThirdPoint(p, q, s); r.Affine? && r.x < P && r.y < P
  {}

  lemma ZeroScale(z: int, w: int)
    requires w == 0 * Cube(z)
    ensures DoubledScale(w, z) == 0
  {}

  lemma NonzeroTransfer(a: nat, c: int)
    requires Cong(a, c, P) && !Cong(c, 0, P)
    ensures a != 0
  {
    if a == 0 {
      CongSym(a, c, P);
    }
  }

  lemma NonzeroScale(v: nat, z: nat, w: int, c: int)
    requires Prime(P) && 0 < v < P && 0 < z < P
    requires w == v * Cube(z) && c == DoubledScale(w, z)
    ensures !Cong(c, 0, P)
  {
    hide Cong, Prime;
    NonzeroCanonical(v);
    NonzeroCanonical(z);
    NonzeroCanonical(2);
    NonzeroProduct(z, z);
    NonzeroProduct(z * z, z);
    NonzeroProduct(v, z * z * z);
    NonzeroProduct(w, z);
    NonzeroProduct(2, w * z);
  }

  lemma DoubledPolynomials(p: Point, u: int, w: int, z: int, c: int)
    requires p.Affine? && u == p.x * Square(z) && w == p.y * Cube(z) && c == DoubledScale(w, z)
    ensures DoubledZ(w, z) == c
    ensures ThirdFormulas(p, p, c, Alpha(u, z), DoubledX(u, w, z), DoubledY(u, w, z))
  {
    hide Alpha, Beta, DoubledScale, DoubledZ;
    DoubledAlgebra(p.x, p.y, z, w, c);
  }

  // ---- addition ----------------------------------------------------------------------------

  /** x times the other point's z squared, and y times its z cubed. */
  ghost function ScaledX(x: nat, z: nat): (r: nat) ensures r < P { FMul(x, FMul(z, z)) }
  ghost function ScaledY(y: nat, z: nat): (r: nat) ensures r < P { FMul(y, FMul(z, FMul(z, z))) }

  /** The steps of the general case, from the first point's scaled x and y and the differences. */
  ghost function ChordSteps(lz: nat, rz: nat, scaledX: nat, line: nat, d: nat, e: nat): (r: Triple)
    ensures r.x < P && r.y < P && r.z < P
  {
    var slope := FAdd(e, e);
    var twice := FAdd(d, d);
    var square := FMul(twice, twice);
    var cube := FMul(d, square);
    var scaled := FMul(scaledX, square);
    var x := FSub(FSub(FMul(slope, slope), cube), FAdd(scaled, scaled));
    var product := FMul(line, cube);
    var y := FSub(FMul(slope, FSub(scaled, x)), FAdd(product, product));
    var sum := FAdd(lz, rz);
    var z := FMul(FSub(FSub(FMul(sum, sum), FMul(lz, lz)), FMul(rz, rz)), d);
    Triple(x, y, z)
  }

  /** The addition code on field elements, case by case. */
  ghost function AddSteps(l: Triple, r: Triple): Triple {
    if l.z == 0 then r
    else if r.z == 0 then l
    else
      var d := FSub(ScaledX(r.x, l.z), ScaledX(l.x, r.z));
      var e := FSub(ScaledY(r.y, l.z), ScaledY(l.y, r.z));
      if d == 0 then
        if e == 0 then DoubleSteps(l) else Triple(0, 0, 0)
      else ChordSteps(l.z, r.z, ScaledX(l.x, r.z), ScaledY(l.y, r.z), d, e)
  }

  /** Scaling by the other point's z brings both points to the common weight h * k. */
  lemma ScaleMeans(x: nat, y: nat, u: int, v: int, h: int, k: nat)
    requires Cong(x, u * Square(h), P) && Cong(y, v * Cube(h), P)
    ensures Cong(ScaledX(x, k), u * Square(h * k), P) && Cong(ScaledY(y, k), v * Cube(h * k), P)
  {
    hide Cong, FMul, Square, Cube;
    Same(k);
    MulHom(k, k, k, k);
    MulHom(k, k, FMul(k, k), k * k);
    MulHom(x, u * Square(h), FMul(k, k), k * k);
    MulHom(y, v * Cube(h), FMul(k, FMul(k, k)), k * (k * k));
    CommonWeight(u, v, h, k);
  }

  lemma CommonWeight(u: int, v: int, h: int, k: int)
    ensures u * Square(h) * (k * k) == u * Square(h * k)
    ensures v * Cube(h) * (k * (k * k)) == v * Cube(h * k)
  {
    var m := h * k;
    Regroup(h, k, h, k);
    MulAssoc(u, h * h, k * k);
    assert m * m * m == h * h * h * (k * (k * k)) by {
      Regroup(h * h, k * k, h, k);
      assert k * k * k == k * (k * k);
    }
    MulAssoc(v, h * h * h, k * (k * k));
  }

  lemma DifferenceMeans(a: nat, b: nat, u: int, w: int, m: int)
    requires Cong(a, u * m, P) && Cong(b, w * m, P)
    ensures Cong(FSub(b, a), (w - u) * m, P)
  {
    hide Cong, FSub;
    AddHom(b, w * m, a, u * m);
    assert (w - u) * m == w * m - u * m;
  }

  /** Z of the sum: 2 h k d for the scaled difference d. */
  ghost function ChordScale(h: int, k: int, d: int): int { 2 * (h * k * d) }

  lemma ChordStepsZ(lz: nat, rz: nat, d: nat, h: int, k: int, i: int)
    requires Cong(lz, h, P) && Cong(rz, k, P) && Cong(d, i, P)
    ensures var sum := FAdd(lz, rz);
            Cong(FMul(FSub(FSub(FMul(sum, sum), FMul(lz, lz)), FMul(rz, rz)), d),
                 ChordScale(h, k, i), P)
  {
    hide Cong, FMul, FAdd, FSub;
    MulHom(lz, h, lz, h);
    MulHom(rz, k, rz, k);
    AddHom(lz, h, rz, k);
    var sum, t := FAdd(lz, rz), (h + k) * (h + k);
    MulHom(sum, h + k, sum, h + k);
    AddHom(FMul(sum, sum), t, FMul(lz, lz), h * h);
    AddHom(FSub(FMul(sum, sum), FMul(lz, lz)), t - h * h, FMul(rz, rz), k * k);
    MulHom(FSub(FSub(FMul(sum, sum), FMul(lz, lz)), FMul(rz, rz)), t - h * h - k * k, d, i);
    ChordScaleAlgebra(h, k, i);
  }

  lemma ChordScaleAlgebra(h: int, k: int, i: int)
    ensures ((h + k) * (h + k) - h * h - k * k) * i == ChordScale(h, k, i)
  {
    var m := h * k;
    assert (h + k) * (h + k) == h * h + 2 * m + k * k;
  }

  /** The general case's x and y polynomials, and the steps that compute them. */
  lemma ChordStepsXY(lz: nat, rz: nat, scaledX: nat, line: nat, d: nat, e: nat,
                     u: int, v: int, i: int, j: int)
    requires Cong(scaledX, u, P) && Cong(line, v, P) && Cong(d, i, P) && Cong(e, j, P)
    ensures var r := ChordSteps(lz, rz, scaledX, line, d, e);
            && Cong(r.x, ChordX(u, i, j), P) && Cong(r.y, ChordY(u, v, i, j), P)
  {
    hide Cong, FMul, FAdd, FSub;
    AddHom(e, j, e, j);
    AddHom(d, i, d, i);
    var slope, twice := FAdd(e, e), FAdd(d, d);
    MulHom(twice, i + i, twice, i + i);
    var square, q := FMul(twice, twice), (i + i) * (i + i);
    MulHom(d, i, square, q);
    MulHom(scaledX, u, square, q);
    var cube, scaled := FMul(d, square), FMul(scaledX, square);
    var iq, uq := i * q, u * q;
    MulHom(slope, j + j, slope, j + j);
    AddHom(scaled, uq, scaled, uq);
    AddHom(FMul(slope, slope), (j + j) * (j + j), cube, iq);
    AddHom(FSub(FMul(slope, slope), cube), (j + j) * (j + j) - iq, FAdd(scaled, scaled), uq + uq);
    var x, cx := FSub(FSub(FMul(slope, slope), cube), FAdd(scaled, scaled)), ChordX(u, i, j);
    assert Cong(x, cx, P);
    hide ChordX;
    MulHom(line, v, cube, iq);
    var product := FMul(line, cube);
    AddHom(product, v * iq, product, v * iq);
    AddHom(scaled, uq, x, cx);
    MulHom(slope, j + j, FSub(scaled, x), uq - cx);
    AddHom(FMul(slope, FSub(scaled, x)), (j + j) * (uq - cx), FAdd(product, product), v * iq + v * iq);
  }

  ghost function ChordX(u: int, i: int, j: int): int {
    var q := (i + i) * (i + i);
    (j + j) * (j + j) - i * q - (u * q + u * q)
  }

  ghost function ChordY(u: int, v: int, i: int, j: int): int {
    var q := (i + i) * (i + i);
    (j + j) * (u * q - ChordX(u, i, j)) - (v * (i * q) + v * (i * q))
  }

  /** Squares and cubes of c = 2 m d, d = w m^2 being the scaled difference. */
  lemma ChordAlgebra(u: int, v: int, w: int, m: int, d: int, c: int)
    requires d == w * Square(m) && c == 2 * (m * d)
    ensures var q := (d + d) * (d + d);
            && u * Square(m) * q == u * (c * c)
            && d * q == w * (c * c)
            && 2 * (v * Cube(m) * (d * q)) == v * (c * c * c)
  {
    var q, mm, k := (d + d) * (d + d), m * m, d + d;
    assert c == m * k;
    assert c * c == mm * q by { Regroup(m, k, m, k); }
    MulAssoc(u, mm, q);
    MulAssoc(w, mm, q);
    assert c * c * c == (mm * m) * (q * k) by { Regroup(mm, q, m, k); }
    assert 2 * (d * q) == q * k by {
      assert q * k == q * d + q * d;
    }
    assert 2 * (v * (mm * m) * (d * q)) == v * (mm * m) * (2 * (d * q));
    MulAssoc(v, mm * m, q * k);
  }

  lemma ChordPolynomials(p: Point, q: Point, h: int, k: int, m: int, d: int, e: int, c: int)
    requires p.Affine? && q.Affine? && m == h * k
    requires d == (q.x - p.x) * Square(m) && e == (q.y - p.y) * Cube(m) && c == ChordScale(h, k, d)
    ensures ThirdFormulas(p, q, c, e + e, ChordX(p.x * Square(m), d, e),
                          ChordY(p.x * Square(m), p.y * Cube(m), d, e))
  {
    ChordAlgebra(p.x, p.y, q.x - p.x, m, d, c);
    hide Square, Cube, ChordScale;
    var s := (d + d) * (d + d);
    assert (q.x - p.x) * (c * c) + 2 * (p.x * (c * c)) == (p.x + q.x) * (c * c);
  }

  /** The line coefficient is the slope at the weight of the sum. */
  lemma SlopeScaled(s: int, w: int, g: int, h: int, k: int, n: int)
    requires n > 0 && Cong(s * w, g, n)
    ensures Cong(2 * (g * Cube(h * k)), s * ChordScale(h, k, w * Square(h * k)), n)
  {
    ChordScaleTimes(h, k, w);
    var c, t := Cube(h * k), 2 * Cube(h * k);
    hide Cong, Square, Cube, ChordScale;
    assert 2 * (g * c) == g * t;
    MulAssoc(s, w, t);
    CongSym(s * w, g, n);
    CongIntro(t, t, n, 0);
    CongMul(g, s * w, t, t, n);
  }

  lemma ChordScaleTimes(h: int, k: int, w: int)
    ensures ChordScale(h, k, w * Square(h * k)) == w * (2 * Cube(h * k))
  {
    ScaleAlgebra(h * k, w);
  }

  lemma ScaleAlgebra(m: int, w: int)
    ensures 2 * (m * (w * (m * m))) == w * (2 * (m * m * m))
  {
    var n := m * m;
    assert m * (w * n) == w * (m * n);
  }

  lemma WeightNonzero(h: nat, k: nat)
    requires Prime(P) && 0 < h < P && 0 < k < P
    ensures !Cong(Square(h * k), 0, P) && !Cong(Cube(h * k), 0, P) && !Cong(h * k, 0, P)
  {
    hide Prime, Cong;
    NonzeroCanonical(h);
    NonzeroCanonical(k);
    NonzeroProduct(h, k);
    var m := h * k;
    NonzeroProduct(m, m);
    NonzeroProduct(m * m, m);
  }

  /** A scaled difference of canonical values vanishes exactly when they are equal. */
  lemma ScaledZero(a: nat, u: nat, w: nat, m: int)
    requires Prime(P) && a < P && u < P && w < P && !Cong(m, 0, P) && Cong(a, (w - u) * m, P)
    ensures a == 0 <==> u == w
  {
    hide Prime, Cong;
    var z := (w - u) * m;
    if u == w {
      assert z == 0;
      NonzeroCanonical(a);
    } else {
      DifferenceNonzero(w, u);
      NonzeroProduct(w - u, m);
      NonzeroTransfer(a, z);
    }
  }

  lemma ChordScaleNonzero(h: nat, k: nat, d: int)
    requires Prime(P) && !Cong(h * k, 0, P) && !Cong(d, 0, P)
    ensures !Cong(ChordScale(h, k, d), 0, P)
  {
    hide Prime, Cong;
    NonzeroCanonical(2);
    NonzeroProduct(h * k, d);
    NonzeroProduct(2, h * k * d);
  }

  /** Both finite: the scaled differences and what they say. */
  lemma AddDifferences(l: Triple, r: Triple, p: Point, q: Point)
    requires Prime(P) && Represents(l, p) && Represents(r, q) && l.z != 0 && r.z != 0
    ensures var m := l.z * r.z;
            var d := FSub(ScaledX(r.x, l.z), ScaledX(l.x, r.z));
            var e := FSub(ScaledY(r.y, l.z), ScaledY(l.y, r.z));
            && Cong(ScaledX(l.x, r.z), p.x * Square(m), P) && Cong(ScaledY(l.y, r.z), p.y * Cube(m), P)
            && Cong(d, (q.x - p.x) * Square(m), P) && Cong(e, (q.y - p.y) * Cube(m), P)
            && (d == 0 <==> p.x == q.x) && (e == 0 <==> p.y == q.y)
  {
    hide Prime, Cong, Square, Cube, ScaledX, ScaledY, FSub;
    var m := l.z * r.z;
    assert r.z * l.z == m;
    ScaleMeans(l.x, l.y, p.x, p.y, l.z, r.z);
    ScaleMeans(r.x, r.y, q.x, q.y, r.z, l.z);
    DifferenceMeans(ScaledX(l.x, r.z), ScaledX(r.x, l.z), p.x, q.x, Square(m));
    DifferenceMeans(ScaledY(l.y, r.z), ScaledY(r.y, l.z), p.y, q.y, Cube(m));
    WeightNonzero(l.z, r.z);
    ScaledZero(FSub(ScaledX(r.x, l.z), ScaledX(l.x, r.z)), p.x, q.x, Square(m));
    ScaledZero(FSub(ScaledY(r.y, l.z), ScaledY(l.y, r.z)), p.y, q.y, Cube(m));
  }

  lemma ChordRefines(l: Triple, r: Triple, p: Point, q: Point)
    requires Prime(P) && Represents(l, p) && Represents(r, q) && l.z != 0 && r.z != 0 && p.x != q.x
    ensures Represents(AddSteps(l, r), ThirdPoint(p, q, Slope(p, q)))
  {
    hide Prime, Cong, Square, Cube, ScaledX, ScaledY, FSub, Slope, ThirdPoint, ThirdFormulas,
      ChordScale, ChordX, ChordY, ChordSteps;
    AddDifferences(l, r, p, q);
    var h, k := l.z, r.z;
    var m := h * k;
    var u, v := ScaledX(l.x, k), ScaledY(l.y, k);
    var d, e := FSub(ScaledX(r.x, h), u), FSub(ScaledY(r.y, h), v);
    var i, j := (q.x - p.x) * Square(m), (q.y - p.y) * Cube(m);
    var c, s := ChordScale(h, k, i), Slope(p, q);
    ChordStepsXY(h, k, u, v, d, e, p.x * Square(m), p.y * Cube(m), i, j);
    ChordPolynomials(p, q, h, k, m, i, j, c);
    ChordSlope(p, q);
    SlopeScaled(s, q.x - p.x, q.y - p.y, h, k, P);
    var x, y := ChordX(p.x * Square(m), i, j), ChordY(p.x * Square(m), p.y * Cube(m), i, j);
    ScaledThird(p, q, s, c, j + j, x, y);
    ChordWeight(l, r, p, q, d, i);
    ThirdPointCanonical(p, q, s);
    Reweigh(ChordSteps(h, k, u, v, d, e), ThirdPoint(p, q, s), c, x, y);
  }

  /** Z of the sum of distinct finite points is their chord scale, and not zero. */
  lemma ChordWeight(l: Triple, r: Triple, p: Point, q: Point, d: nat, i: int)
    requires Prime(P) && Represents(l, p) && Represents(r, q) && l.z != 0 && r.z != 0
    requires d != 0 && d < P && Cong(d, i, P)
    ensures !Cong(ChordScale(l.z, r.z, i), 0, P)
    ensures forall u, v, e :: Cong(ChordSteps(l.z, r.z, u, v, d, e).z, ChordScale(l.z, r.z, i), P)
  {
    hide Prime, Cong, ChordScale;
    WeightNonzero(l.z, r.z);
    NonzeroCanonical(d);
    if Cong(i, 0, P) {
      CongTrans(d, i, 0, P);
    }
    ChordScaleNonzero(l.z, r.z, i);
    Same(l.z);
    Same(r.z);
    ChordStepsZ(l.z, r.z, d, l.z, r.z, i);
  }

  /** The addition code adds the points: either infinite, equal, opposite, and in general. */
  lemma AddRefines(l: Triple, r: Triple, p: Point, q: Point)
    requires Prime(P) && Represents(l, p) && Represents(r, q) && OnCurve(p) && OnCurve(q)
    ensures Represents(AddSteps(l, r), Sum(p, q))
  {
    hide Prime, Cong, CurveEquation, Slope, ThirdPoint, DoubleSteps, ChordSteps;
    if l.z != 0 && r.z != 0 {
      AddDifferences(l, r, p, q);
      hide ScaledX, ScaledY, FSub;
      if p.x != q.x {
        ChordRefines(l, r, p, q);
      } else if p.y == q.y {
        DoubleRefines(l, p);
      } else {
        SameAbscissa(p, q);
      }
    }
  }
}
