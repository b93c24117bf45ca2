/** The secp224r1 group law on affine points: chords and tangents over the prime field. */
module AffineP224 {
  import opened Arithmetic
  import opened Limbs
  import opened NumberTheory
  import opened Residues
  import opened FieldP224

  /** b of y^2 = x^3 - 3x + b, the value of its words; CoefficientValue gives the number. */
  ghost const B: nat := Val(WORD, COEFFICIENT_B)

  lemma CoefficientValue()
    ensures B == 0xB4050A85_0C04B3AB_F5413256_5044B0B7_D7BFD8BA_270B3943_2355FFB4
  {
    ValSeven(COEFFICIENT_B);
  }

  datatype Point = Infinity | Affine(x: nat, y: nat)

  /** y^2 = x^3 - 3x + b modulo m. */
  ghost predicate CurveModulo(x: int, y: int, b: int, m: int)
    requires m > 0
  {
    Cong(y * y, x * x * x - 3 * x + b, m)
  }

  ghost predicate CurveEquation(x: int, y: int) {
    CurveModulo(x, y, B, P)
  }

  ghost predicate OnCurve(p: Point) {
    p.Affine? ==> p.x < P && p.y < P && CurveEquation(p.x, p.y)
  }

  ghost function FInv(x: nat): (r: nat) ensures r < P { FPow(x, P - 2) }

  /** Slope of the line through two points, the tangent when they are the same. */
  ghost function Slope(p: Point, q: Point): (s: nat)
    requires p.Affine? && q.Affine?
    ensures s < P
  {
    if p == q then FMul((3 * p.x * p.x - 3) % P, FInv((2 * p.y) % P))
    else FMul((q.y - p.y) % P, FInv((q.x - p.x) % P))
  }

  ghost function ThirdPoint(p: Point, q: Point, s: nat): Point
    requires p.Affine? && q.Affine?
  {
    var x := (s * s - p.x - q.x) % P;
    Affine(x, (s * (p.x - x) - p.y) % P)
  }

  /** The sum of two points. */
  ghost function Sum(p: Point, q: Point): Point {
    if p.Infinity? then q
    else if q.Infinity? then p
    else if p.x == q.x && (p.y + q.y) % P == 0 then Infinity
    else ThirdPoint(p, q, Slope(p, q))
  }

  // ---- chords and tangents -----------------------------------------------------------------

  /** The point below: where the vertical line through p meets the curve again. */
  ghost function Reflection(p: Point): Point {
    if p.Infinity? then Infinity else Affine(p.x, (P - p.y) % P)
  }

  /** l is the slope of the line through p and q, of the curve's tangent when they are the same. */
  ghost predicate LineSlope(l: nat, p: Point, q: Point)
    requires p.Affine? && q.Affine?
  {
    if p == q then Cong(l * (2 * p.y), 3 * p.x * p.x - 3, P) else Cong(l * (q.x - p.x), q.y - p.y, P)
  }

  /**
   * The sum of two finite points that are not opposite is the reflection of the third point of their
   * line on the curve: it lies on the line, and the three abscissas add up to the slope's square,
   * as the roots of the cubic that the line leaves of the curve equation do.
   */
  lemma SumLine(p: Point, q: Point) returns (l: nat)
    requires Prime(P) && p.Affine? && q.Affine? && OnCurve(p) && OnCurve(q) && q != Reflection(p)
    ensures var r := Sum(p, q);
            && r.Affine? && r.x < P && r.y < P
            && LineSlope(l, p, q) && l < P
            && Cong(l * (r.x - p.x), Reflection(r).y - p.y, P)
            && Cong(p.x + q.x + r.x, l * l, P)
  {
    hide Prime, CurveEquation, Slope;
    NotOpposite(p, q);
    l := Slope(p, q);
    var r := ThirdPoint(p, q, l);
    if p.x == q.x {
      TangentPoint(p, q);
      TangentSlope(p);
    } else {
      ChordSlope(p, q);
    }
    ThirdLine(p.x, p.y, q.x, l, r.x, r.y, P);
  }

  lemma NotOpposite(p: Point, q: Point)
    requires p.Affine? && q.Affine? && p.x < P && p.y < P && q.x < P && q.y < P
    ensures p.x == q.x && (p.y + q.y) % P == 0 <==> q == Reflection(p)
  {
    hide Val;
    if p.y == 0 {
      DivModUnique(P, P, 1, 0);
      DivModUnique(q.y, P, 0, q.y);
    } else {
      DivModUnique(P - p.y, P, 0, P - p.y);
      if p.y + q.y < P {
        DivModUnique(p.y + q.y, P, 0, p.y + q.y);
      } else {
        DivModUnique(p.y + q.y, P, 1, p.y + q.y - P);
      }
    }
  }

  /** The reduced third point, reflected back, is on the line through (x, y) of slope l. */
  lemma ThirdLine(x: int, y: int, z: int, l: int, u: int, v: int, m: int)
    requires m > 0 && u == (l * l - x - z) % m && v == (l * (x - u) - y) % m
    ensures Cong(l * (u - x), (m - v) % m - y, m) && Cong(x + z + u, l * l, m)
  {
    ThirdSum(x + z, l * l, u, m) by {
      assert l * l - x - z == l * l - (x + z);
    }
    var w := l * (x - u) - y;
    CongMod(w, m);
    CongMod(m - v, m);
    LineBelow(x, y, u, v, (m - v) % m, l, m);
  }

  lemma ThirdSum(a: int, s: int, u: int, m: int)
    requires m > 0 && u == (s - a) % m
    ensures Cong(a + u, s, m)
  {
    CongMod(s - a, m);
    hide Cong;
    CongIntro(a, a, m, 0);
    CongAdd(a, a, u, s - a, m);
  }

  /** A point congruent to the reflected line is on the line once reflected back. */
  lemma LineBelow(x: int, y: int, u: int, v: int, below: int, l: int, m: int)
    requires m > 0 && Cong(v, l * (x - u) - y, m) && Cong(below, m - v, m)
    ensures Cong(l * (u - x), below - y, m)
  {
    hide Cong;
    var w := l * (x - u) - y;
    CongIntro(y, y, m, 0);
    CongAdd(below, m - v, y, y, m);
    CongIntro(m - y, -y, m, 1);
    CongAdd(m - y, -y, v, w, m);
    assert -y - w == l * (u - x) by {
      assert l * (x - u) == -(l * (u - x));
    }
    CongTrans(below - y, m - y - v, l * (u - x), m);
    CongSym(below - y, l * (u - x), m);
  }

  /** Opposite points, and only those, add up to infinity. */
  lemma SumVanishes(p: Point, q: Point)
    requires OnCurve(p) && OnCurve(q)
    ensures Sum(p, q) == Infinity <==> q == Reflection(p)
  {
    hide CurveEquation, Slope;
    if p.Affine? && q.Affine? {
      NotOpposite(p, q);
    }
  }

  lemma NotZero(v: int)
    ensures Cong(v, 0, P) <==> v % P == 0
  {
    CongIffModEqual(v, 0, P);
  }

  lemma InverseModulo(v: int, m: nat)
    requires Prime(m) && v % m != 0
    ensures Cong(Pow(v % m, m - 2) % m * v, 1, m)
  {
    assert m > 1;
    hide Pow, Prime, Cong;
    var w := v % m;
    CongMod(v, m);
    CongIffModEqual(w, 0, m);
    FermatInverse(w, m);
    var power := Pow(w, m - 2);
    CongMod(power, m);
    CongMul(power % m, power, v, w, m);
    CongTrans(power % m * v, power * w, 1, m);
  }

  lemma InverseTimes(v: int)
    requires Prime(P) && v % P != 0
    ensures Cong(FInv(v % P) * v, 1, P)
  {
    hide Pow, Prime, Val, Cong;
    InverseModulo(v, P);
  }

  /** A quotient times its divisor is the dividend. */
  lemma QuotientTimes(n: int, v: int)
    requires Prime(P) && v % P != 0
    ensures Cong(FMul(n % P, FInv(v % P)) * v, n, P)
  {
    hide Prime;
    var i := FInv(v % P);
    hide FInv;
    InverseTimes(v);
    CongMod(n, P);
    CongMod(n % P * i, P);
    CongIntro(v, v, P, 0);
    CongMul((n % P * i) % P, n % P * i, v, v, P);
    CongMul(n % P, n, i * v, 1, P);
    MulAssoc(n % P, i, v);
    CongTrans(FMul(n % P, i) * v, n % P * i * v, n, P);
  }

  lemma DoubleNonzero(y: nat)
    requires 0 < y < P
    ensures (2 * y) % P != 0
  {
    hide Val;
    if 2 * y < P {
      DivModUnique(2 * y, P, 0, 2 * y);
    } else {
      DivModUnique(2 * y, P, 1, 2 * y - P);
    }
  }

  lemma TangentSlope(p: Point)
    requires Prime(P) && p.Affine? && 0 < p.y < P
    ensures Cong(Slope(p, p) * (2 * p.y), 3 * p.x * p.x - 3, P)
  {
    hide Prime, FInv, FMul;
    DoubleNonzero(p.y);
    QuotientTimes(3 * p.x * p.x - 3, 2 * p.y);
  }

  lemma DifferenceNonzero(a: nat, b: nat)
    requires a < P && b < P && a != b
    ensures (a - b) % P != 0 && !Cong(a - b, 0, P)
  {
    NotZero(a - b);
    if (a - b) % P == 0 {
      CongCanonical(a, b, P);
    }
  }

  lemma ChordSlope(p: Point, q: Point)
    requires Prime(P) && p.Affine? && q.Affine? && p.x < P && q.x < P && p.x != q.x
    ensures Cong(Slope(p, q) * (q.x - p.x), q.y - p.y, P)
  {
    hide Prime, FInv, FMul;
    DifferenceNonzero(q.x, p.x);
    QuotientTimes(q.y - p.y, q.x - p.x);
  }

  // ---- the law stays on the curve ----------------------------------------------------------

  lemma CubeShift(x: int, t: int)
    ensures (x - t) * (x - t) * (x - t) == x * x * x - 3 * (x * x * t) + 3 * (x * (t * t)) - t * t * t
  {
    var a := x * x - 2 * (x * t) + t * t;
    assert (x - t) * (x - t) == a;
    assert a * x == x * x * x - 2 * (x * x * t) + x * (t * t);
    assert a * t == x * x * t - 2 * (x * (t * t)) + t * t * t;
    assert a * (x - t) == a * x - a * t;
  }

  /** Squaring the reflected line coordinate, exactly. */
  lemma LineSquare(l: int, t: int, y: int)
    ensures (l * t - y) * (l * t - y) == l * l * (t * t) - t * (2 * (l * y)) + y * y
  {
    var a := l * t;
    assert (a - y) * (a - y) == a * a - 2 * (a * y) + y * y;
    assert a * a == l * l * (t * t) by {
      assert a * a == l * (t * (l * t));
      assert t * (l * t) == l * (t * t);
      assert l * (l * (t * t)) == l * l * (t * t);
    }
    assert a * y == t * (l * y);
  }

  /**
   * The third intersection, exactly: the error of its curve equation is the error of the first
   * point less t times the error of the slope equation. d is the distance of the two abscissas,
   * zero for a tangent.
   */
  lemma ThirdIdentity(x: int, y: int, d: int, l: int, e1: int, e2: int, t: int, b: int)
    requires y * y == x * x * x - 3 * x + b + e1
    requires 2 * (l * y) == 3 * (x * x) + 3 * (x * d) + d * d - 3 - l * l * d + e2
    requires l * l == 3 * x + d - t
    ensures var u, v := x - t, l * t - y;
            v * v == u * u * u - 3 * u + b + (e1 - t * e2)
  {
    CubeShift(x, t);
    LineSquare(l, t, y);
    LineTimes(l * l, x, d, t);
    SlopeTimes(2 * (l * y), x, d, t, l * l, e2);
    var s := l * l;
    assert s * (t * t) == 3 * (x * (t * t)) + d * (t * t) - t * t * t;
  }

  lemma LineTimes(s: int, x: int, d: int, t: int)
    requires s == 3 * x + d - t
    ensures s * (t * t) == 3 * (x * (t * t)) + d * (t * t) - t * t * t
  {
    var q := t * t;
    assert (3 * x + d - t) * q == 3 * (x * q) + d * q - t * q;
  }

  lemma SlopeTimes(w: int, x: int, d: int, t: int, s: int, e2: int)
    requires s == 3 * x + d - t
    requires w == 3 * (x * x) + 3 * (x * d) + d * d - 3 - s * d + e2
    ensures t * w == 3 * (x * x * t) + d * (t * t) - 3 * t + t * e2
  {
    assert s * d == 3 * (x * d) + d * d - t * d;
    assert w == 3 * (x * x) + t * d - 3 + e2;
    assert t * (3 * (x * x)) == 3 * (x * x * t);
    assert t * (t * d) == d * (t * t);
  }

  /** What the slope of a chord or tangent satisfies at its first point. */
  ghost predicate SlopeModulo(x: int, y: int, d: int, l: int, m: int)
    requires m > 0
  {
    Cong(2 * (l * y), 3 * (x * x) + 3 * (x * d) + d * d - 3 - l * l * d, m)
  }

  /** Before reduction, the third point is on the curve. */
  lemma ThirdOnCurve(x: int, y: int, d: int, l: int, b: int, m: int)
    requires m > 0 && CurveModulo(x, y, b, m) && SlopeModulo(x, y, d, l, m)
    ensures CurveModulo(l * l - 2 * x - d, l * (3 * x + d - l * l) - y, b, m)
  {
    var t := 3 * x + d - l * l;
    var k1 := CongElim(y * y, x * x * x - 3 * x + b, m);
    var k2 := CongElim(2 * (l * y), 3 * (x * x) + 3 * (x * d) + d * d - 3 - l * l * d, m);
    ThirdIdentity(x, y, d, l, k1 * m, k2 * m, t, b);
    var u, v := x - t, l * t - y;
    assert k1 * m - t * (k2 * m) == (k1 - t * k2) * m by {
      MulAssoc(t, k2, m);
    }
    CongIntro(v * v, u * u * u - 3 * u + b, m, k1 - t * k2);
  }

  /** The curve equation does not see multiples of the modulus. */
  lemma CurveReduced(x: int, y: int, u: int, v: int, b: int, m: int)
    requires m > 0 && CurveModulo(x, y, b, m) && Cong(u, x, m) && Cong(v, y, m)
    ensures CurveModulo(u, v, b, m)
  {
    CongMul(v, y, v, y, m);
    CongMul(u, x, u, x, m);
    CongMul(u * u, x * x, u, x, m);
    CongIntro(3, 3, m, 0);
    CongMul(3, 3, u, x, m);
    CongAdd(u * u * u, x * x * x, 3 * u, 3 * x, m);
    CongIntro(b, b, m, 0);
    CongAdd(u * u * u - 3 * u, x * x * x - 3 * x, b, b, m);
    CongTrans(v * v, y * y, x * x * x - 3 * x + b, m);
    CongSym(u * u * u - 3 * u + b, x * x * x - 3 * x + b, m);
    CongTrans(v * v, x * x * x - 3 * x + b, u * u * u - 3 * u + b, m);
  }

  /** The third point, reduced coordinate by coordinate, is on the curve. */
  lemma ThirdReduced(x: int, y: int, z: int, s: int, b: int, m: int)
    requires m > 0 && CurveModulo(x, y, b, m) && SlopeModulo(x, y, z - x, s, m)
    ensures var u := (s * s - x - z) % m; CurveModulo(u, (s * (x - u) - y) % m, b, m)
  {
    hide Cong;
    var d, u := z - x, s * s - x - z;
    ThirdOnCurve(x, y, d, s, b, m);
    assert u == s * s - 2 * x - d;
    var r := u % m;
    CongMod(u, m);
    CongIntro(x, x, m, 0);
    CongIntro(s, s, m, 0);
    CongIntro(y, y, m, 0);
    CongAdd(x, x, r, u, m);
    assert x - u == 3 * x + d - s * s;
    CongMul(s, s, x - r, x - u, m);
    CongAdd(s * (x - r), s * (x - u), y, y, m);
    CongMod(s * (x - r) - y, m);
    CongTrans((s * (x - r) - y) % m, s * (x - r) - y, s * (x - u) - y, m);
    CurveReduced(u, s * (x - u) - y, r, (s * (x - r) - y) % m, b, m);
  }

  lemma TangentRelation(p: Point)
    requires Prime(P) && p.Affine? && 0 < p.y < P
    ensures SlopeModulo(p.x, p.y, 0, Slope(p, p), P)
  {
    hide Prime;
    TangentSlope(p);
    hide Slope;
    var l := Slope(p, p);
    assert l * (2 * p.y) == 2 * (l * p.y);
    assert 3 * p.x * p.x == 3 * (p.x * p.x);
  }

  /** Both sides of the chord's slope relation, times d. */
  lemma ChordTimes(x: int, y: int, w: int, d: int, l: int, b: int, m: int)
    requires m > 0 && Cong(l * d, w - y, m)
    requires CurveModulo(x, y, b, m) && CurveModulo(x + d, w, b, m)
    ensures Cong(2 * (l * y) * d, (3 * (x * x) + 3 * (x * d) + d * d - 3 - l * l * d) * d, m)
  {
    hide Cong;
    var t, g := l * d, w - y;
    CongIntro(2 * y, 2 * y, m, 0);
    CongMul(2 * y, 2 * y, t, g, m);
    assert 2 * (l * y) * d == 2 * y * t by {
      MulAssoc(l, y, d);
      MulAssoc(y, l, d);
    }
    CurveDifference(x, y, x + d, w, b, m);
    ChordAlgebra(x, y, w, d, l);
    CongMul(t, g, t, g, m);
    var z := x + d;
    var cubes := z * z * z - x * x * x - 3 * d;
    CongAdd(cubes, w * w - y * y, t * t, g * g, m);
    CongSym(cubes - t * t, w * w - y * y - g * g, m);
    CongTrans(2 * y * t, 2 * y * g, cubes - t * t, m);
  }

  lemma CurveDifference(x: int, y: int, z: int, w: int, b: int, m: int)
    requires m > 0 && CurveModulo(x, y, b, m) && CurveModulo(z, w, b, m)
    ensures Cong(z * z * z - x * x * x - 3 * (z - x), w * w - y * y, m)
  {
    hide Cong;
    CongAdd(w * w, z * z * z - 3 * z + b, y * y, x * x * x - 3 * x + b, m);
    CongSym(w * w - y * y, z * z * z - 3 * z + b - (x * x * x - 3 * x + b), m);
  }

  lemma CubeDifference(x: int, d: int)
    ensures var z := x + d;
            (3 * (x * x) + 3 * (x * d) + d * d) * d == z * z * z - x * x * x
  {
    CubeShift(x, -d);
    assert x * x * (-d) == -(x * x * d);
    assert -d * -d == d * d;
    assert x * (d * d) == x * d * d;
    assert -d * -d * -d == -(d * d * d);
  }

  lemma ProductSquare(l: int, d: int)
    ensures l * l * d * d == (l * d) * (l * d)
  {
    MulAssoc(l * l, d, d);
    Regroup(l, l, d, d);
  }

  lemma ChordAlgebra(x: int, y: int, w: int, d: int, l: int)
    ensures w * w - y * y - (w - y) * (w - y) == 2 * y * (w - y)
    ensures var z, m := x + d, l * d;
            (3 * (x * x) + 3 * (x * d) + d * d - 3 - l * l * d) * d ==
            z * z * z - x * x * x - 3 * d - m * m
  {
    CubeDifference(x, d);
    ProductSquare(l, d);
    var a, b := 3 * (x * x) + 3 * (x * d) + d * d, l * l * d;
    assert (a - 3 - b) * d == a * d - 3 * d - b * d;
  }

  /** The slope of a chord satisfies the relation, modulo a prime. */
  lemma ChordModulo(x: int, y: int, z: int, w: int, l: int, b: int, m: nat)
    requires Prime(m) && CurveModulo(x, y, b, m) && CurveModulo(z, w, b, m)
    requires Cong(l * (z - x), w - y, m) && !Cong(z - x, 0, m)
    ensures SlopeModulo(x, y, z - x, l, m)
  {
    hide Cong;
    var d := z - x;
    assert x + d == z;
    ChordTimes(x, y, w, d, l, b, m);
    Cancel(2 * (l * y), 3 * (x * x) + 3 * (x * d) + d * d - 3 - l * l * d, d, m);
  }

  /** Two curve points over one abscissa are equal or opposite. */
  lemma SameAbscissa(p: Point, q: Point)
    requires Prime(P) && p.Affine? && q.Affine? && OnCurve(p) && OnCurve(q) && p.x == q.x
    ensures p == q || (p.y + q.y) % P == 0
  {
    hide Prime;
    var f := p.x * p.x * p.x - 3 * p.x + B;
    CongAdd(p.y * p.y, f, q.y * q.y, f, P);
    assert (p.y - q.y) * (p.y + q.y) == p.y * p.y - q.y * q.y;
    EuclidLemma(p.y - q.y, p.y + q.y, P);
    NotZero(p.y + q.y);
    if p.y != q.y {
      DifferenceNonzero(p.y, q.y);
    }
  }

  lemma ChordThird(x: int, y: int, z: int, w: int, s: int, b: int, m: nat)
    requires Prime(m) && CurveModulo(x, y, b, m) && CurveModulo(z, w, b, m)
    requires Cong(s * (z - x), w - y, m) && !Cong(z - x, 0, m)
    ensures m > 0
    ensures var u := (s * s - x - z) % m; CurveModulo(u, (s * (x - u) - y) % m, b, m)
  {
    assert m > 0;
    hide Prime, CurveModulo, SlopeModulo, Cong;
    ChordModulo(x, y, z, w, s, b, m);
    ThirdReduced(x, y, z, s, b, m);
  }

  lemma OnCurveMeans(p: Point)
    requires OnCurve(p) && p.Affine?
    ensures p.x < P && p.y < P && CurveModulo(p.x, p.y, B, P)
  {
    hide Val, CurveModulo;
  }

  lemma ThirdAt(p: Point, q: Point, s: nat)
    requires p.Affine? && q.Affine?
    requires var u := (s * s - p.x - q.x) % P; CurveModulo(u, (s * (p.x - u) - p.y) % P, B, P)
    ensures OnCurve(ThirdPoint(p, q, s))
  {
    hide Val, CurveModulo;
  }

  lemma TangentOnCurve(p: Point, q: Point)
    requires Prime(P) && p.Affine? && q.Affine? && OnCurve(p) && OnCurve(q) && p.x == q.x && (p.y + q.y) % P != 0
    ensures OnCurve(ThirdPoint(p, q, Slope(p, q)))
  {
    TangentPoint(p, q);
    OnCurveMeans(p);
    hide Prime, Slope, CurveModulo, SlopeModulo, Cong, Val, OnCurve, ThirdPoint;
    TangentRelation(p);
    ThirdReduced(p.x, p.y, p.x, Slope(p, p), B, P);
    ThirdAt(p, p, Slope(p, p));
  }

  lemma ChordOnCurve(p: Point, q: Point)
    requires Prime(P) && p.Affine? && q.Affine? && OnCurve(p) && OnCurve(q) && p.x != q.x
    ensures OnCurve(ThirdPoint(p, q, Slope(p, q)))
  {
    OnCurveMeans(p);
    OnCurveMeans(q);
    hide Prime, Slope, CurveModulo, Cong, Val, OnCurve, ThirdPoint;
    ChordSlope(p, q);
    DifferenceNonzero(q.x, p.x);
    ChordThird(p.x, p.y, q.x, q.y, Slope(p, q), B, P);
    ThirdAt(p, q, Slope(p, q));
  }

  lemma TangentPoint(p: Point, q: Point)
    requires Prime(P) && p.Affine? && q.Affine? && OnCurve(p) && OnCurve(q) && p.x == q.x && (p.y + q.y) % P != 0
    ensures p == q && 0 < p.y < P
  {
    SameAbscissa(p, q);
    hide Prime, CurveModulo, Val;
    if p.y == 0 {
      DivModUnique(0, P, 0, 0);
    }
  }

  /** The group law is closed. */
  lemma SumOnCurve(p: Point, q: Point)
    requires Prime(P) && OnCurve(p) && OnCurve(q)
    ensures OnCurve(Sum(p, q))
  {
    assert OnCurve(Infinity);
    hide Prime, Slope, OnCurve, ThirdPoint, Val;
    if p.Affine? && q.Affine? && !(p.x == q.x && (p.y + q.y) % P == 0) {
      if p.x == q.x {
        TangentOnCurve(p, q);
      } else {
        ChordOnCurve(p, q);
      }
    }
  }
}
