/** Every Jacobian triple has exactly one affine point, the curve is kept, and multiples add up. */
module GroupP224 {
  import opened Arithmetic
  import Limbs
  import opened NumberTheory
  import opened Residues
  import opened FieldP224
  import opened AffineP224
  import opened JacobianP224

  // ---- to affine ---------------------------------------------------------------------------

  /** The steps of the conversion code on field elements. */
  ghost function AffineSteps(t: Triple): Point {
    var inverse := FPow(t.z, P - 2);
    var square := FMul(inverse, inverse);
    Affine(FMul(t.x, square), FMul(t.y, FMul(square, inverse)))
  }

  lemma InversePowers(z: nat, i: nat)
    requires Cong(i * z, 1, P)
    ensures Cong(i * i * Square(z), 1, P) && Cong(i * i * i * Cube(z), 1, P)
  {
    hide Cong;
    var k := i * z;
    CongMul(k, 1, k, 1, P);
    Regroup(i, z, i, z);
    CongMul(k * k, 1, k, 1, P);
    Regroup(i * i, z * z, i, z);
  }

  lemma BackAndForth(x: nat, f: nat, m: int, w: int)
    requires Cong(f, w, P) && Cong(w * m, 1, P)
    ensures Cong(x, FMul(x, f) * m, P)
  {
    hide Cong, FMul;
    Same(x);
    Same(m);
    MulHom(x, x, f, w);
    CongMul(FMul(x, f), x * w, m, m, P);
    CongMul(x, x, w * m, 1, P);
    MulAssoc(x, w, m);
    CongTrans(FMul(x, f) * m, x * w * m, x, P);
    CongSym(FMul(x, f) * m, x, P);
  }

  /** The conversion finds the point a finite triple stands for. */
  lemma AffineStepsRepresent(t: Triple)
    requires Prime(P) && t.x < P && t.y < P && 0 < t.z < P
    ensures Represents(t, AffineSteps(t))
  {
    hide Prime, Cong, FMul, FPow, Square, Cube;
    var i := FPow(t.z, P - 2);
    FermatUnit(t.z);
    InversePowers(t.z, i);
    Same(i);
    MulHom(i, i, i, i);
    var square := FMul(i, i);
    MulHom(square, i * i, i, i);
    BackAndForth(t.x, square, Square(t.z), i * i);
    BackAndForth(t.y, FMul(square, i), Cube(t.z), i * i * i);
  }

  /** v^(p-2) is the inverse of v. */
  lemma FermatUnit(v: nat)
    requires Prime(P) && 0 < v < P
    ensures Cong(FPow(v, P - 2) * v, 1, P)
  {
    hide Prime, Pow;
    NonzeroCanonical(v);
    FermatInverse(v, P);
    CongMod(Pow(v, P - 2), P);
    Same(v);
    CongMul(Pow(v, P - 2) % P, Pow(v, P - 2), v, v, P);
    CongTrans(FPow(v, P - 2) * v, Pow(v, P - 2) * v, 1, P);
  }

  /** A triple stands for at most one point. */
  lemma RepresentsUnique(t: Triple, p: Point, q: Point)
    requires Prime(P) && Represents(t, p) && Represents(t, q)
    ensures p == q
  {
    hide Prime, Cong;
    if t.z != 0 {
      WeightNonzero(t.z, 1);
      assert t.z * 1 == t.z;
      hide Square, Cube;
      SameCoordinate(t.x, p.x, q.x, Square(t.z));
      SameCoordinate(t.y, p.y, q.y, Cube(t.z));
    }
  }

  lemma SameCoordinate(a: nat, u: nat, v: nat, m: int)
    requires Prime(P) && u < P && v < P && !Cong(m, 0, P)
    requires Cong(a, u * m, P) && Cong(a, v * m, P)
    ensures u == v
  {
    hide Prime;
    CongSym(a, u * m, P);
    CongTrans(u * m, a, v * m, P);
    Cancel(u, v, m, P);
    CongCanonical(u, v, P);
  }

  // ---- the Jacobian curve equation ---------------------------------------------------------

  /** Infinite, or Y^2 = X^3 - 3 X Z^4 + b Z^6. */
  ghost predicate JacobianOnCurve(t: Triple) {
    t.z != 0 ==>
      Cong(t.y * t.y, t.x * t.x * t.x - 3 * (t.x * (Square(t.z) * Square(t.z))) + B * (Cube(t.z) * Cube(t.z)), P)
  }

  /** Both sides of the Jacobian equation are the affine sides times Z^6. */
  lemma JacobianSides(t: Triple, p: Point)
    requires Represents(t, p) && t.z != 0
    ensures var w := Cube(t.z) * Cube(t.z);
            && Cong(t.y * t.y, p.y * p.y * w, P)
            && Cong(t.x * t.x * t.x - 3 * (t.x * (Square(t.z) * Square(t.z))) + B * w,
                    (p.x * p.x * p.x - 3 * p.x + B) * w, P)
  {
    hide Cong, Square, Cube;
    var u, v, z := p.x, p.y, t.z;
    var s, c := Square(z), Cube(z);
    var w := c * c;
    CongMul(t.y, v * c, t.y, v * c, P);
    Regroup(v, c, v, c);
    CongMul(t.x, u * s, t.x, u * s, P);
    CongMul(t.x * t.x, u * s * (u * s), t.x, u * s, P);
    Same(s * s);
    CongMul(t.x, u * s, s * s, s * s, P);
    SixthPower(u, z, s, w);
    Same(3);
    CongMul(3, 3, t.x * (s * s), u * w, P);
    CongAdd(t.x * t.x * t.x, u * u * u * w, 3 * (t.x * (s * s)), 3 * (u * w), P);
    Same(B * w);
    CongAdd(t.x * t.x * t.x - 3 * (t.x * (s * s)), u * u * u * w - 3 * (u * w), B * w, B * w, P);
    SidesAlgebra(u * u * u, u, w);
  }

  lemma SidesAlgebra(k: int, u: int, w: int)
    ensures k * w - 3 * (u * w) + B * w == (k - 3 * u + B) * w
  {}

  lemma SixthPower(u: int, z: int, s: int, w: int)
    requires s == Square(z) && w == Cube(z) * Cube(z)
    ensures u * s * (u * s) * (u * s) == u * u * u * w && u * s * (s * s) == u * w
  {
    assert w == s * s * s by {
      Regroup(z * z, z * z, z, z);
    }
    Regroup(u, s, u, s);
    Regroup(u * u, s * s, u, s);
    MulAssoc(u, s, s * s);
    MulAssoc(s, s, s);
  }

  /** A finite triple is on the Jacobian curve exactly when its point is on the affine one. */
  lemma JacobianCurveIff(t: Triple, p: Point)
    requires Prime(P) && Represents(t, p) && t.z != 0
    ensures JacobianOnCurve(t) <==> OnCurve(p)
  {
    hide Prime, Cong;
    JacobianSides(t, p);
    WeightNonzero(t.z, 1);
    assert t.z * 1 == t.z;
    hide Square, Cube;
    var w := Cube(t.z) * Cube(t.z);
    NonzeroProduct(Cube(t.z), Cube(t.z));
    var yy, f, g := p.y * p.y, p.x * p.x * p.x - 3 * p.x + B,
        t.x * t.x * t.x - 3 * (t.x * (Square(t.z) * Square(t.z))) + B * w;
    CongBridge(t.y * t.y, yy * w, g, f * w);
    if Cong(t.y * t.y, g, P) {
      Cancel(yy, f, w, P);
    }
    if Cong(yy, f, P) {
      Same(w);
      CongMul(yy, f, w, w, P);
    }
  }

  lemma CongBridge(a: int, a': int, b: int, b': int)
    requires Cong(a, a', P) && Cong(b, b', P)
    ensures Cong(a, b, P) <==> Cong(a', b', P)
  {
    CongIffModEqual(a, a', P);
    CongIffModEqual(b, b', P);
    CongIffModEqual(a, b, P);
    CongIffModEqual(a', b', P);
  }

  /** The point a triple stands for. */
  ghost function PointOf(t: Triple): Point {
    if t.z == 0 then Infinity else AffineSteps(t)
  }

  lemma PointOfRepresents(t: Triple)
    requires Prime(P) && t.x < P && t.y < P && t.z < P
    ensures Represents(t, PointOf(t))
    ensures JacobianOnCurve(t) <==> OnCurve(PointOf(t))
  {
    hide Prime, AffineSteps;
    if t.z != 0 {
      AffineStepsRepresent(t);
      JacobianCurveIff(t, PointOf(t));
    }
  }

  lemma FiniteOnCurve(t: Triple)
    ensures t.z == 0 ==> JacobianOnCurve(t)
  {}

  /** Doubling keeps the curve, and infinity stays infinite. */
  lemma DoubleKeepsCurve(t: Triple)
    requires Prime(P) && t.x < P && t.y < P && t.z < P && JacobianOnCurve(t)
    ensures JacobianOnCurve(DoubleSteps(t)) && (t.z == 0 ==> DoubleSteps(t).z == 0)
  {
    hide Prime, JacobianOnCurve, DoubleSteps, PointOf, Sum;
    PointOfRepresents(t);
    var p := PointOf(t);
    DoubleRefines(t, p);
    SumOnCurve(p, p);
    FiniteOnCurve(DoubleSteps(t));
    if DoubleSteps(t).z != 0 {
      JacobianCurveIff(DoubleSteps(t), Sum(p, p));
    }
    if t.z == 0 {
      DoubleInfinity(t);
    }
  }

  /** Addition keeps the curve through every case. */
  lemma AddKeepsCurve(l: Triple, r: Triple)
    requires Prime(P) && l.x < P && l.y < P && l.z < P && r.x < P && r.y < P && r.z < P
    requires JacobianOnCurve(l) && JacobianOnCurve(r)
    ensures JacobianOnCurve(AddSteps(l, r))
  {
    hide Prime, JacobianOnCurve, AddSteps, PointOf, Sum;
    PointOfRepresents(l);
    PointOfRepresents(r);
    AddRefines(l, r, PointOf(l), PointOf(r));
    SumOnCurve(PointOf(l), PointOf(r));
    FiniteOnCurve(AddSteps(l, r));
    if AddSteps(l, r).z != 0 {
      JacobianCurveIff(AddSteps(l, r), Sum(PointOf(l), PointOf(r)));
    }
  }

  // ---- multiples ---------------------------------------------------------------------------

  /** The group axiom the chord-and-tangent law is known to satisfy on the curve. */
  ghost predicate Associative() {
    forall a, b, c :: OnCurve(a) && OnCurve(b) && OnCurve(c) ==> Sum(Sum(a, b), c) == Sum(a, Sum(b, c))
  }

  lemma AssociativeAt(a: Point, b: Point, c: Point)
    requires Associative() && OnCurve(a) && OnCurve(b) && OnCurve(c)
    ensures Sum(Sum(a, b), c) == Sum(a, Sum(b, c))
  {
    hide Sum, OnCurve;
  }

  /** p added to itself k times. */
  ghost function Times(k: nat, p: Point): Point {
    if k == 0 then Infinity else Sum(Times(k - 1, p), p)
  }

  lemma {:induction false} TimesOnCurve(k: nat, p: Point)
    requires Prime(P) && OnCurve(p)
    ensures OnCurve(Times(k, p))
  {
    if k > 0 {
      TimesOnCurve(k - 1, p);
      SumOnCurve(Times(k - 1, p), p);
    }
  }

  lemma {:induction false} TimesAdd(j: nat, k: nat, p: Point)
    requires Prime(P) && Associative() && OnCurve(p)
    ensures Times(j + k, p) == Sum(Times(j, p), Times(k, p))
  {
    hide Sum, OnCurve, Prime, Associative;
    if k == 0 {
      SumInfinity(Times(j, p));
    } else {
      TimesAdd(j, k - 1, p);
      TimesOnCurve(j, p);
      TimesOnCurve(k - 1, p);
      AssociativeAt(Times(j, p), Times(k - 1, p), p);
      assert Times(j + k, p) == Sum(Times(j + (k - 1), p), p);
    }
  }

  lemma SumInfinity(p: Point)
    ensures Sum(p, Infinity) == p && Sum(Infinity, p) == p
  {}

  /** Multiples of a multiple multiply the scalars. */
  lemma {:induction false} TimesTimes(j: nat, k: nat, p: Point)
    requires Prime(P) && Associative() && OnCurve(p)
    ensures j * k >= 0
    ensures Times(j, Times(k, p)) == Times(j * k, p)
    decreases j
  {
    hide Sum, OnCurve, Prime, Associative;
    if j > 0 {
      TimesTimes(j - 1, k, p);
      assert j * k == (j - 1) * k + k;
      TimesAdd((j - 1) * k, k, p);
    }
  }

  /** Both sides of a key agreement reach the same point. */
  lemma AgreementCommutes(a: nat, b: nat, g: Point)
    requires Prime(P) && Associative() && OnCurve(g)
    ensures Times(a, Times(b, g)) == Times(b, Times(a, g))
  {
    hide Prime, Associative, OnCurve, Times;
    TimesTimes(a, b, g);
    TimesTimes(b, a, g);
    assert a * b == b * a;
  }

  // ---- the ladder --------------------------------------------------------------------------

  /** The accumulator once every scalar bit at or above one position has been read. */
  ghost function Ladder(e: nat, position: nat, base: Triple): Triple
    decreases FIELD_BITS - position
  {
    if position >= FIELD_BITS then Triple(0, 0, 0)
    else
      var doubled := DoubleSteps(Ladder(e, position + 1, base));
      if Above(e, position) % 2 == 1 then AddSteps(doubled, base) else doubled
  }

  lemma AboveHalves(e: nat, position: nat)
    ensures Above(e, position) == 2 * Above(e, position + 1) + Above(e, position) % 2
  {
    hide Pow;
    PowStep(2, position);
    Limbs.DivDiv(e, Pow(2, position), 2);
  }

  /** After each bit the accumulator stands for that many times the base point. */
  lemma {:induction false} LadderTimes(e: nat, position: nat, base: Triple, p: Point)
    requires Prime(P) && Associative() && OnCurve(p) && Represents(base, p)
    requires e < R && position <= FIELD_BITS
    ensures Represents(Ladder(e, position, base), Times(Above(e, position), p))
    decreases FIELD_BITS - position
  {
    hide Prime, Associative, OnCurve, DoubleSteps, AddSteps, Above, Sum;
    if position == FIELD_BITS {
      AboveEnds(e);
    } else {
      LadderTimes(e, position + 1, base, p);
      var k := Above(e, position + 1);
      AboveHalves(e, position);
      hide Represents, Times;
      DoubleRefines(Ladder(e, position + 1, base), Times(k, p));
      TimesAdd(k, k, p);
      if Above(e, position) % 2 == 1 {
        TimesOnCurve(2 * k, p);
        AddRefines(DoubleSteps(Ladder(e, position + 1, base)), base, Times(2 * k, p), p);
        TimesNext(2 * k, p);
      }
    }
  }

  lemma TimesNext(k: nat, p: Point)
    ensures Times(k + 1, p) == Sum(Times(k, p), p)
  {}

  /** The whole ladder is the scalar multiple, infinite exactly when the multiple is. */
  lemma LadderCorrect(e: nat, base: Triple, p: Point)
    requires Prime(P) && Associative() && OnCurve(p) && Represents(base, p) && e < R
    ensures PointOf(Ladder(e, 0, base)) == Times(e, p)
    ensures OnCurve(Times(e, p))
  {
    hide Prime, Associative, OnCurve, Above, Sum, Times, Ladder;
    LadderTimes(e, 0, base, p);
    AboveEnds(e);
    TimesOnCurve(e, p);
    LadderBounds(Ladder(e, 0, base), Times(e, p));
  }

  lemma LadderBounds(t: Triple, p: Point)
    requires Prime(P) && Represents(t, p)
    ensures PointOf(t) == p
  {
    hide Prime;
    PointOfRepresents(t);
    RepresentsUnique(t, p, PointOf(t));
  }
}
