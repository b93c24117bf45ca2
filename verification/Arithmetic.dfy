/** Powers, Euclidean division and congruence: the integer facts every other module leans on. */
module Arithmetic {

  function Pow(b: nat, e: nat): (r: nat)
    ensures b > 0 ==> r > 0
  {
    if e == 0 then 1 else Pow(b, e - 1) * b
  }

  lemma PowStep(b: nat, e: nat)
    ensures Pow(b, e + 1) == b * Pow(b, e)
  {}

  lemma {:induction false} PowAdd(b: nat, d: nat, e: nat)
    ensures Pow(b, d + e) == Pow(b, d) * Pow(b, e)
  {
    if e == 0 {
    } else {
      PowAdd(b, d, e - 1);
      assert Pow(b, d + e) == Pow(b, d + (e - 1)) * b;
      MulAssoc(Pow(b, d), Pow(b, e - 1), b);
    }
  }

  lemma {:induction false} PowMul(b: nat, d: nat, e: nat)
    ensures d * e >= 0
    ensures Pow(b, d * e) == Pow(Pow(b, d), e)
    decreases e
  {
    if e == 0 {
    } else {
      PowMul(b, d, e - 1);
      assert d * e == d * (e - 1) + d;
      PowAdd(b, d * (e - 1), d);
    }
  }

  lemma MulAssoc(a: int, b: int, c: int)
    ensures a * b * c == a * (b * c)
  {}

  lemma MulMonotone(a: int, b: int, c: int)
    requires a <= b && 0 <= c
    ensures a * c <= b * c
  {}

  /** Quotient and remainder are determined by their defining equation. */
  /** One more digit above a number of digits. */
  lemma DigitStep(low: nat, d: nat, b: nat, p: nat)
    requires low < p && d < b
    ensures low + d * p < b * p
  {
    MulMonotone(d, b - 1, p);
    assert (b - 1) * p == b * p - p;
  }

  lemma DivModUnique(a: int, m: int, q: int, r: int)
    requires m > 0 && a == q * m + r && 0 <= r < m
    ensures a / m == q && a % m == r
  {
    var d := a / m - q;
    assert a == (a / m) * m + a % m;
    assert d * m == r - a % m;
    if d >= 1 {
      MulMonotone(1, d, m);
      assert false;
    } else if d <= -1 {
      MulMonotone(d, -1, m);
      assert false;
    }
  }

  lemma MulModZero(k: int, m: int)
    requires m > 0
    ensures (k * m) % m == 0
  {
    DivModUnique(k * m, m, k, 0);
  }

  ghost predicate Cong(a: int, b: int, m: int)
    requires m > 0
  {
    (a - b) % m == 0
  }

  lemma CongIntro(a: int, b: int, m: int, k: int)
    requires m > 0 && a == b + k * m
    ensures Cong(a, b, m)
  {
    MulModZero(k, m);
  }

  lemma CongElim(a: int, b: int, m: int) returns (k: int)
    requires m > 0 && Cong(a, b, m)
    ensures a == b + k * m
  {
    k := (a - b) / m;
  }

  lemma CongSym(a: int, b: int, m: int)
    requires m > 0 && Cong(a, b, m)
    ensures Cong(b, a, m)
  {
    var k := CongElim(a, b, m);
    assert b == a + (-k) * m;
    CongIntro(b, a, m, -k);
  }

  lemma CongTrans(a: int, b: int, c: int, m: int)
    requires m > 0 && Cong(a, b, m) && Cong(b, c, m)
    ensures Cong(a, c, m)
  {
    var k := CongElim(a, b, m);
    var l := CongElim(b, c, m);
    assert a == c + (k + l) * m;
    CongIntro(a, c, m, k + l);
  }

  lemma CongAdd(a: int, b: int, c: int, d: int, m: int)
    requires m > 0 && Cong(a, b, m) && Cong(c, d, m)
    ensures Cong(a + c, b + d, m) && Cong(a - c, b - d, m)
  {
    var k := CongElim(a, b, m);
    var l := CongElim(c, d, m);
    assert a + c == b + d + (k + l) * m;
    CongIntro(a + c, b + d, m, k + l);
    assert a - c == b - d + (k - l) * m;
    CongIntro(a - c, b - d, m, k - l);
  }

  lemma CongMul(a: int, b: int, c: int, d: int, m: int)
    requires m > 0 && Cong(a, b, m) && Cong(c, d, m)
    ensures Cong(a * c, b * d, m)
  {
    var k := CongElim(a, b, m);
    var l := CongElim(c, d, m);
    calc {
      a * c;
      (b + k * m) * (d + l * m);
      b * d + b * (l * m) + (k * m) * d + (k * m) * (l * m);
      { MulAssoc(b, l, m); MulAssoc(k, m, l * m); assert (k * m) * d == (k * d) * m; assert k * (m * (l * m)) == (k * (l * m)) * m; }
      b * d + (b * l) * m + (k * d) * m + (k * (l * m)) * m;
      b * d + (b * l + k * d + k * (l * m)) * m;
    }
    CongIntro(a * c, b * d, m, b * l + k * d + k * (l * m));
  }

  /** A value and its remainder are congruent. */
  lemma CongMod(a: int, m: int)
    requires m > 0
    ensures Cong(a % m, a, m) && Cong(a, a % m, m)
  {
    assert a == a % m + (a / m) * m;
    CongIntro(a, a % m, m, a / m);
    CongSym(a, a % m, m);
  }

  /** Congruence is equality of remainders. */
  lemma CongIffModEqual(a: int, b: int, m: int)
    requires m > 0
    ensures Cong(a, b, m) <==> a % m == b % m
  {
    if Cong(a, b, m) {
      var k := CongElim(a, b, m);
      assert a == (b / m + k) * m + b % m;
      DivModUnique(a, m, b / m + k, b % m);
    }
    if a % m == b % m {
      assert a == b + (a / m - b / m) * m;
      CongIntro(a, b, m, a / m - b / m);
    }
  }

  /** Two canonical residues that are congruent are equal. */
  lemma CongCanonical(a: int, b: int, m: int)
    requires m > 0 && Cong(a, b, m) && 0 <= a < m && 0 <= b < m
    ensures a == b
  {
    CongIffModEqual(a, b, m);
    DivModUnique(a, m, 0, a);
    DivModUnique(b, m, 0, b);
  }

  lemma {:induction false} CongPow(a: nat, b: nat, e: nat, m: int)
    requires m > 0 && Cong(a, b, m)
    ensures Cong(Pow(a, e), Pow(b, e), m)
  {
    if e == 0 {
    } else {
      CongPow(a, b, e - 1, m);
      CongMul(Pow(a, e - 1), Pow(b, e - 1), a, b, m);
    }
  }

  lemma SmallPowers()
    ensures Pow(2, 3) == 8 && Pow(2, 7) == 128 && Pow(2, 8) == 256
  {
    assert Pow(2, 4) == 16;
    assert Pow(2, 7) == Pow(2, 4) * 8;
    assert Pow(2, 8) == Pow(2, 4) * 16;
  }

  lemma Pow16()
    ensures Pow(2, 16) == 0x1_0000
  {
    assert Pow(2, 4) == 16;
    assert Pow(2, 8) == Pow(2, 4) * Pow(2, 4);
    PowAdd(2, 8, 8);
  }

  lemma PowersOfTwo()
    ensures Pow(2, 32) == 0x1_0000_0000 && Pow(2, 64) == 0x1_0000_0000_0000_0000
  {
    hide Pow;
    Pow16();
    PowAdd(2, 16, 16);
    PowAdd(2, 32, 32);
  }
}
