/** What primality gives: inverses, cancellation, and Fermat's theorem. */
module NumberTheory {
  import opened Arithmetic

  ghost predicate Prime(p: nat) {
    p >= 2 && forall d :: 2 <= d < p ==> p % d != 0
  }

  /** Every value not divisible by a prime has an inverse, found by repeated remainders. */
  lemma {:induction false} InverseExists(a: nat, p: nat) returns (u: int)
    requires Prime(p) && 0 < a < p
    ensures Cong(u * a, 1, p)
    decreases a
  {
    if a == 1 {
      u := 1;
      CongIntro(1, 1, p, 0);
    } else {
      var q, r := p / a, p % a;
      var v := InverseExists(r, p);
      u := -q * v;
      var k := CongElim(v * r, 1, p);
      assert u * a == 1 + (k - v) * p by {
        assert r == p - q * a;
        assert v * r == v * p - v * (q * a);
        assert u * a == -(v * (q * a));
      }
      CongIntro(u * a, 1, p, k - v);
    }
  }

  /** A factor not divisible by the prime cancels. */
  lemma Cancel(a: int, b: int, c: int, p: nat)
    requires Prime(p) && !Cong(c, 0, p) && Cong(a * c, b * c, p)
    ensures Cong(a, b, p)
  {
    CongMod(c, p);
    if c % p == 0 {
      assert false;
    }
    var u := InverseExists(c % p, p);
    CongIntro(u, u, p, 0);
    CongMul(u, u, c, c % p, p);
    CongTrans(u * c, u * (c % p), 1, p);
    CancelWith(a, b, c, u, p);
  }

  lemma CancelWith(a: int, b: int, c: int, u: int, p: nat)
    requires p > 0 && Cong(u * c, 1, p) && Cong(a * c, b * c, p)
    ensures Cong(a, b, p)
  {
    Undo(a, c, u, p);
    Undo(b, c, u, p);
    CongIntro(u, u, p, 0);
    CongMul(a * c, b * c, u, u, p);
    CongSym(a * c * u, a, p);
    CongTrans(a, a * c * u, b * c * u, p);
    CongTrans(a, b * c * u, b, p);
  }

  lemma Undo(a: int, c: int, u: int, p: nat)
    requires p > 0 && Cong(u * c, 1, p)
    ensures Cong(a * c * u, a, p)
  {
    CongIntro(a, a, p, 0);
    CongMul(a, a, u * c, 1, p);
    assert a * (u * c) == a * c * u;
  }

  /** A prime that divides a product divides a factor. */
  lemma EuclidLemma(a: int, b: int, p: nat)
    requires Prime(p) && Cong(a * b, 0, p)
    ensures Cong(a, 0, p) || Cong(b, 0, p)
  {
    if !Cong(b, 0, p) {
      Cancel(a, 0, b, p);
    }
  }

  // ---- Fermat's theorem through the binomial expansion -------------------------------------

  ghost function Binomial(n: nat, k: nat): nat {
    if k == 0 then 1
    else if n == 0 then 0
    else Binomial(n - 1, k - 1) + Binomial(n - 1, k)
  }

  lemma {:induction false} BinomialBeyond(n: nat, k: nat)
    requires k > n
    ensures Binomial(n, k) == 0
  {
    if n > 0 {
      BinomialBeyond(n - 1, k - 1);
      BinomialBeyond(n - 1, k);
    }
  }

  lemma {:induction false} BinomialFull(n: nat)
    ensures Binomial(n, n) == 1
  {
    if n > 0 {
      BinomialFull(n - 1);
      BinomialBeyond(n - 1, n);
    }
  }

  lemma {:induction false} BinomialAbsorb(n: nat, k: nat)
    requires n > 0 && k > 0
    ensures k * Binomial(n, k) == n * Binomial(n - 1, k - 1)
    decreases n
  {
    if n == 1 {
      if k == 1 {
        assert Binomial(0, 1) == 0;
      } else {
        BinomialBeyond(1, k);
        BinomialBeyond(0, k - 1);
      }
    } else {
      var a, b := Binomial(n - 1, k - 1), Binomial(n - 1, k);
      BinomialAbsorb(n - 1, k);
      assert k * b == (n - 1) * Binomial(n - 2, k - 1);
      if k == 1 {
        assert a == 1 && Binomial(n - 2, 0) == 1;
        assert Binomial(n, 1) == a + b;
      } else {
        BinomialAbsorb(n - 1, k - 1);
        AbsorbAlgebra(n, k, a, b, Binomial(n - 2, k - 2), Binomial(n - 2, k - 1));
      }
    }
  }

  lemma AbsorbAlgebra(n: int, k: int, a: int, b: int, c: int, d: int)
    requires k * b == (n - 1) * d && (k - 1) * a == (n - 1) * c && a == c + d
    ensures k * (a + b) == n * a
  {
    assert k * (a + b) == (k - 1) * a + a + k * b;
    assert (n - 1) * c + (n - 1) * d == (n - 1) * a;
  }

  lemma BinomialDivisible(p: nat, k: nat)
    requires Prime(p) && 0 < k < p
    ensures Cong(Binomial(p, k), 0, p)
  {
    BinomialAbsorb(p, k);
    hide Binomial;
    FactorDivisible(k, Binomial(p, k), Binomial(p - 1, k - 1), p);
  }

  lemma FactorDivisible(k: nat, whole: nat, less: nat, p: nat)
    requires Prime(p) && 0 < k < p && k * whole == p * less
    ensures Cong(whole, 0, p)
  {
    hide Prime, Cong;
    var product := k * whole;
    assert product == 0 + less * p;
    CongIntro(product, 0, p, less);
    EuclidLemma(k, whole, p);
    if Cong(k, 0, p) {
      CongCanonical(k, 0, p);
    }
  }

  /** The first m terms of the expansion of (v + 1)^n. */
  ghost function Expansion(n: nat, m: nat, v: nat): nat {
    if m == 0 then 0 else Expansion(n, m - 1, v) + Binomial(n, m - 1) * Pow(v, m - 1)
  }

  lemma {:induction false} ExpansionStep(n: nat, m: nat, v: nat)
    ensures Expansion(n + 1, m + 1, v) == Expansion(n, m + 1, v) + v * Expansion(n, m, v)
  {
    if m == 0 {
      assert Expansion(n + 1, 1, v) == Expansion(n + 1, 0, v) + Binomial(n + 1, 0) * Pow(v, 0);
      assert Expansion(n, 1, v) == Expansion(n, 0, v) + Binomial(n, 0) * Pow(v, 0);
    } else {
      ExpansionStep(n, m - 1, v);
      PowStep(v, m - 1);
      ExpansionAlgebra(Binomial(n, m - 1), Binomial(n, m), Pow(v, m - 1), v, Pow(v, m),
                       Expansion(n, m - 1, v));
    }
  }

  lemma ExpansionAlgebra(a: int, b: int, w: int, v: int, vw: int, e: int)
    requires vw == v * w
    ensures (a + b) * vw + v * e == b * vw + v * (e + a * w)
  {
    assert v * (e + a * w) == v * e + a * (v * w);
  }

  lemma {:induction false} ExpansionIsPower(n: nat, v: nat)
    ensures Expansion(n, n + 1, v) == Pow(v + 1, n)
  {
    if n == 0 {
      assert Expansion(0, 1, v) == Expansion(0, 0, v) + Binomial(0, 0) * Pow(v, 0);
    } else {
      ExpansionIsPower(n - 1, v);
      ExpansionStep(n - 1, n, v);
      BinomialBeyond(n - 1, n);
      assert Expansion(n - 1, n + 1, v) == Expansion(n - 1, n, v);
      PowStep(v + 1, n - 1);
      assert (v + 1) * Pow(v + 1, n - 1) == v * Pow(v + 1, n - 1) + Pow(v + 1, n - 1);
    }
  }

  /** Below the full degree only the constant term survives modulo a prime. */
  lemma {:induction false} ExpansionMod(p: nat, m: nat, v: nat)
    requires Prime(p) && 1 <= m <= p
    ensures Cong(Expansion(p, m, v), 1, p)
  {
    if m == 1 {
      assert Expansion(p, 1, v) == Expansion(p, 0, v) + Binomial(p, 0) * Pow(v, 0);
      CongIntro(1, 1, p, 0);
    } else {
      ExpansionMod(p, m - 1, v);
      BinomialDivisible(p, m - 1);
      CongIntro(Pow(v, m - 1), Pow(v, m - 1), p, 0);
      CongMul(Binomial(p, m - 1), 0, Pow(v, m - 1), Pow(v, m - 1), p);
      CongAdd(Expansion(p, m - 1, v), 1, Binomial(p, m - 1) * Pow(v, m - 1), 0, p);
    }
  }

  lemma {:induction false} FermatPower(v: nat, p: nat)
    requires Prime(p)
    ensures Cong(Pow(v, p), v, p)
  {
    if v == 0 {
      PowStep(0, p - 1);
      CongIntro(0, 0, p, 0);
    } else {
      FermatPower(v - 1, p);
      ExpansionIsPower(p, v - 1);
      ExpansionMod(p, p, v - 1);
      BinomialFull(p);
      CongAdd(Expansion(p, p, v - 1), 1, Pow(v - 1, p), v - 1, p);
    }
  }

  /** v^(p-2) inverts every value the prime does not divide. */
  lemma FermatInverse(v: nat, p: nat)
    requires Prime(p) && !Cong(v, 0, p)
    ensures Cong(Pow(v, p - 2) * v, 1, p)
  {
    FermatPower(v, p);
    PowTwice(v, p);
    hide Pow, Prime, Cong;
    Cancel(Pow(v, p - 2) * v, 1, v, p);
  }

  lemma PowTwice(v: nat, p: nat)
    requires p >= 2
    ensures Pow(v, p) == Pow(v, p - 2) * v * v
  {
    PowStep(v, p - 1);
    PowStep(v, p - 2);
    hide Pow;
    var less := Pow(v, p - 2);
    assert v * (v * less) == less * v * v;
  }
}
