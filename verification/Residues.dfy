/** The Montgomery domain seen through residues: radix inverse, products and conversions. */
module Residues {
  import opened Arithmetic
  import opened Montgomery

  /** ri undoes a multiplication by the radix. */
  ghost predicate RadixInverse(radix: nat, ri: nat, m: nat) {
    m > 0 && Cong(radix * ri, 1, m)
  }

  /** An odd modulus makes every power of two invertible. */
  lemma {:induction false} OddRadix(e: nat, m: nat)
    requires m % 2 == 1
    ensures RadixInverse(Pow(2, e), Pow((m + 1) / 2, e), m)
  {
    var h := (m + 1) / 2;
    if e == 0 {
      CongIntro(1, 1, m, 0);
    } else {
      OddRadix(e - 1, m);
      CongIntro(2 * h, 1, m, 1);
      CongMul(Pow(2, e - 1) * Pow(h, e - 1), 1, 2 * h, 1, m);
      Regroup(Pow(2, e - 1), Pow(h, e - 1), 2, h);
    }
  }

  lemma Regroup(a: int, b: int, c: int, d: int)
    ensures a * b * (c * d) == (a * c) * (b * d)
  {
    calc {
      a * b * (c * d);
      { MulAssoc(a, b, c * d); }
      a * (b * (c * d));
      { assert b * (c * d) == c * (b * d); }
      a * (c * (b * d));
      { MulAssoc(a, c, b * d); }
      (a * c) * (b * d);
    }
  }

  /** Multiplying by the radix cancels. */
  lemma RadixCancel(x: int, y: int, radix: nat, ri: nat, m: nat)
    requires RadixInverse(radix, ri, m) && Cong(x * radix, y * radix, m)
    ensures Cong(x, y, m)
  {
    RadixUndo(x, radix, ri, m);
    RadixUndo(y, radix, ri, m);
    CongIntro(ri, ri, m, 0);
    CongMul(x * radix, y * radix, ri, ri, m);
    CongSym(x * radix * ri, x, m);
    CongTrans(x, x * radix * ri, y * radix * ri, m);
    CongTrans(x, y * radix * ri, y, m);
  }

  lemma RadixUndo(x: int, radix: nat, ri: nat, m: nat)
    requires RadixInverse(radix, ri, m)
    ensures Cong(x * radix * ri, x, m)
  {
    CongIntro(x, x, m, 0);
    CongMul(x, x, radix * ri, 1, m);
    MulAssoc(x, radix, ri);
  }

  /** One conditional subtraction finishes an interleaved product, exactly. */
  lemma Finish(t: nat, radix: nat, left: nat, right: nat, q: nat, m: nat, output: nat)
    requires Partial(t, radix, left, right, q, m) && m > 0
    requires output == if t >= m then t - m else t
    ensures output < m && Cong(output * radix, left * right, m)
  {
    if t >= m {
      assert (t - m) * radix == t * radix - m * radix;
      assert (q - radix) * m == q * m - radix * m;
      CongIntro(output * radix, left * right, m, q - radix);
    } else {
      CongIntro(output * radix, left * right, m, q);
    }
  }

  /** x is in the Montgomery domain as a: canonical and congruent to x times the radix. */
  ghost predicate Encodes(a: nat, x: int, radix: nat, m: nat) {
    a < m && Cong(a, x * radix, m)
  }

  /** Montgomery products multiply what is encoded. */
  lemma ProductEncodes(a: nat, x: int, b: nat, y: int, o: nat, radix: nat, ri: nat, m: nat)
    requires RadixInverse(radix, ri, m)
    requires Encodes(a, x, radix, m) && Encodes(b, y, radix, m)
    requires o < m && Cong(o * radix, a * b, m)
    ensures Encodes(o, x * y, radix, m)
  {
    CongMul(a, x * radix, b, y * radix, m);
    Regroup(x, y, radix, radix);
    Regroup(x, radix, y, radix);
    assert x * radix * (y * radix) == x * y * radix * radix by {
      MulAssoc(x * y, radix, radix);
    }
    CongTrans(o * radix, a * b, x * y * radix * radix, m);
    RadixCancel(o, x * y * radix, radix, ri, m);
  }

  /** A product with the squared radix enters the domain. */
  lemma EnterDomain(x: nat, square: nat, o: nat, radix: nat, ri: nat, m: nat)
    requires RadixInverse(radix, ri, m) && Cong(square, radix * radix, m)
    requires o < m && Cong(o * radix, x * square, m)
    ensures Encodes(o, x, radix, m)
  {
    CongIntro(x, x, m, 0);
    CongMul(x, x, square, radix * radix, m);
    MulAssoc(x, radix, radix);
    CongTrans(o * radix, x * square, x * radix * radix, m);
    RadixCancel(o, x * radix, radix, ri, m);
  }

  /** A product with a plain value leaves the domain. */
  lemma LeaveDomain(a: nat, x: nat, y: nat, o: nat, radix: nat, ri: nat, m: nat)
    requires RadixInverse(radix, ri, m) && Encodes(a, x, radix, m)
    requires o < m && Cong(o * radix, a * y, m)
    ensures o == (x * y) % m
  {
    CongIntro(y, y, m, 0);
    CongMul(a, x * radix, y, y, m);
    assert x * radix * y == x * y * radix by {
      MulAssoc(x, radix, y);
      MulAssoc(x, y, radix);
    }
    CongTrans(o * radix, a * y, x * y * radix, m);
    RadixCancel(o, x * y, radix, ri, m);
    CongIffModEqual(o, x * y, m);
    DivModUnique(o, m, 0, o);
  }
}
