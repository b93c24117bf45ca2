/**
 * Interleaved Montgomery multiplication in an arbitrary base and width. The 16x64-bit code of
 * modular_1024.cpp and the 7x32-bit code of ecc_p224_curve.cpp are its two instances.
 */
module Montgomery {
  import opened Arithmetic
  import opened Limbs

  /** Sum of two words and a carry bit as one word and the carry bit that leaves it. */
  method AddWithCarry(b: nat, carryIn: nat, x: nat, y: nat) returns (carryOut: nat, sum: nat)
    requires x < b && y < b && carryIn <= 1
    ensures sum < b && carryOut <= 1
    ensures sum + carryOut * b == x + y + carryIn
  {
    var total := x + y + carryIn;
    if total < b {
      carryOut, sum := 0, total;
    } else {
      carryOut, sum := 1, total - b;
    }
  }

  /** The largest product and two addends still fit in two words. */
  lemma HighWordFits(b: int, left: int, right: int, rest: int, low: int, high: int)
    requires 0 <= left < b && 0 <= right < b && rest <= 2 * b - 2 && 0 <= low
    requires low + high * b == left * right + rest
    ensures high < b
  {
    MulMonotone(left, b - 1, right);
    assert (b - 1) * right == b * right - right;
    assert left * right + rest <= b * right - right + 2 * b - 2;
    if high >= b {
      MulMonotone(right, b - 1, b);
      MulMonotone(b, high, b);
      assert (b - 1) * b == b * b - b;
      SquareGap(b, right);
      assert false;
    }
  }

  lemma SquareGap(b: int, right: int)
    requires 0 <= right < b
    ensures b * right - right + 2 * b - 2 < b * b
  {
    var d := b - 1 - right;
    assert right == b - 1 - d;
    assert b * right == b * b - b - b * d;
    MulMonotone(1, b, d);
  }

  lemma Distribute(x: int, y: int, b: int)
    ensures (x + y) * b == x * b + y * b
  {}

  /** Both words of a product. */
  method WideProduct(b: nat, left: nat, right: nat) returns (low: nat, high: nat)
    requires left < b && right < b
    ensures low < b && low + high * b == left * right
  {
    low, high := (left * right) % b, (left * right) / b;
  }

  /** Low and high word of left * right + addend + carry: the high word never overflows. */
  method MultiplyAccumulate(b: nat, left: nat, right: nat, addend: nat, carry: nat)
    returns (low: nat, high: nat)
    requires left < b && right < b && addend < b && carry < b
    ensures low < b && high < b
    ensures low + high * b == left * right + addend + carry
  {
    low, high := WideProduct(b, left, right);
    var spill: nat;
    spill, low := AddWithCarry(b, 0, low, addend);
    Distribute(high, spill, b);
    high := high + spill;
    spill, low := AddWithCarry(b, 0, low, carry);
    Distribute(high, spill, b);
    high := high + spill;
    HighWordFits(b, left, right, addend + carry, low, high);
  }

  /**
   * A row addition in progress: the limbs done so far and the pending carry hold the same limbs
   * of the old product plus the same limbs of left times r.
   */
  ghost predicate RowInv(b: nat, done: seq<nat>, carry: nat, was: seq<nat>, left: seq<nat>, r: nat)
    requires |done| <= |was| && |done| <= |left|
  {
    Val(b, done) + carry * Pow(b, |done|) ==
    Val(b, was[..|done|]) + Val(b, left[..|done|]) * r
  }

  lemma RowStart(b: nat, was: seq<nat>, left: seq<nat>, r: nat)
    ensures RowInv(b, [], 0, was, left, r)
  {
  }

  /** One limb of a row addition, weighted by p = b^index. */
  lemma RowAlgebra(v: int, carry: int, was: int, t: int, r: int, p: int, b: int, bp: int,
                   low: int, high: int, digit: int, limb: int)
    requires v + carry * p == was + t * r && bp == b * p
    requires low + high * b == digit * r + limb + carry
    ensures (v + low * p) + high * bp == (was + limb * p) + (t + digit * p) * r
  {
    calc {
      low * p + high * bp;
      { assert high * (b * p) == high * b * p; }
      (low + high * b) * p;
      (digit * r + limb + carry) * p;
      digit * r * p + limb * p + carry * p;
      { assert digit * r * p == digit * p * r; }
      digit * p * r + limb * p + carry * p;
    }
    Distribute(t, digit * p, r);
  }

  lemma RowStep(b: nat, done: seq<nat>, carry: nat, was: seq<nat>, left: seq<nat>, r: nat,
                low: nat, high: nat)
    requires |done| < |was| && |done| < |left|
    requires RowInv(b, done, carry, was, left, r)
    requires low + high * b == left[|done|] * r + was[|done|] + carry
    ensures RowInv(b, done + [low], high, was, left, r)
  {
    hide Val, Pow;
    var i := |done|;
    ValSnoc(b, done, low);
    ValTake(b, was, i);
    ValTake(b, left, i);
    PowStep(b, i);
    RowAlgebra(Val(b, done), carry, Val(b, was[..i]), Val(b, left[..i]), r,
               Pow(b, i), b, Pow(b, i + 1), low, high, left[i], was[i]);
  }

  lemma TopAlgebra(v: int, carry: int, was: int, t: int, p: int, b: int, bp: int,
                   low: int, high: int, limb: int)
    requires v + carry * p == was + t && bp == b * p && low + high * b == limb + carry
    ensures v + low * p + high * bp == was + limb * p + t
  {
    assert high * bp == high * b * p;
    assert (low + high * b) * p == limb * p + carry * p;
    Distribute(low, high * b, p);
  }

  /** The two top limbs absorb the last carry. */
  lemma RowTop(b: nat, done: seq<nat>, carry: nat, was: seq<nat>, left: seq<nat>, r: nat,
               top: nat, spill: nat)
    requires |done| == |left| < |was|
    requires RowInv(b, done, carry, was, left, r)
    requires top + spill * b == was[|left|] + carry
    ensures Val(b, done + [top] + [spill]) == Val(b, was[..|left| + 1]) + Val(b, left) * r
  {
    hide Val, Pow;
    var n := |left|;
    assert left[..n] == left;
    ValSnoc(b, done, top);
    ValSnoc(b, done + [top], spill);
    ValTake(b, was, n);
    PowStep(b, n);
    TopAlgebra(Val(b, done), carry, Val(b, was[..n]), Val(b, left) * r, Pow(b, n), b, Pow(b, n + 1),
               top, spill, was[n]);
  }

  /** Adds left * r into the running product, the top two limbs taking the carries. */
  method AddRow(b: nat, product: array<nat>, left: array<nat>, r: nat)
    requires b > 2 && r < b && product != left && product.Length == left.Length + 2
    requires Digits(b, left[..]) && Digits(b, product[..left.Length + 1])
    modifies product
    ensures Digits(b, product[..]) && product[left.Length + 1] <= 1
    ensures Val(b, product[..]) ==
            old(Val(b, product[..left.Length + 1])) + Val(b, left[..]) * r
  {
    hide RowInv, Val, Pow;
    var n := left.Length;
    ghost var was := product[..n + 1];
    var carry: nat := 0;
    var index := 0;
    RowStart(b, was, left[..], r);
    assert product[..0] == [];
    while index < n
      invariant 0 <= index <= n && carry < b
      invariant forall k :: index <= k <= n ==> product[k] == was[k]
      invariant Digits(b, product[..index])
      invariant RowInv(b, product[..index], carry, was, left[..], r)
    {
      ghost var done, carried := product[..index], carry;
      var low: nat;
      low, carry := MultiplyAccumulate(b, left[index], r, product[index], carry);
      RowStep(b, done, carried, was, left[..], r, low, carry);
      product[index] := low;
      index := index + 1;
      assert product[..index] == done + [low];
    }
    ghost var done := product[..n];
    var spill, top := AddWithCarry(b, 0, product[n], carry);
    product[n] := top;
    product[n + 1] := spill;
    RowTop(b, done, carry, was, left[..], r, top, spill);
    assert was[..n + 1] == was;
    assert product[..] == done + [top] + [spill];
  }

  /** A word that is a multiple of the base away from a multiple of the base is zero. */
  lemma LowClears(low: nat, high: nat, b: nat, x: nat)
    requires low < b && low + high * b == x && x % b == 0
    ensures low == 0
  {
    DivModUnique(x, b, high, low);
  }

  lemma ReduceStart(b: nat, was: seq<nat>, modulus: seq<nat>, factor: nat, low: nat, high: nat)
    requires |was| > 0 && |modulus| > 0 && low == 0
    requires low + high * b == factor * modulus[0] + was[0]
    ensures RowInv(b, [0], high, was, modulus, factor)
  {
    RowStart(b, was, modulus, factor);
    assert factor * modulus[0] == modulus[0] * factor;
    RowStep(b, [], 0, was, modulus, factor, low, high);
    assert [] + [low] == [0];
  }

  lemma ReduceTop(b: nat, done: seq<nat>, top: nat, last: nat, was: seq<nat>, modulus: seq<nat>, factor: nat)
    requires |was| == |modulus| + 2 && |done| + 1 == |modulus|
    requires Val(b, [0] + done + [top] + [last]) ==
             Val(b, was[..|modulus| + 1]) + Val(b, modulus) * factor
    ensures b * Val(b, done + [top] + [was[|was| - 1] + last]) ==
            Val(b, was) + Val(b, modulus) * factor
  {
    hide Val, Pow;
    var n := |modulus|;
    var spill := was[n + 1];
    var low := done + [top];
    assert [0] + done + [top] + [last] == [0] + (low + [last]);
    ValCons(b, 0, low + [last]);
    ValSnoc(b, low, last);
    ValSnoc(b, low, spill + last);
    ValTake(b, was, n + 1);
    assert was[..n + 2] == was;
    PowStep(b, n);
    ShiftAlgebra(Val(b, low), Val(b, was[..n + 1]) + Val(b, modulus) * factor, last, spill,
                 Pow(b, n), b, Pow(b, n + 1));
  }

  lemma ShiftAlgebra(v: int, total: int, last: int, spill: int, p: int, b: int, bp: int)
    requires bp == b * p && b * (v + last * p) == total
    ensures b * (v + (spill + last) * p) == total + spill * bp
  {
    assert (spill + last) * p == spill * p + last * p;
    assert b * (v + last * p + spill * p) == b * (v + last * p) + b * (spill * p);
    assert b * (spill * p) == spill * (b * p);
  }

  /**
   * Adds factor * modulus, which clears limb 0, and slides the window down by one limb.
   */
  method ReduceRow(b: nat, product: array<nat>, modulus: array<nat>, factor: nat)
    requires b > 2 && factor < b && product != modulus && modulus.Length > 0
    requires product.Length == modulus.Length + 2
    requires Digits(b, modulus[..]) && Digits(b, product[..]) && product[modulus.Length + 1] <= 1
    requires (factor * modulus[0] + product[0]) % b == 0
    modifies product
    ensures Digits(b, product[..modulus.Length + 1])
    ensures b * Val(b, product[..modulus.Length + 1]) ==
            old(Val(b, product[..])) + Val(b, modulus[..]) * factor
  {
    hide RowInv, Val, Pow;
    var n := modulus.Length;
    ghost var was := product[..];
    var low: nat, carry: nat := MultiplyAccumulate(b, factor, modulus[0], product[0], 0);
    LowClears(low, carry, b, factor * modulus[0] + product[0]);
    ReduceStart(b, was, modulus[..], factor, low, carry);
    carry := ReduceLimbs(b, product, modulus, factor, carry);
    ghost var done := product[..n - 1];
    var last, top := AddWithCarry(b, 0, product[n], carry);
    RowTop(b, [0] + done, carry, was, modulus[..], factor, top, last);
    ReduceTop(b, done, top, last, was, modulus[..], factor);
    product[n - 1] := top;
    product[n] := product[n + 1] + last;
    assert product[..n + 1] == done + [top] + [was[n + 1] + last];
  }

  /** The inner loop of one reduction step: every limb lands one place lower. */
  method ReduceLimbs(b: nat, product: array<nat>, modulus: array<nat>, factor: nat, first: nat) returns (carry: nat)
    requires b > 2 && factor < b && first < b && product != modulus && modulus.Length > 0
    requires product.Length == modulus.Length + 2
    requires Digits(b, modulus[..]) && Digits(b, product[..])
    requires RowInv(b, [0], first, product[..], modulus[..], factor)
    modifies product
    ensures var n := modulus.Length;
            && carry < b && product[n] == old(product[n]) && product[n + 1] == old(product[n + 1])
            && Digits(b, product[..n - 1])
            && RowInv(b, [0] + product[..n - 1], carry, old(product[..]), modulus[..], factor)
  {
    hide RowInv, Val, Pow;
    var n := modulus.Length;
    ghost var was := product[..];
    carry := first;
    assert [0] + product[..0] == [0];
    var index := 1;
    while index < n
      invariant 1 <= index <= n && carry < b
      invariant forall k :: index <= k <= n + 1 ==> product[k] == was[k]
      invariant Digits(b, product[..index - 1])
      invariant RowInv(b, [0] + product[..index - 1], carry, was, modulus[..], factor)
    {
      ghost var done, carried := product[..index - 1], carry;
      var low;
      low, carry := MultiplyAccumulate(b, factor, modulus[index], product[index], carry);
      assert factor * modulus[index] == modulus[index] * factor;
      RowStep(b, [0] + done, carried, was, modulus[..], factor, low, carry);
      product[index - 1] := low;
      index := index + 1;
      assert [0] + product[..index - 1] == [0] + done + [low];
    }
  }

  /** The factor a reduction step derives from limb 0 clears limb 0. */
  lemma FactorClears(b: nat, p0: nat, m0: nat, inverse: nat)
    requires b > 0 && (inverse * m0 + 1) % b == 0
    ensures ((p0 * inverse) % b * m0 + p0) % b == 0
  {
    var f, k := (p0 * inverse) % b, (p0 * inverse) / b;
    var j := (inverse * m0 + 1) / b;
    assert f == p0 * inverse - k * b;
    assert inverse * m0 + 1 == j * b;
    FactorAlgebra(b, p0, m0, inverse, f, k, j);
    MulModZero(p0 * j - k * m0, b);
  }

  lemma FactorAlgebra(b: int, p0: int, m0: int, inverse: int, f: int, k: int, j: int)
    requires f == p0 * inverse - k * b && inverse * m0 + 1 == j * b
    ensures f * m0 + p0 == (p0 * j - k * m0) * b
  {
    calc {
      f * m0 + p0;
      (p0 * inverse - k * b) * m0 + p0;
      p0 * inverse * m0 - k * b * m0 + p0;
      { MulAssoc(p0, inverse, m0); }
      p0 * (inverse * m0) + p0 - k * b * m0;
      { assert p0 * (inverse * m0) + p0 == p0 * (inverse * m0 + 1); }
      p0 * (j * b) - k * b * m0;
      { MulAssoc(p0, j, b); assert k * b * m0 == k * m0 * b; }
      p0 * j * b - k * m0 * b;
      (p0 * j - k * m0) * b;
    }
  }

  /** The factor of one reduction step: limb 0 times the negated inverse, one limb kept. */
  method ReductionFactor(b: nat, p0: nat, m0: nat, inverse: nat) returns (factor: nat)
    requires b > 0 && (inverse * m0 + 1) % b == 0
    ensures factor < b && (factor * m0 + p0) % b == 0
  {
    factor := (p0 * inverse) % b;
    FactorClears(b, p0, m0, inverse);
  }

  /**
   * What the outer loop keeps: t * b^o is the partial product plus q multiples of the modulus, with
   * q below b^o, and t stays below twice the modulus.
   */
  ghost predicate Partial(t: nat, weight: nat, left: nat, read: nat, q: nat, m: nat) {
    t * weight == left * read + q * m && q < weight && read < weight && t < 2 * m
  }

  lemma PartialBound(t: nat, weight: nat, left: nat, read: nat, q: nat, m: nat)
    requires Partial(t, weight, left, read, q, m)
    ensures t < 2 * m
  {}

  lemma PartialStart(b: nat, zeros: seq<nat>, left: nat, m: nat)
    requires m > 0 && forall i :: 0 <= i < |zeros| ==> zeros[i] == 0
    ensures Partial(Val(b, zeros), Pow(b, 0), left, Val(b, []), 0, m)
  {
    ValZeros(b, zeros);
  }

  /** One outer step keeps the running value below twice the modulus. */
  lemma StepBound(b: nat, t: nat, left: nat, r: nat, f: nat, m: nat, t': nat)
    requires t < 2 * m && left < m && r < b && f < b && b * t' == t + left * r + m * f
    ensures t' < 2 * m
  {
    ProductBelow(left, r, b, m);
    ProductBelow(m, f, b, m);
    if t' >= 2 * m {
      DividedAtLeast(b, t', m);
      assert false;
    }
  }

  lemma ProductBelow(a: nat, r: nat, b: nat, m: nat)
    requires a <= m && r < b
    ensures a * r <= m * b - m
  {
    MulMonotone(r, b - 1, a);
    MulMonotone(a, m, b - 1);
    assert (b - 1) * m == m * b - m;
  }

  lemma DividedAtLeast(b: nat, t': nat, m: nat)
    requires t' >= 2 * m
    ensures b * t' >= 2 * (m * b)
  {
    MulMonotone(2 * m, t', b);
    assert 2 * m * b == 2 * (m * b);
  }

  lemma StepAlgebra(b: int, t: int, w: int, left: int, read: int, q: int, m: int, r: int, f: int, t': int)
    requires t * w == left * read + q * m && b * t' == t + left * r + m * f
    ensures t' * (b * w) == left * (read + r * w) + (q + f * w) * m
  {
    calc {
      t' * (b * w);
      { assert t' * (b * w) == b * t' * w; }
      (t + left * r + m * f) * w;
      t * w + left * r * w + m * f * w;
      { MulAssoc(left, r, w); assert m * f * w == f * w * m; }
      left * read + q * m + left * (r * w) + f * w * m;
      left * (read + r * w) + (q + f * w) * m;
    }
  }

  lemma PartialStep(b: nat, t: nat, w: nat, left: nat, read: nat, q: nat, m: nat, r: nat, f: nat, t': nat)
    requires Partial(t, w, left, read, q, m) && left < m && r < b && f < b
    requires b * t' == t + left * r + m * f
    ensures Partial(t', b * w, left, read + r * w, q + f * w, m)
  {
    StepBound(b, t, left, r, f, m, t');
    StepAlgebra(b, t, w, left, read, q, m, r, f, t');
    DigitStep(q, f, b, w);
    DigitStep(read, r, b, w);
  }

  /** One outer step: add left times one limb, then reduce by one limb. */
  method MultiplyReduce(b: nat, product: array<nat>, modulus: array<nat>, inverse: nat, left: array<nat>, r: nat)
    returns (ghost factor: nat)
    requires b > 2 && r < b && product != modulus && product != left
    requires modulus.Length == left.Length > 0 && product.Length == modulus.Length + 2
    requires Digits(b, modulus[..]) && Digits(b, left[..]) && Digits(b, product[..modulus.Length + 1])
    requires (inverse * modulus[0] + 1) % b == 0
    modifies product
    ensures factor < b && Digits(b, product[..modulus.Length + 1])
    ensures b * Val(b, product[..modulus.Length + 1]) ==
            old(Val(b, product[..modulus.Length + 1])) + Val(b, left[..]) * r + Val(b, modulus[..]) * factor
  {
    hide Val;
    AddRow(b, product, left, r);
    var f := ReductionFactor(b, product[0], modulus[0], inverse);
    ReduceRow(b, product, modulus, f);
    factor := f;
  }

  /**
   * The interleaved loops: multiply by one limb of right, then reduce by one limb. The result is
   * left * right / b^n up to a multiple of the modulus, and below twice the modulus.
   */
  method Interleave(b: nat, modulus: array<nat>, inverse: nat, left: array<nat>, right: array<nat>)
    returns (product: array<nat>, ghost q: nat)
    requires b > 2 && modulus.Length == left.Length == right.Length > 0
    requires Digits(b, modulus[..]) && Digits(b, left[..]) && Digits(b, right[..])
    requires (inverse * modulus[0] + 1) % b == 0
    requires Val(b, left[..]) < Val(b, modulus[..])
    ensures fresh(product) && product.Length == modulus.Length + 2
    ensures Digits(b, product[..modulus.Length + 1])
    ensures Partial(Val(b, product[..modulus.Length + 1]), Pow(b, modulus.Length),
                    Val(b, left[..]), Val(b, right[..]), q, Val(b, modulus[..]))
  {
    hide Val, Pow, Partial;
    var n := modulus.Length;
    product := new nat[n + 2](_ => 0);
    q := 0;
    ghost var l, m := Val(b, left[..]), Val(b, modulus[..]);
    PartialStart(b, product[..n + 1], l, m);
    var outer := 0;
    assert right[..outer] == [];
    while outer < n
      invariant 0 <= outer <= n
      invariant Digits(b, product[..n + 1])
      invariant Partial(Val(b, product[..n + 1]), Pow(b, outer), l, Val(b, right[..outer]), q, m)
    {
      ghost var t := Val(b, product[..n + 1]);
      ghost var factor := MultiplyReduce(b, product, modulus, inverse, left, right[outer]);
      q := PartialNext(b, t, l, right[..], outer, q, factor, Val(b, product[..n + 1]), m);
      assert right[..][..outer] == right[..outer] && right[..][..outer + 1] == right[..outer + 1];
      outer := outer + 1;
    }
    assert right[..n] == right[..];
  }

  /** One more limb of right: the partial product after its outer step. */
  lemma PartialNext(b: nat, t: nat, left: nat, right: seq<nat>, outer: nat, q: nat, factor: nat, t': nat, m: nat)
    returns (next: nat)
    requires b > 2 && outer < |right| && Digits(b, right) && factor < b && left < m
    requires Partial(t, Pow(b, outer), left, Val(b, right[..outer]), q, m)
    requires b * t' == t + left * right[outer] + m * factor
    ensures Partial(t', Pow(b, outer + 1), left, Val(b, right[..outer + 1]), next, m)
  {
    hide Val, Pow, Partial;
    PartialStep(b, t, Pow(b, outer), left, Val(b, right[..outer]), q, m, right[outer], factor, t');
    ValTake(b, right, outer);
    PowStep(b, outer);
    next := q + factor * Pow(b, outer);
  }
}
