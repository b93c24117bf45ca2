/** Fixed-width 1024-bit modular arithmetic: sixteen 64-bit limbs and an odd normalized modulus. */
module Modular1024 {
  import opened Arithmetic
  import opened Limbs
  import opened Montgomery
  import opened Residues
  import opened WordChains
  import opened Wrappers

  const WORD: nat := 0x1_0000_0000_0000_0000
  const LIMBS: nat := 16
  const LIMB_BITS: nat := 64
  const VALUE_BITS: nat := 1024

  /** Two to the power of 1024. */
  ghost function Radix(): nat { Pow(WORD, LIMBS) }

  ghost predicate IsNumber(a: array<nat>)
    reads a
  {
    a.Length == LIMBS && Digits(WORD, a[..])
  }

  ghost function Num(a: array<nat>): nat
    reads a
  {
    Val(WORD, a[..])
  }

  /** An odd modulus with its top bit set, and the constants derived from it. */
  datatype Modulus = Modulus(value: array<nat>, montgomeryFactor: array<nat>, inverse: nat) {
    ghost predicate Ready()
      reads value, montgomeryFactor
    {
      && IsNumber(value) && IsNumber(montgomeryFactor) && value != montgomeryFactor
      && inverse < WORD && (inverse * value[0] + 1) % WORD == 0
      && Num(value) % 2 == 1 && Radix() < 2 * Num(value)
      && Num(montgomeryFactor) < Num(value)
      && Cong(Num(montgomeryFactor), Radix() * Radix(), Num(value))
    }
  }

  /** Compares two values from the most significant limb down. */
  method LessThan(left: array<nat>, right: array<nat>) returns (less: bool)
    requires IsNumber(left) && IsNumber(right)
    ensures less <==> Num(left) < Num(right)
  {
    hide Val, Pow;
    var index := LIMBS;
    while index > 0
      invariant 0 <= index <= LIMBS
      invariant left[index..] == right[index..]
    {
      var high, low := left[index - 1], right[index - 1];
      if high != low {
        if high < low {
          ValOrder(WORD, left[..], right[..], index - 1);
        } else {
          ValOrder(WORD, right[..], left[..], index - 1);
        }
        return high < low;
      }
      index := index - 1;
    }
    assert left[..] == left[0..] && right[..] == right[0..];
    return false;
  }

  // ---- constants ---------------------------------------------------------------------------

  lemma RadixIsPow2()
    ensures Radix() == Pow(2, VALUE_BITS)
  {
    hide Pow;
    PowersOfTwo();
    PowMul(2, 64, 16);
  }

  lemma RadixFits(a: array<nat>)
    requires IsNumber(a)
    ensures Num(a) < Radix()
  {
    hide Val, Pow;
    ValBound(WORD, a[..]);
  }

  /** Parity lives in limb 0. */
  lemma ParityOfNum(a: array<nat>)
    requires IsNumber(a)
    ensures Num(a) % 2 == a[0] % 2
  {
    hide Val, Pow;
    assert a[..] == [a[0]] + a[1..];
    var rest := Val(WORD, a[1..]);
    ValCons(WORD, a[0], a[1..]);
    EvenAbove(a[0], rest);
  }

  lemma EvenAbove(low: nat, rest: nat)
    ensures (low + WORD * rest) % 2 == low % 2
  {
    var k := 0x8000_0000_0000_0000 * rest;
    assert WORD * rest == 2 * k;
    DivModUnique(low + WORD * rest, 2, low / 2 + k, low % 2);
  }

  lemma TopAlgebra(low: int, top: int, p: int, b: int)
    requires 0 <= low < p && 0 <= top < b && b % 2 == 0
    ensures top >= b / 2 <==> b * p <= 2 * (low + top * p)
  {
    var h := b / 2;
    assert b * p == 2 * (h * p);
    if top >= h {
      MulMonotone(h, top, p);
    } else {
      MulMonotone(top + 1, h, p);
      Distribute(top, 1, p);
    }
  }

  lemma TopBitOfLimb(t: nat)
    requires t < WORD
    ensures Pow(2, LIMB_BITS - 1) == WORD / 2
    ensures t / Pow(2, LIMB_BITS - 1) != 0 <==> t >= WORD / 2
  {
    hide Pow;
    PowersOfTwo();
    PowStep(2, 63);
    var h := WORD / 2;
    if t >= h {
      DivModUnique(t, h, 1, t - h);
    } else {
      DivModUnique(t, h, 0, t);
    }
  }

  /** The top bit of the top limb decides whether doubling leaves 1024 bits. */
  lemma NormalizedIff(a: array<nat>)
    requires IsNumber(a)
    ensures a[LIMBS - 1] / Pow(2, LIMB_BITS - 1) != 0 <==> Radix() <= 2 * Num(a)
  {
    hide Val, Pow;
    var s := a[..];
    TopBitOfLimb(s[15]);
    ValTake(WORD, s, 15);
    assert s[..16] == s;
    ValBound(WORD, s[..15]);
    PowStep(WORD, 15);
    TopAlgebra(Val(WORD, s[..15]), s[15], Pow(WORD, 15), WORD);
  }

  lemma RadixEven()
    ensures Radix() % 4 == 0
  {
    hide Pow;
    RadixIsPow2();
    PowStep(2, 1023);
    PowStep(2, 1022);
  }

  // ---- reduction ---------------------------------------------------------------------------

  /** Subtracts the modulus when the value, overflow included, has reached it. */
  method ReduceOnce(value: array<nat>, modulus: array<nat>, overflow: nat)
    requires IsNumber(value) && IsNumber(modulus) && value != modulus && overflow <= 1
    requires Num(value) + overflow * Radix() < 2 * Num(modulus)
    modifies value
    ensures IsNumber(value) && Num(value) < Num(modulus)
    ensures var whole := old(Num(value)) + overflow * Radix();
            Num(value) == if whole >= Num(modulus) then whole - Num(modulus) else whole
  {
    hide Val, Pow, Digits;
    RadixFits(value);
    RadixFits(modulus);
    assert overflow * Radix() == if overflow == 0 then 0 else Radix();
    var less := LessThan(value, modulus);
    if overflow != 0 || !less {
      var reduced := new nat[LIMBS](i requires 0 <= i < LIMBS reads value requires value.Length == LIMBS => value[i]);
      assert reduced[..] == value[..];
      var borrow := SubtractWords(WORD, reduced, modulus, reduced);
      RadixFits(reduced);
      assert borrow * Radix() == if borrow == 0 then 0 else Radix();
      forall i | 0 <= i < LIMBS {
        value[i] := reduced[i];
      }
      assert value[..] == reduced[..];
      assert IsNumber(reduced);
      assert Num(value) == Num(reduced);
      assert Num(reduced) + Num(modulus) == old(Num(value)) + borrow * Radix();
    }
  }

  /** The canonical residue of a sum below twice the modulus. */
  lemma OnceReduced(x: nat, m: nat, r: nat)
    requires x < 2 * m && r == if x >= m then x - m else x
    ensures r == x % m
  {
    if x >= m {
      DivModUnique(x, m, 1, x - m);
    } else {
      DivModUnique(x, m, 0, x);
    }
  }

  /** Doubles a reduced value in place. */
  method DoubleValue(modulus: array<nat>, value: array<nat>)
    requires IsNumber(modulus) && IsNumber(value) && modulus != value && Num(value) < Num(modulus)
    modifies value
    ensures IsNumber(value) && Num(value) < Num(modulus)
    ensures Num(value) == (2 * old(Num(value))) % Num(modulus)
  {
    hide Val, Pow, Digits;
    var carry := AddWords(WORD, value, value, value);
    ReduceOnce(value, modulus, carry);
    OnceReduced(2 * old(Num(value)), Num(modulus), Num(value));
  }

  /** Adds two reduced values; the output may alias an input. */
  method Add(modulus: Modulus, left: array<nat>, right: array<nat>, output: array<nat>)
    requires modulus.Ready() && IsNumber(left) && IsNumber(right) && output.Length == LIMBS
    requires Num(left) < Num(modulus.value) && Num(right) < Num(modulus.value)
    requires output != modulus.value && output != modulus.montgomeryFactor
    modifies output
    ensures IsNumber(output) && modulus.Ready()
    ensures Num(output) == (old(Num(left)) + old(Num(right))) % Num(modulus.value)
  {
    hide Val, Pow, Digits;
    var result := new nat[LIMBS];
    var carry := AddWords(WORD, left, right, result);
    ReduceOnce(result, modulus.value, carry);
    OnceReduced(Num(left) + Num(right), Num(modulus.value), Num(result));
    CopyNumber(result, output);
  }

  method CopyNumber(source: array<nat>, output: array<nat>)
    requires IsNumber(source) && output.Length == LIMBS
    modifies output
    ensures IsNumber(output) && Num(output) == old(Num(source)) && output[..] == old(source[..])
  {
    forall i | 0 <= i < LIMBS {
      output[i] := source[i];
    }
    assert output[..] == old(source[..]);
  }

  // ---- Montgomery constants ----------------------------------------------------------------

  /** The power of two a Newton round is exact modulo: it squares every round. */
  ghost function Precision(round: nat): (p: nat)
    ensures p > 0
  {
    if round == 0 then 2 else Precision(round - 1) * Precision(round - 1)
  }

  lemma PrecisionDivides(round: nat)
    requires round <= 6
    ensures WORD % Precision(round) == 0
    ensures round == 6 ==> Precision(round) == WORD
  {
    assert Precision(0) == 2;
    assert Precision(1) == 4;
    assert Precision(2) == 16;
    assert Precision(3) == 256;
    assert Precision(4) == 0x1_0000;
    assert Precision(5) == 0x1_0000_0000;
    assert Precision(6) == WORD;
  }

  /** One Newton round doubles the correct bits: an error e = kp becomes -e * e. */
  lemma NewtonStep(limb: int, x: int, p: nat, next: int)
    requires p > 0 && Cong(limb * x, 1, p)
    requires p * p > 0 && Cong(next, x * (2 - limb * x), p * p)
    ensures Cong(limb * next, 1, p * p)
  {
    var k := CongElim(limb * x, 1, p);
    var e := k * p;
    CongIntro(limb, limb, p * p, 0);
    CongMul(limb, limb, next, x * (2 - limb * x), p * p);
    calc {
      limb * (x * (2 - limb * x));
      { MulAssoc(limb, x, 2 - limb * x); }
      limb * x * (2 - limb * x);
      (1 + e) * (1 - e);
      1 - e * e;
      { Regroup(k, p, k, p); }
      1 + (-(k * k)) * (p * p);
    }
    CongIntro(limb * (x * (2 - limb * x)), 1, p * p, -(k * k));
    CongTrans(limb * next, limb * (x * (2 - limb * x)), 1, p * p);
  }

  /** A congruence survives passing to a divisor of the modulus. */
  lemma CongDivisor(a: int, b: int, whole: nat, part: nat)
    requires part > 0 && whole > 0 && whole % part == 0 && Cong(a, b, whole)
    ensures Cong(a, b, part)
  {
    var k := CongElim(a, b, whole);
    MulAssoc(k, whole / part, part);
    CongIntro(a, b, part, k * (whole / part));
  }

  lemma WrappedRound(limb: int, x: int, round: nat, next: int)
    requires round < 6 && Cong(limb * x, 1, Precision(round))
    requires next == (x * (2 - limb * x)) % WORD
    ensures Cong(limb * next, 1, Precision(round + 1))
  {
    hide Precision;
    var raw := x * (2 - limb * x);
    CongMod(raw, WORD);
    PrecisionDivides(round + 1);
    CongDivisor(next, raw, WORD, Precision(round + 1));
    assert Precision(round + 1) == Precision(round) * Precision(round) by {
      PrecisionSquares(round);
    }
    NewtonStep(limb, x, Precision(round), next);
  }

  lemma PrecisionSquares(round: nat)
    ensures Precision(round + 1) == Precision(round) * Precision(round)
  {}

  /** Negates an inverse modulo the word. */
  lemma Negated(limb: int, inverse: nat)
    requires inverse < WORD && Cong(limb * inverse, 1, WORD)
    ensures ((WORD - inverse) % WORD * limb + 1) % WORD == 0
  {
    var k := CongElim(limb * inverse, 1, WORD);
    var n, j := (WORD - inverse) % WORD, (WORD - inverse) / WORD;
    assert n == WORD - inverse - j * WORD;
    assert n * limb + 1 == (limb - k - j * limb) * WORD by {
      assert n * limb == limb * WORD - limb * inverse - j * limb * WORD;
    }
    MulModZero(limb - k - j * limb, WORD);
  }

  /** Negated inverse of one odd limb modulo two to the power of 64. */
  method NegatedInverse(limb: nat) returns (negated: nat)
    requires limb % 2 == 1
    ensures negated < WORD && (negated * limb + 1) % WORD == 0
  {
    hide Precision;
    var inverse: nat := 1;
    assert Cong(limb * inverse, 1, Precision(0)) by {
      PrecisionStart();
      CongIntro(limb * inverse, 1, 2, limb / 2);
    }
    for round := 0 to 6
      invariant inverse < WORD && Cong(limb * inverse, 1, Precision(round))
    {
      var next: nat := (inverse * (2 - limb * inverse)) % WORD;
      WrappedRound(limb, inverse, round, next);
      inverse := next;
    }
    PrecisionDivides(6);
    Negated(limb, inverse);
    negated := (WORD - inverse) % WORD;
  }

  lemma PrecisionStart()
    ensures Precision(0) == 2
  {}

  // ---- products ----------------------------------------------------------------------------

  /** The top limb of an interleaved product is its overflow bit. */
  lemma SplitProduct(s: seq<nat>, m: nat)
    requires |s| == LIMBS + 1 && Val(WORD, s) < 2 * m && m <= Radix()
    ensures Val(WORD, s) == Val(WORD, s[..LIMBS]) + s[LIMBS] * Radix()
    ensures s[LIMBS] <= 1
  {
    hide Val, Pow;
    ValTake(WORD, s, LIMBS);
    assert s[..LIMBS + 1] == s;
    if s[LIMBS] >= 2 {
      MulMonotone(2, s[LIMBS], Radix());
    }
  }

  /** Montgomery product; the output may alias either factor. */
  method MontgomeryMultiply(modulus: Modulus, left: array<nat>, right: array<nat>, output: array<nat>)
    requires modulus.Ready() && IsNumber(left) && IsNumber(right) && output.Length == LIMBS
    requires Num(left) < Num(modulus.value)
    requires output != modulus.value && output != modulus.montgomeryFactor
    modifies output
    ensures modulus.Ready() && IsNumber(output) && Num(output) < Num(modulus.value)
    ensures Cong(Num(output) * Radix(), old(Num(left)) * old(Num(right)), Num(modulus.value))
  {
    hide Val, Pow, Digits, Partial, Cong;
    var product, q := Interleave(WORD, modulus.value, modulus.inverse, left, right);
    RadixFits(modulus.value);
    PartialBound(Val(WORD, product[..LIMBS + 1]), Radix(), Num(left), Num(right), q, Num(modulus.value));
    SplitProduct(product[..LIMBS + 1], Num(modulus.value));
    assert product[..LIMBS + 1][..LIMBS] == product[..LIMBS];
    var result := new nat[LIMBS](i requires 0 <= i < LIMBS reads product requires product.Length > LIMBS => product[i]);
    assert result[..] == product[..LIMBS];
    DigitsTake(WORD, product[..LIMBS + 1], LIMBS);
    ReduceOnce(result, modulus.value, if product[LIMBS] != 0 then 1 else 0);
    Finish(Val(WORD, product[..LIMBS + 1]), Radix(), Num(left), Num(right), q, Num(modulus.value),
           Num(result));
    CopyNumber(result, output);
  }

  // ---- prepare -----------------------------------------------------------------------------

  /** Doubling a residue of x modulo m gives a residue of 2x. */
  lemma DoubledResidue(r: int, x: int, m: nat, next: int)
    requires m > 0 && Cong(r, x, m) && next == (2 * r) % m
    ensures Cong(next, x * 2, m)
  {
    CongAdd(r, x, r, x, m);
    CongMod(2 * r, m);
    CongTrans(next, 2 * r, x * 2, m);
  }

  /** Radix minus the modulus, doubled once per bit of the radix, is the squared radix. */
  method SquaredRadix(modulus: array<nat>) returns (residue: array<nat>)
    requires IsNumber(modulus) && Radix() < 2 * Num(modulus)
    ensures fresh(residue) && IsNumber(residue) && Num(residue) < Num(modulus)
    ensures Cong(Num(residue), Radix() * Radix(), Num(modulus))
  {
    hide Val, Pow, Digits, Cong, Radix;
    ghost var m := Num(modulus);
    residue := new nat[LIMBS](_ => 0);
    ZeroNumber(residue);
    RadixFits(modulus);
    var borrow := SubtractWords(WORD, residue, modulus, residue);
    RadixFits(residue);
    assert Pow(WORD, LIMBS) == Radix() by { RadixUnfold(); }
    FirstResidue(Num(residue), m, borrow, Radix());
    for round := 0 to VALUE_BITS
      invariant IsNumber(residue) && Num(residue) < m
      invariant Cong(Num(residue), Radix() * Pow(2, round), m)
    {
      ghost var r := Num(residue);
      DoubleValue(modulus, residue);
      DoubledResidue(r, Radix() * Pow(2, round), m, Num(residue));
      PowStep(2, round);
      MulAssoc(Radix(), Pow(2, round), 2);
    }
    RadixIsPow2();
  }

  lemma RadixUnfold()
    ensures Pow(WORD, LIMBS) == Radix()
  {}

  lemma ZeroNumber(a: array<nat>)
    requires a.Length == LIMBS && forall i :: 0 <= i < LIMBS ==> a[i] == 0
    ensures IsNumber(a) && Num(a) == 0
  {
    ValZeros(WORD, a[..]);
  }

  /** Zero minus the modulus wraps to the radix residue. */
  lemma FirstResidue(r: nat, m: nat, borrow: nat, radix: nat)
    requires r + m == borrow * radix && borrow <= 1 && 0 < m && radix < 2 * m
    ensures r < m && Cong(r, radix * Pow(2, 0), m)
  {
    CongIntro(r, radix, m, -1);
  }

  /** Derives the Montgomery constants; only an odd normalized modulus is accepted. */
  method Prepare(modulus: array<nat>) returns (prepared: Option<Modulus>)
    requires IsNumber(modulus)
    ensures prepared.Some? <==> Num(modulus) % 2 == 1 && Radix() <= 2 * Num(modulus)
    ensures prepared.Some? ==>
              prepared.value.Ready() && Num(prepared.value.value) == Num(modulus)
    ensures prepared.Some? ==> fresh(prepared.value.value) && fresh(prepared.value.montgomeryFactor)
  {
    hide Val, Pow, Digits, Cong;
    ParityOfNum(modulus);
    NormalizedIff(modulus);
    RadixEven();
    var odd := modulus[0] % 2 != 0;
    var normalized := modulus[LIMBS - 1] / Pow(2, LIMB_BITS - 1) != 0;
    if !odd || !normalized {
      return None;
    }
    var value := new nat[LIMBS];
    CopyNumber(modulus, value);
    var inverse := NegatedInverse(value[0]);
    var residue := SquaredRadix(value);
    prepared := Some(Modulus(value, residue, inverse));
  }

  // ---- plain products and powers -----------------------------------------------------------

  lemma ReadyInverse(m: nat) returns (ri: nat)
    requires m % 2 == 1
    ensures RadixInverse(Radix(), ri, m)
  {
    RadixIsPow2();
    OddRadix(VALUE_BITS, m);
    ri := Pow((m + 1) / 2, VALUE_BITS);
  }

  /** Multiplies two reduced values; the output may alias an input. */
  method Multiply(modulus: Modulus, left: array<nat>, right: array<nat>, output: array<nat>)
    requires modulus.Ready() && IsNumber(left) && IsNumber(right) && output.Length == LIMBS
    requires Num(left) < Num(modulus.value) && Num(right) < Num(modulus.value)
    requires output != modulus.value && output != modulus.montgomeryFactor
    modifies output
    ensures modulus.Ready() && IsNumber(output)
    ensures Num(output) == (old(Num(left)) * old(Num(right))) % Num(modulus.value)
  {
    hide Val, Pow, Digits, Cong, RadixInverse, Encodes;
    ghost var m, square := Num(modulus.value), Num(modulus.montgomeryFactor);
    ghost var x, y := Num(left), Num(right);
    var product := new nat[LIMBS];
    MontgomeryMultiply(modulus, left, right, product);
    ghost var p := Num(product);
    MontgomeryMultiply(modulus, product, modulus.montgomeryFactor, output);
    ghost var ri := ReadyInverse(m);
    EnterDomain(p, square, Num(output), Radix(), ri, m);
    EncodedProduct(Num(output), p, x, y, Radix(), m);
  }

  /** The two Montgomery factors of the radix cancel. */
  lemma EncodedProduct(o: nat, p: nat, x: nat, y: nat, radix: nat, m: nat)
    requires m > 0 && Encodes(o, p, radix, m) && Cong(p * radix, x * y, m)
    ensures o == (x * y) % m
  {
    CongTrans(o, p * radix, x * y, m);
    CongIffModEqual(o, x * y, m);
    DivModUnique(o, m, 0, o);
  }

  /** Bit of a value at one position, counted from the least significant. */
  function BitAt(value: array<nat>, position: nat): bool
    requires value.Length == LIMBS && position < VALUE_BITS
    reads value
  {
    value[position / LIMB_BITS] / Pow(2, position % LIMB_BITS) % 2 != 0
  }

  /** The exponent bits at and above one position. */
  ghost function Above(e: nat, position: nat): nat {
    e / Pow(2, position)
  }

  lemma AboveEnds(e: nat)
    ensures Above(e, 0) == e
    ensures e < Radix() ==> Above(e, VALUE_BITS) == 0
  {
    RadixIsPow2();
    hide Pow;
    assert Pow(2, 0) == 1 by { PowZero(2); }
    if e < Radix() {
      DivModUnique(e, Radix(), 0, e);
    }
  }

  lemma PowZero(b: nat)
    ensures Pow(b, 0) == 1
  {}

  /** The exponent bits read so far double and add. */
  lemma BitAtHalves(value: array<nat>, position: nat)
    requires IsNumber(value) && position < VALUE_BITS
    ensures Above(Num(value), position) ==
            2 * Above(Num(value), position + 1) + if BitAt(value, position) then 1 else 0
  {
    hide Val, Pow, Digits;
    PowersOfTwo();
    ValBit(64, value[..], position / 64, position % 64);
    assert 64 * (position / 64) + position % 64 == position;
    PowStep(2, position);
    DivDiv(Num(value), Pow(2, position), 2);
  }

  lemma PowDouble(b: nat, k: nat)
    ensures Pow(b, 2 * k) == Pow(b, k) * Pow(b, k) && Pow(b, 2 * k + 1) == Pow(b, 2 * k) * b
  {
    PowAdd(b, k, k);
    PowStep(b, 2 * k);
  }

  /** Position above the highest set bit, zero for a zero exponent. */
  method HighestBit(exponent: array<nat>) returns (highest: nat)
    requires IsNumber(exponent)
    ensures highest <= VALUE_BITS && Above(Num(exponent), highest) == 0
    ensures highest > 0 ==> BitAt(exponent, highest - 1)
  {
    hide Val, Pow, Digits, BitAt, Above;
    RadixFits(exponent);
    AboveEnds(Num(exponent));
    highest := VALUE_BITS;
    while highest > 0 && !BitAt(exponent, highest - 1)
      invariant highest <= VALUE_BITS && Above(Num(exponent), highest) == 0
    {
      BitAtHalves(exponent, highest - 1);
      highest := highest - 1;
    }
  }

  method SetSmall(output: array<nat>, value: nat)
    requires output.Length == LIMBS && value < WORD
    modifies output
    ensures IsNumber(output) && Num(output) == value
  {
    forall i | 0 <= i < LIMBS {
      output[i] := 0;
    }
    output[0] := value;
    assert output[..] == [value] + output[1..];
    ValCons(WORD, value, output[1..]);
    ValZeros(WORD, output[1..]);
  }

  /** What one squaring, and one further product when the bit is set, do to an encoded power. */
  lemma PowerSquared(a: nat, b: nat, k: nat, o: nat, m: nat, radix: nat, ri: nat)
    requires RadixInverse(radix, ri, m) && Encodes(a, Pow(b, k), radix, m)
    requires o < m && Cong(o * radix, a * a, m)
    ensures Encodes(o, Pow(b, 2 * k), radix, m)
  {
    hide Pow, Encodes, Cong, RadixInverse;
    ProductEncodes(a, Pow(b, k), a, Pow(b, k), o, radix, ri, m);
    PowDouble(b, k);
  }

  lemma PowerTimes(a: nat, b: nat, k: nat, f: nat, o: nat, m: nat, radix: nat, ri: nat)
    requires RadixInverse(radix, ri, m)
    requires Encodes(a, Pow(b, 2 * k), radix, m) && Encodes(f, b, radix, m)
    requires o < m && Cong(o * radix, a * f, m)
    ensures Encodes(o, Pow(b, 2 * k + 1), radix, m)
  {
    hide Pow, Encodes, Cong, RadixInverse;
    ProductEncodes(a, Pow(b, 2 * k), f, b, o, radix, ri, m);
    PowDouble(b, k);
  }

  /** The square-and-multiply loop, in the Montgomery domain. */
  method PowerLoop(modulus: Modulus, factor: array<nat>, exponent: array<nat>, accumulator: array<nat>,
                   ghost base: nat, ghost ri: nat)
    requires modulus.Ready() && IsNumber(factor) && IsNumber(exponent) && IsNumber(accumulator)
    requires accumulator != modulus.value && accumulator != modulus.montgomeryFactor
    requires accumulator != factor && accumulator != exponent
    requires RadixInverse(Radix(), ri, Num(modulus.value))
    requires Encodes(Num(factor), base, Radix(), Num(modulus.value))
    requires Encodes(Num(accumulator), 1, Radix(), Num(modulus.value))
    modifies accumulator
    ensures modulus.Ready() && IsNumber(accumulator)
    ensures Encodes(Num(accumulator), Pow(base, Num(exponent)), Radix(), Num(modulus.value))
  {
    hide Val, Pow, Digits, Cong, RadixInverse, BitAt, Radix, Encodes, Above;
    ghost var m, e := Num(modulus.value), Num(exponent);
    PowZero(base);
    AboveEnds(e);
    var position := HighestBit(exponent);
    while position > 0
      invariant 0 <= position <= VALUE_BITS && modulus.Ready() && IsNumber(accumulator)
      invariant Encodes(Num(accumulator), Pow(base, Above(e, position)), Radix(), m)
    {
      ghost var a, k := Num(accumulator), Above(e, position);
      EncodesBound(a, Pow(base, k), m);
      MontgomeryMultiply(modulus, accumulator, accumulator, accumulator);
      PowerSquared(a, base, k, Num(accumulator), m, Radix(), ri);
      BitAtHalves(exponent, position - 1);
      if BitAt(exponent, position - 1) {
        a := Num(accumulator);
        MontgomeryMultiply(modulus, accumulator, factor, accumulator);
        PowerTimes(a, base, k, Num(factor), Num(accumulator), m, Radix(), ri);
      }
      position := position - 1;
    }
  }

  lemma EncodesBound(a: nat, x: int, m: nat)
    requires Encodes(a, x, Radix(), m)
    ensures a < m
  {}

  /** Raises a reduced value to a power; the output may alias the base or the exponent. */
  method Power(modulus: Modulus, base: array<nat>, exponent: array<nat>, output: array<nat>)
    requires modulus.Ready() && IsNumber(base) && IsNumber(exponent) && output.Length == LIMBS
    requires Num(base) < Num(modulus.value)
    requires output != modulus.value && output != modulus.montgomeryFactor
    modifies output
    ensures modulus.Ready() && IsNumber(output)
    ensures Num(output) == Pow(old(Num(base)), old(Num(exponent))) % Num(modulus.value)
  {
    hide Val, Pow, Digits, Cong, RadixInverse, Radix, Encodes;
    ghost var m, square := Num(modulus.value), Num(modulus.montgomeryFactor);
    ghost var b, e := Num(base), Num(exponent);
    ghost var ri := ReadyInverse(m);
    var one := new nat[LIMBS];
    SetSmall(one, 1);
    ModulusAboveOne(modulus.value);
    var accumulator := new nat[LIMBS];
    MontgomeryMultiply(modulus, one, modulus.montgomeryFactor, accumulator);
    EnterDomain(1, square, Num(accumulator), Radix(), ri, m);
    var factor := new nat[LIMBS];
    MontgomeryMultiply(modulus, base, modulus.montgomeryFactor, factor);
    EnterDomain(b, square, Num(factor), Radix(), ri, m);
    PowerLoop(modulus, factor, exponent, accumulator, b, ri);
    EncodesBound(Num(accumulator), Pow(b, e), m);
    var oneMontgomery := new nat[LIMBS];
    SetSmall(oneMontgomery, 1);
    ghost var a := Num(accumulator);
    MontgomeryMultiply(modulus, accumulator, oneMontgomery, output);
    LeaveDomain(a, Pow(b, e), 1, Num(output), Radix(), ri, m);
  }

  lemma ModulusAboveOne(value: array<nat>)
    requires IsNumber(value) && Radix() < 2 * Num(value)
    ensures Num(value) > 1
  {
    RadixEven();
    hide Pow, Val;
  }
}
