/** The secp224r1 prime field: seven 32-bit words, values kept canonical in the Montgomery domain. */
module FieldP224 {
  import opened Arithmetic
  import opened Limbs
  import opened Montgomery
  import opened Residues
  import opened WordChains

  const WORD: nat := 0x1_0000_0000
  const WORDS: nat := 7
  const WORD_BITS: nat := 32
  const FIELD_BITS: nat := 224

  type FieldSize = m: nat | m > 3 && m % 2 == 1 witness 5

  /** p = 2^224 - 2^96 + 1, the value of its words; PrimeValue gives the number. */
  ghost const P: FieldSize := (ValSeven(PRIME); Val(WORD, PRIME))
  /** 2^224, the Montgomery radix. */
  const R: nat := 0x1_00000000_00000000_00000000_00000000_00000000_00000000_00000000

  const PRIME: seq<nat> :=
    [0x00000001, 0x00000000, 0x00000000, 0xFFFFFFFF, 0xFFFFFFFF, 0xFFFFFFFF, 0xFFFFFFFF]
  const PRIME_MINUS_TWO: seq<nat> :=
    [0xFFFFFFFF, 0xFFFFFFFF, 0xFFFFFFFF, 0xFFFFFFFE, 0xFFFFFFFF, 0xFFFFFFFF, 0xFFFFFFFF]
  const ORDER: seq<nat> :=
    [0x5C5C2A3D, 0x13DD2945, 0xE0B8F03E, 0xFFFF16A2, 0xFFFFFFFF, 0xFFFFFFFF, 0xFFFFFFFF]
  const COEFFICIENT_B: seq<nat> :=
    [0x2355FFB4, 0x270B3943, 0xD7BFD8BA, 0x5044B0B7, 0xF5413256, 0x0C04B3AB, 0xB4050A85]
  const GENERATOR_X: seq<nat> :=
    [0x115C1D21, 0x343280D6, 0x56C21122, 0x4A03C1D3, 0x321390B9, 0x6BB4BF7F, 0xB70E0CBD]
  const GENERATOR_Y: seq<nat> :=
    [0x85007E34, 0x44D58199, 0x5A074764, 0xCD4375A0, 0x4C22DFE6, 0xB5F723FB, 0xBD376388]
  const MONTGOMERY_ONE: seq<nat> :=
    [0xFFFFFFFF, 0xFFFFFFFF, 0xFFFFFFFF, 0x00000000, 0x00000000, 0x00000000, 0x00000000]
  const MONTGOMERY_R2: seq<nat> :=
    [0x00000001, 0x00000000, 0x00000000, 0xFFFFFFFE, 0xFFFFFFFF, 0xFFFFFFFF, 0x00000000]
  /** -p^-1 mod 2^32. */
  const MONTGOMERY_FACTOR: nat := 0xFFFFFFFF

  lemma ValSeven(s: seq<nat>)
    requires |s| == 7
    ensures Val(WORD, s) == s[0] + WORD * (s[1] + WORD * (s[2] + WORD * (s[3] + WORD *
                            (s[4] + WORD * (s[5] + WORD * s[6])))))
  {
    ValCons(WORD, s[6], []);
    hide Val, Pow;
    assert Val(WORD, []) == 0 by { ValZeros(WORD, []); }
    assert s[6..] == [s[6]] + [];
    assert s[5..] == [s[5]] + s[6..];
    ValCons(WORD, s[5], s[6..]);
    assert s[4..] == [s[4]] + s[5..];
    ValCons(WORD, s[4], s[5..]);
    assert s[3..] == [s[3]] + s[4..];
    ValCons(WORD, s[3], s[4..]);
    assert s[2..] == [s[2]] + s[3..];
    ValCons(WORD, s[2], s[3..]);
    assert s[1..] == [s[1]] + s[2..];
    ValCons(WORD, s[1], s[2..]);
    assert s == [s[0]] + s[1..];
    ValCons(WORD, s[0], s[1..]);
  }

  lemma PrimeValue()
    ensures P == 0xFFFFFFFF_FFFFFFFF_FFFFFFFF_FFFFFFFF_00000000_00000000_00000001
  {
    ValSeven(PRIME);
  }

  /** n of secp224r1, the order of the group its generator spans. */
  lemma OrderValue()
    ensures Val(WORD, ORDER) == 0xFFFFFFFF_FFFFFFFF_FFFFFFFF_FFFF16A2_E0B8F03E_13DD2945_5C5C2A3D
  {
    ValSeven(ORDER);
  }

  lemma PrimeBounds()
    ensures P < R < 2 * P
  {
    PrimeValue();
  }

  /** What the constant tables denote. */
  lemma ConstantValues()
    ensures Digits(WORD, PRIME) && Digits(WORD, PRIME_MINUS_TWO)
    ensures Digits(WORD, MONTGOMERY_ONE) && Digits(WORD, MONTGOMERY_R2)
    ensures Val(WORD, PRIME) == P && Val(WORD, PRIME_MINUS_TWO) == P - 2
    ensures Val(WORD, MONTGOMERY_ONE) == R - P
    ensures Cong(Val(WORD, MONTGOMERY_R2), R * R, P) && Val(WORD, MONTGOMERY_R2) < P
    ensures (MONTGOMERY_FACTOR * PRIME[0] + 1) % WORD == 0
  {
    PrimeValue();
    hide Val;
    ValSeven(PRIME);
    ValSeven(PRIME_MINUS_TWO);
    ValSeven(MONTGOMERY_ONE);
    ValSeven(MONTGOMERY_R2);
  }

  lemma RadixValue()
    ensures Pow(WORD, WORDS) == R && Pow(2, WORD_BITS) == WORD && Pow(2, FIELD_BITS) == R
  {
    hide Pow;
    PowersOfTwo();
    PowAdd(2, 64, 64);
    PowAdd(2, 64, 32);
    PowAdd(2, 128, 96);
    PowMul(2, 32, 7);
  }

  /** The prime's words denote the secp224r1 prime. */
  lemma PrimeForm()
    ensures P == Pow(2, 224) - Pow(2, 96) + 1
  {
    hide Pow;
    RadixValue();
    PowersOfTwo();
    PowAdd(2, 64, 32);
    PrimeValue();
  }

  // ---- the field ---------------------------------------------------------------------------

  ghost function FAdd(x: nat, y: nat): (r: nat) ensures r < P { (x + y) % P }
  ghost function FSub(x: nat, y: nat): (r: nat) ensures r < P { (x - y) % P }
  ghost function FMul(x: nat, y: nat): (r: nat) ensures r < P { (x * y) % P }

  /** The inverse of the radix. */
  ghost function RadixUndone(): nat { Pow((P + 1) / 2, FIELD_BITS) }

  lemma RadixUndoneInverts()
    ensures RadixInverse(R, RadixUndone(), P)
  {
    RadixValue();
    hide Pow;
    OddRadix(FIELD_BITS, P);
  }

  ghost predicate IsWords(a: array<nat>)
    reads a
  {
    a.Length == WORDS && Digits(WORD, a[..])
  }

  ghost function Num(a: array<nat>): nat
    reads a
  {
    Val(WORD, a[..])
  }

  /** A canonical field value. */
  ghost predicate IsField(a: array<nat>)
    reads a
  {
    IsWords(a) && Num(a) < P
  }

  /** The field element a Montgomery value stands for. */
  ghost function Decode(v: nat): (r: nat) ensures r < P { (v * RadixUndone()) % P }

  ghost function Elem(a: array<nat>): nat
    reads a
  {
    Decode(Num(a))
  }

  lemma DecodeCong(v: nat)
    ensures Cong(Decode(v), v * RadixUndone(), P) && Cong(Decode(v) * R, v, P)
  {
    hide Pow;
    var ri := RadixUndone();
    hide RadixUndone;
    CongMod(v * ri, P);
    RadixUndoneInverts();
    CongIntro(R, R, P, 0);
    CongMul(Decode(v), v * ri, R, R, P);
    assert v * ri * R == v * R * ri by {
      MulAssoc(v, ri, R);
      MulAssoc(v, R, ri);
    }
    RadixUndo(v, R, ri, P);
    CongTrans(Decode(v) * R, v * ri * R, v, P);
  }

  lemma DecodeCanonical(v: nat, x: nat)
    requires Cong(v, x * R, P) && x < P
    ensures Decode(v) == x
  {
    hide Pow, RadixUndone, Decode;
    DecodeCong(v);
    RadixUndoneInverts();
    CongTrans(Decode(v) * R, v, x * R, P);
    RadixCancel(Decode(v), x, R, RadixUndone(), P);
    CongCanonical(Decode(v), x, P);
  }

  /** A canonical value is zero exactly when the element it stands for is. */
  lemma DecodeZero(v: nat)
    requires v < P
    ensures Decode(v) == 0 <==> v == 0
  {
    hide Pow, RadixUndone;
    if Decode(v) == 0 {
      DecodeCong(v);
      CongSym(0 * R, v, P);
      CongCanonical(v, 0, P);
    }
    if v == 0 {
      CongIntro(0, 0 * R, P, 0);
      DecodeCanonical(0, 0);
    }
  }

  /** Distinct canonical values stand for distinct elements. */
  lemma DecodeInjective(v: nat, w: nat)
    requires v < P && w < P && Decode(v) == Decode(w)
    ensures v == w
  {
    hide Pow, RadixUndone, Decode;
    DecodeCong(v);
    DecodeCong(w);
    CongSym(Decode(v) * R, v, P);
    CongTrans(v, Decode(v) * R, w, P);
    CongCanonical(v, w, P);
  }

  lemma DecodeProduct(v: nat, w: nat, o: nat)
    requires Cong(o * R, v * w, P)
    ensures Decode(o) == FMul(Decode(v), Decode(w))
  {
    hide Pow, RadixUndone, Decode;
    var x, y := Decode(v), Decode(w);
    DecodeCong(v);
    DecodeCong(w);
    CongMul(x * R, v, y * R, w, P);
    CongSym(x * R * (y * R), v * w, P);
    CongTrans(o * R, v * w, x * R * (y * R), P);
    assert x * R * (y * R) == x * y * R * R;
    RadixUndoneInverts();
    RadixCancel(o, x * y * R, R, RadixUndone(), P);
    CongMod(x * y, P);
    CongIntro(R, R, P, 0);
    CongSym((x * y) % P, x * y, P);
    CongMul(x * y, (x * y) % P, R, R, P);
    CongTrans(o, x * y * R, FMul(x, y) * R, P);
    DecodeCanonical(o, FMul(x, y));
  }

  lemma DecodeSum(v: nat, w: nat)
    ensures Decode((v + w) % P) == FAdd(Decode(v), Decode(w))
    ensures Decode((v - w) % P) == FSub(Decode(v), Decode(w))
  {
    hide Pow, RadixUndone, Decode;
    var x, y := Decode(v), Decode(w);
    DecodeCong(v);
    DecodeCong(w);
    CongAdd(x * R, v, y * R, w, P);
    LinearDecode(x + y, v + w);
    LinearDecode(x - y, v - w);
  }

  /** What congruent plain and encoded values give once both are reduced. */
  lemma LinearDecode(x: int, v: int)
    requires Cong(x * R, v, P)
    ensures Decode(v % P) == x % P
  {
    hide Pow, RadixUndone, Decode;
    CongMod(v, P);
    CongMod(x, P);
    CongIntro(R, R, P, 0);
    CongMul(x, x % P, R, R, P);
    CongSym(x * R, v, P);
    CongTrans(v % P, v, x * R, P);
    CongTrans(v % P, x * R, (x % P) * R, P);
    DecodeCanonical(v % P, x % P);
  }

  // ---- word-level operations ---------------------------------------------------------------

  /** A fresh copy of one constant table. */
  method Table(s: seq<nat>) returns (a: array<nat>)
    requires |s| == WORDS && Digits(WORD, s)
    ensures fresh(a) && IsWords(a) && a[..] == s
  {
    a := new nat[WORDS](i requires 0 <= i < |s| => s[i]);
    assert a[..] == s;
  }

  /** Zero, decided word by word. */
  method IsZero(value: array<nat>) returns (zero: bool)
    requires IsWords(value)
    ensures zero <==> Num(value) == 0
    ensures Num(value) < P ==> (zero <==> Elem(value) == 0)
  {
    hide Val, Decode;
    zero := true;
    for index := 0 to WORDS
      invariant zero <==> forall k :: 0 <= k < index ==> value[k] == 0
    {
      zero := zero && value[index] == 0;
    }
    ValZeroIff(WORD, value[..]);
    if Num(value) < P {
      DecodeZero(Num(value));
    }
  }

  lemma WordsFit(a: array<nat>)
    requires IsWords(a)
    ensures Num(a) < R
  {
    RadixValue();
    hide Val, Pow;
    ValBound(WORD, a[..]);
  }

  /** Left is below right exactly when subtracting borrows. */
  method LessThan(left: array<nat>, right: array<nat>) returns (less: bool)
    requires IsWords(left) && IsWords(right)
    ensures less <==> Num(left) < Num(right)
  {
    hide Val, Pow, Digits;
    var ignored := new nat[WORDS];
    var borrow := SubtractWords(WORD, left, right, ignored);
    RadixValue();
    WordsFit(ignored);
    less := borrow != 0;
  }

  /** Picks one of two values word by word; the output may alias either. */
  method Select(take: bool, first: array<nat>, second: array<nat>, output: array<nat>)
    requires IsWords(first) && IsWords(second) && output.Length == WORDS
    modifies output
    ensures output[..] == old(if take then first[..] else second[..])
    ensures IsWords(output) && Num(output) == old(if take then Num(first) else Num(second))
  {
    ghost var picked := if take then first[..] else second[..];
    ghost var x, y := first[..], second[..];
    for index := 0 to WORDS
      invariant output[..index] == picked[..index]
      invariant forall k :: index <= k < WORDS ==> first[k] == x[k] && second[k] == y[k]
    {
      output[index] := if take then first[index] else second[index];
    }
    assert output[..] == picked;
  }

  /** Selecting the subtracted value exactly when it did not fall below zero reduces a sum. */
  lemma SelectReduces(total: nat, carry: nat, reduced: nat, borrow: nat)
    requires total < R && reduced < R && carry <= 1 && borrow <= 1
    requires reduced + P == total + borrow * R && total + carry * R < 2 * P
    ensures (if carry != 0 || borrow == 0 then reduced else total) == (total + carry * R) % P
    ensures (if carry != 0 || borrow == 0 then reduced else total) ==
            if total + carry * R >= P then total + carry * R - P else total + carry * R
  {
    var whole := total + carry * R;
    if whole >= P {
      DivModUnique(whole, P, 1, whole - P);
    } else {
      DivModUnique(whole, P, 0, whole);
    }
  }

  /** Sum mod p; may alias either input. */
  method FieldAdd(augend: array<nat>, addend: array<nat>, sum: array<nat>)
    requires IsField(augend) && IsField(addend) && sum.Length == WORDS
    modifies sum
    ensures IsField(sum) && Elem(sum) == FAdd(old(Elem(augend)), old(Elem(addend)))
  {
    hide Val, Pow, Digits, Decode, FAdd;
    RadixValue();
    ConstantValues();
    ghost var v, w := Num(augend), Num(addend);
    var total := new nat[WORDS];
    var carry := AddWords(WORD, augend, addend, total);
    var prime := Table(PRIME);
    var reduced := new nat[WORDS];
    var borrow := SubtractWords(WORD, total, prime, reduced);
    WordsFit(total);
    WordsFit(reduced);
    SelectReduces(Num(total), carry, Num(reduced), borrow);
    Select(carry != 0 || borrow == 0, reduced, total, sum);
    DecodeSum(v, w);
  }

  lemma SubtractReduces(v: nat, w: nat, total: nat, borrow: nat, wrapped: nat, carry: nat)
    requires v < P && w < P && total < R && wrapped < R && borrow <= 1 && carry <= 1
    requires total + w == v + borrow * R && wrapped + carry * R == total + P
    ensures (if borrow != 0 then wrapped else total) == (v - w) % P
  {
    if borrow == 0 {
      DivModUnique(v - w, P, 0, v - w);
    } else {
      DivModUnique(v - w, P, -1, v - w + P);
    }
  }

  /** Difference mod p; may alias either input. */
  method FieldSubtract(minuend: array<nat>, subtrahend: array<nat>, difference: array<nat>)
    requires IsField(minuend) && IsField(subtrahend) && difference.Length == WORDS
    modifies difference
    ensures IsField(difference)
    ensures Elem(difference) == FSub(old(Elem(minuend)), old(Elem(subtrahend)))
  {
    hide Val, Pow, Digits, Decode, FSub;
    RadixValue();
    ConstantValues();
    ghost var v, w := Num(minuend), Num(subtrahend);
    var total := new nat[WORDS];
    var borrow := SubtractWords(WORD, minuend, subtrahend, total);
    var prime := Table(PRIME);
    var wrapped := new nat[WORDS];
    var carry := AddWords(WORD, total, prime, wrapped);
    WordsFit(total);
    WordsFit(wrapped);
    SubtractReduces(v, w, Num(total), borrow, Num(wrapped), carry);
    Select(borrow != 0, wrapped, total, difference);
    DecodeSum(v, w);
  }

  /** The eighth word of an interleaved product is its overflow bit. */
  lemma SplitProduct(s: seq<nat>)
    requires |s| == WORDS + 1 && Val(WORD, s) < 2 * P
    ensures Val(WORD, s) == Val(WORD, s[..WORDS]) + s[WORDS] * R && s[WORDS] <= 1
  {
    PrimeBounds();
    RadixValue();
    hide Val, Pow;
    ValTake(WORD, s, WORDS);
    assert s[..WORDS + 1] == s;
  }

  /** Montgomery product; may alias either factor. */
  method MontgomeryMultiply(multiplicand: array<nat>, multiplier: array<nat>, product: array<nat>)
    requires IsField(multiplicand) && IsField(multiplier) && product.Length == WORDS
    modifies product
    ensures IsField(product)
    ensures Cong(Num(product) * R, old(Num(multiplicand)) * old(Num(multiplier)), P)
    ensures Elem(product) == FMul(old(Elem(multiplicand)), old(Elem(multiplier)))
  {
    hide Val, Pow, Digits, Decode, FMul, Partial, Cong;
    RadixValue();
    ConstantValues();
    ghost var v, w := Num(multiplicand), Num(multiplier);
    var prime := Table(PRIME);
    var accumulator, q := Interleave(WORD, prime, MONTGOMERY_FACTOR, multiplicand, multiplier);
    ghost var s := accumulator[..WORDS + 1];
    PartialBound(Val(WORD, s), R, v, w, q, P);
    SplitProduct(s);
    assert s[..WORDS] == accumulator[..WORDS];
    DigitsTake(WORD, s, WORDS);
    var result := Table(accumulator[..WORDS]);
    var reduced := new nat[WORDS];
    var borrow := SubtractWords(WORD, result, prime, reduced);
    WordsFit(result);
    WordsFit(reduced);
    SelectReduces(Num(result), accumulator[WORDS], Num(reduced), borrow);
    Select(accumulator[WORDS] != 0 || borrow == 0, reduced, result, product);
    Finish(Val(WORD, s), R, v, w, q, P, Num(product));
    DecodeProduct(v, w, Num(product));
  }

  /** The Montgomery form of a plain value. */
  method ToMontgomery(value: array<nat>, output: array<nat>)
    requires IsField(value) && output.Length == WORDS
    modifies output
    ensures IsField(output) && Elem(output) == old(Num(value))
  {
    hide Val, Pow, Digits, Decode, FMul, Cong;
    ConstantValues();
    RadixUndoneInverts();
    ghost var v := Num(value);
    var square := Table(MONTGOMERY_R2);
    MontgomeryMultiply(value, square, output);
    EnterDomain(v, Val(WORD, MONTGOMERY_R2), Num(output), R, RadixUndone(), P);
    DecodeCanonical(Num(output), v);
  }

  /** The plain value of a Montgomery form. */
  method FromMontgomery(value: array<nat>, output: array<nat>)
    requires IsField(value) && output.Length == WORDS
    modifies output
    ensures IsField(output) && Num(output) == old(Elem(value))
  {
    ValSeven([1, 0, 0, 0, 0, 0, 0]);
    hide Val, Pow, Digits, Decode, FMul, Cong, RadixUndone;
    RadixUndoneInverts();
    ghost var v := Num(value);
    var one := Table([1, 0, 0, 0, 0, 0, 0]);
    MontgomeryMultiply(value, one, output);
    PlainForm(v, Num(output));
  }

  lemma PlainForm(v: nat, o: nat)
    requires o < P && Cong(o * R, v * 1, P)
    ensures o == Decode(v)
  {
    hide Pow, RadixUndone, Decode;
    CongSym(o * R, v, P);
    DecodeCanonical(v, o);
  }

  /** Powers of a field element, reduced. */
  ghost function FPow(x: nat, e: nat): (r: nat) ensures r < P { Pow(x, e) % P }

  lemma ReducedProduct(a: int, b: int)
    ensures ((a % P) * (b % P)) % P == (a * b) % P
  {
    CongMod(a, P);
    CongMod(b, P);
    CongMul(a % P, a, b % P, b, P);
    CongIffModEqual(a % P * (b % P), a * b, P);
  }

  lemma ReducedTimes(a: int, x: int)
    ensures ((a % P) * x) % P == (a * x) % P
  {
    CongMod(a, P);
    CongIntro(x, x, P, 0);
    CongMul(a % P, a, x, x, P);
    CongIffModEqual(a % P * x, a * x, P);
  }

  lemma FPowDouble(x: nat, k: nat)
    ensures FMul(FPow(x, k), FPow(x, k)) == FPow(x, 2 * k)
    ensures FMul(FPow(x, 2 * k), x) == FPow(x, 2 * k + 1)
  {
    hide Pow;
    PowAdd(x, k, k);
    PowNext(x, 2 * k);
    ReducedProduct(Pow(x, k), Pow(x, k));
    ReducedTimes(Pow(x, 2 * k), x);
  }

  lemma PowNext(x: nat, e: nat)
    ensures Pow(x, e + 1) == Pow(x, e) * x
  {}

  /** The bits of a value at and above one position. */
  ghost function Above(e: nat, position: nat): nat {
    e / Pow(2, position)
  }

  /** Bit of one word, counted from the least significant. */
  predicate BitSet(word: nat, bit: nat) {
    word / Pow(2, bit) % 2 != 0
  }

  lemma AboveEnds(e: nat)
    requires e < R
    ensures Above(e, 0) == e && Above(e, FIELD_BITS) == 0
  {
    RadixValue();
    assert Pow(2, 0) == 1;
    hide Pow;
    DivModUnique(e, R, 0, e);
  }

  /** Reading one more bit doubles what was read and adds the bit. */
  lemma AboveStep(s: seq<nat>, index: nat, bit: nat)
    requires |s| == WORDS && Digits(WORD, s) && index < WORDS && bit < WORD_BITS
    ensures Above(Val(WORD, s), WORD_BITS * index + bit) ==
            2 * Above(Val(WORD, s), WORD_BITS * index + bit + 1) +
            if BitSet(s[index], bit) then 1 else 0
  {
    RadixValue();
    hide Val, Pow, Digits;
    var position := WORD_BITS * index + bit;
    ValBit(WORD_BITS, s, index, bit);
    PowStep(2, position);
    DivDiv(Val(WORD, s), Pow(2, position), 2);
  }

  /** Raises a Montgomery value to p - 2. */
  method MontgomeryInverse(value: array<nat>, output: array<nat>)
    requires IsField(value) && output.Length == WORDS
    modifies output
    ensures IsField(output) && Elem(output) == FPow(old(Elem(value)), P - 2)
  {
    hide Val, Pow, Digits, Decode, FMul, FPow, Cong, Above, RadixUndone, BitSet;
    ConstantValues();
    AboveEnds(P - 2);
    ghost var x := Elem(value);
    var result := Table(MONTGOMERY_ONE);
    MontgomeryOne();
    FPowZero(x);
    var index := WORDS;
    while index > 0
      modifies result
      invariant 0 <= index <= WORDS && IsField(result)
      invariant Elem(result) == FPow(x, Above(P - 2, WORD_BITS * index))
    {
      index := index - 1;
      var bit := WORD_BITS;
      while bit > 0
        modifies result
        invariant 0 <= bit <= WORD_BITS && IsField(result)
        invariant Elem(result) == FPow(x, Above(P - 2, WORD_BITS * index + bit))
      {
        bit := bit - 1;
        FPowDouble(x, Above(P - 2, WORD_BITS * index + bit + 1));
        AboveStep(PRIME_MINUS_TWO, index, bit);
        MontgomeryMultiply(result, result, result);
        if BitSet(PRIME_MINUS_TWO[index], bit) {
          MontgomeryMultiply(result, value, result);
        }
      }
    }
    Select(true, result, result, output);
  }

  lemma FPowZero(x: nat)
    ensures FPow(x, 0) == 1
  {
    hide Val;
    DivModUnique(1, P, 0, 1);
  }

  /** R mod p stands for one. */
  lemma MontgomeryOne()
    ensures P < R < 2 * P && Decode(R - P) == 1
  {
    PrimeBounds();
    hide Decode;
    CongIntro(R - P, 1 * R, P, -1);
    DecodeCanonical(R - P, 1);
  }
}
