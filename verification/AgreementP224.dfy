/** Wire form of field values, and the key agreement both peers run. */
module AgreementP224 {
  import opened Arithmetic
  import opened Limbs
  import opened Bytes
  import opened Wrappers
  import opened NumberTheory
  import opened FieldP224
  import opened AffineP224
  import opened GroupP224
  import opened CurveP224
  import opened KeyCodec

  const WORD_BYTES: nat := 4

  lemma BytePowers(index: nat)
    ensures Pow(256, WORD_BYTES) == WORD && WORD_BYTES * index >= 0
    ensures Pow(256, WORD_BYTES * index) == Pow(WORD, index)
  {
    assert Pow(256, 2) == 65536;
    PowAdd(256, 2, 2);
    hide Pow;
    PowMul(256, WORD_BYTES, index);
  }

  /** One more word of a big-endian value, from its least significant end. */
  lemma WordStep(bytes: seq<byte>, words: seq<nat>, word: nat, offset: nat)
    requires offset + WORD_BYTES + WORD_BYTES * |words| == |bytes|
    requires Val(WORD, words) == BigEndian(bytes[offset + WORD_BYTES..])
    requires word == BigEndian(bytes[offset..offset + WORD_BYTES])
    ensures Val(WORD, words + [word]) == BigEndian(bytes[offset..])
    ensures word < WORD
  {
    hide Val, Pow, BigEndian;
    var four, rest := bytes[offset..offset + WORD_BYTES], bytes[offset + WORD_BYTES..];
    assert bytes[offset..] == four + rest;
    BigEndianConcat(four, rest);
    BytePowers(|words|);
    ValSnoc(WORD, words, word);
    BigEndianBound(four);
  }

  /** One more byte of a word: shifted in from the right. */
  lemma ByteStep(word: nat, b: byte)
    ensures Or(word * 256, b) == word * 256 + b
  {
    SmallPowers();
    OrDisjoint(word, b, 8);
  }

  /** Reads one word from four bytes, high byte first. */
  method LoadWord(bytes: seq<byte>, offset: nat) returns (word: nat)
    requires offset + WORD_BYTES <= |bytes|
    ensures word == BigEndian(bytes[offset..offset + WORD_BYTES])
  {
    hide Or;
    word := 0;
    for step := 0 to WORD_BYTES
      invariant word == BigEndian(bytes[offset..offset + step])
    {
      assert bytes[offset..offset + step + 1] == bytes[offset..offset + step] + [bytes[offset + step]];
      BigEndianSnoc(bytes[offset..offset + step], bytes[offset + step]);
      ByteStep(word, bytes[offset + step]);
      word := Or(word * 256, bytes[offset + step]);
    }
  }

  /** Reads a wire value into a field element; zero when the width is wrong. */
  method Load(bytes: seq<byte>, output: array<nat>)
    requires output.Length == WORDS
    modifies output
    ensures IsWords(output)
    ensures Num(output) == if |bytes| == FIELD_SIZE then BigEndian(bytes) else 0
  {
    if |bytes| != FIELD_SIZE {
      forall i | 0 <= i < WORDS {
        output[i] := 0;
      }
      ValZeros(WORD, output[..]);
      return;
    }
    hide Val;
    ValZeros(WORD, []);
    assert bytes[FIELD_SIZE..] == [] && output[..0] == [];
    for index := 0 to WORDS
      invariant Digits(WORD, output[..index])
      invariant Val(WORD, output[..index]) == BigEndian(bytes[FIELD_SIZE - WORD_BYTES * index..])
    {
      var offset := (WORDS - 1 - index) * WORD_BYTES;
      var word := LoadWord(bytes, offset);
      ghost var done := output[..index];
      WordStep(bytes, done, word, offset);
      output[index] := word;
      assert output[..index + 1] == done + [word];
    }
    assert output[..WORDS] == output[..] && bytes[0..] == bytes;
  }

  /** The byte of a word at one shift, after the bytes above it. */
  lemma ByteOfWord(v: nat, step: nat)
    requires step < WORD_BYTES
    ensures v / Pow(2, 8 * (3 - step)) == 256 * (v / Pow(2, 8 * (4 - step))) + v / Pow(2, 8 * (3 - step)) % 256
  {
    var s := 8 * (3 - step);
    SmallPowers();
    hide Pow;
    PowAdd(2, s, 8);
    assert 8 * (4 - step) == s + 8;
    DivDiv(v, Pow(2, s), 256);
  }

  /** What the first bytes of a word denote. */
  ghost function HighPart(word: nat, step: nat): nat
    requires step <= WORD_BYTES
  {
    word / Pow(2, 8 * (4 - step))
  }

  lemma HighParts(word: nat)
    requires word < WORD
    ensures HighPart(word, 0) == 0 && HighPart(word, WORD_BYTES) == word
  {
    hide Pow;
    RadixValue();
    PowerZero();
    DivModUnique(word, WORD, 0, word);
  }

  lemma NextPart(word: nat, step: nat)
    requires step < WORD_BYTES
    ensures HighPart(word, step + 1) == HighPart(word, step) * 256 + word / Pow(2, 8 * (3 - step)) % 256
  {
    hide Pow;
    ByteOfWord(word, step);
  }

  /** Writes one word as four bytes, high byte first. */
  method StoreWord(word: nat, bytes: array<byte>, offset: nat)
    requires word < WORD && offset + WORD_BYTES <= bytes.Length
    modifies bytes
    ensures BigEndian(bytes[offset..offset + WORD_BYTES]) == word
    ensures bytes[..offset] == old(bytes[..offset])
    ensures bytes[offset + WORD_BYTES..] == old(bytes[offset + WORD_BYTES..])
  {
    hide Pow, HighPart;
    HighParts(word);
    assert bytes[offset..offset + 0] == [];
    for step := 0 to WORD_BYTES
      invariant BigEndian(bytes[offset..offset + step]) == HighPart(word, step)
      invariant bytes[..offset] == old(bytes[..offset])
      invariant bytes[offset + WORD_BYTES..] == old(bytes[offset + WORD_BYTES..])
    {
      ghost var done := bytes[offset..offset + step];
      var value := word / Pow(2, 8 * (3 - step)) % 256;
      NextPart(word, step);
      BigEndianSnoc(done, value);
      bytes[offset + step] := value;
      assert bytes[offset..offset + step + 1] == done + [value];
    }
  }

  lemma PowerZero()
    ensures Pow(2, 0) == 1
  {}

  /** Writes a field element in its wire form; a wrong width writes nothing. */
  method Store(value: array<nat>, bytes: array<byte>)
    requires IsWords(value)
    modifies bytes
    ensures bytes.Length == FIELD_SIZE ==> BigEndian(bytes[..]) == Num(value)
    ensures bytes.Length != FIELD_SIZE ==> bytes[..] == old(bytes[..])
  {
    if bytes.Length != FIELD_SIZE {
      return;
    }
    hide Val, BigEndian;
    ValZeros(WORD, []);
    BigEndianEmpty();
    assert bytes[FIELD_SIZE..] == [] && value[..0] == [];
    for index := 0 to WORDS
      invariant Val(WORD, value[..index]) == BigEndian(bytes[FIELD_SIZE - WORD_BYTES * index..])
    {
      var offset := (WORDS - 1 - index) * WORD_BYTES;
      ghost var rest := bytes[offset + WORD_BYTES..];
      StoreWord(value[index], bytes, offset);
      assert bytes[..][offset + WORD_BYTES..] == rest;
      assert bytes[..][offset..] == bytes[offset..];
      assert bytes[..][offset..offset + WORD_BYTES] == bytes[offset..offset + WORD_BYTES];
      WordStep(bytes[..], value[..index], value[index], offset);
      assert value[..index + 1] == value[..index] + [value[index]];
    }
    assert value[..WORDS] == value[..] && bytes[0..] == bytes[..];
  }

  lemma BigEndianEmpty()
    ensures BigEndian([]) == 0
  {}

  // ---- the agreement -----------------------------------------------------------------------

  const GX: nat := 0xB70E0CBD_6BB4BF7F_321390B9_4A03C1D3_56C21122_343280D6_115C1D21
  const GY: nat := 0xBD376388_B5F723FB_4C22DFE6_CD4375A0_5A074764_44D58199_85007E34

  /** The generator. */
  ghost function Generator(): Point { Affine(GX, GY) }

  lemma GeneratorOnCurve()
    ensures OnCurve(Generator())
    ensures Digits(WORD, GENERATOR_X) && Val(WORD, GENERATOR_X) == GX
    ensures Digits(WORD, GENERATOR_Y) && Val(WORD, GENERATOR_Y) == GY
  {
    hide Val, OnCurve;
    GeneratorWords();
    GeneratorEquation();
  }

  lemma GeneratorEquation()
    ensures OnCurve(Generator())
  {
    PrimeValue();
    CoefficientValue();
  }

  lemma GeneratorWords()
    ensures Digits(WORD, GENERATOR_X) && Val(WORD, GENERATOR_X) == GX
    ensures Digits(WORD, GENERATOR_Y) && Val(WORD, GENERATOR_Y) == GY
  {
    ValSeven(GENERATOR_X);
    ValSeven(GENERATOR_Y);
    hide Val;
  }

  /** The k-byte big-endian form of a number. */
  ghost function Wire(n: nat, k: nat): (s: seq<byte>)
    ensures |s| == k
  {
    if k == 0 then [] else Wire(n / 256, k - 1) + [n % 256]
  }

  lemma {:induction false} WireValue(s: seq<byte>)
    ensures Wire(BigEndian(s), |s|) == s
  {
    if s != [] {
      WireValue(s[..|s| - 1]);
      assert s == s[..|s| - 1] + [s[|s| - 1]];
    }
  }

  lemma {:induction false} WireDenotes(n: nat, k: nat)
    requires n < Pow(256, k)
    ensures BigEndian(Wire(n, k)) == n
  {
    if k > 0 {
      PowStep(256, k - 1);
      WireDenotes(n / 256, k - 1);
      BigEndianSnoc(Wire(n / 256, k - 1), n % 256);
    }
  }

  lemma FieldWire(n: nat)
    requires n < P
    ensures BigEndian(Wire(n, FIELD_SIZE)) == n
  {
    hide Pow, Wire;
    PrimeBounds();
    RadixValue();
    BytePowers(WORDS);
    WireDenotes(n, FIELD_SIZE);
  }

  /** One completed agreement: our exported key and the secret. */
  datatype Agreement = Agreement(publicKey: seq<byte>, sharedSecret: seq<byte>)

  /** The exported form of a finite point. */
  ghost function Exported(p: Point): seq<byte>
    requires p.Affine?
  {
    EncodedKey(Wire(p.x, FIELD_SIZE), Wire(p.y, FIELD_SIZE))
  }

  /** The point an exported key names. */
  ghost function PeerPoint(peer: seq<byte>): Option<Point> {
    var key := DecodePublicKey(peer);
    if key.None? then None else Some(Affine(BigEndian(key.value.0), BigEndian(key.value.1)))
  }

  /** When an agreement with one peer key can complete. */
  ghost predicate CanAgree(peer: seq<byte>, secret: nat) {
    && PeerPoint(peer).Some? && OnCurve(PeerPoint(peer).value)
    && Times(secret, Generator()).Affine? && Times(secret, PeerPoint(peer).value).Affine?
  }

  /** What a completed agreement holds. */
  ghost predicate Agreed(peer: seq<byte>, secret: nat, r: Agreement) {
    && CanAgree(peer, secret)
    && r.publicKey == Exported(Times(secret, Generator()))
    && r.sharedSecret == Wire(Times(secret, PeerPoint(peer).value).x, FIELD_SIZE)
  }

  lemma ExportedNames(p: Point)
    requires p.Affine? && p.x < P && p.y < P
    ensures PeerPoint(Exported(p)) == Some(p)
  {
    hide Wire, EncodedKey, DecodePublicKey, BigEndian;
    KeyRoundTrip(Wire(p.x, FIELD_SIZE), Wire(p.y, FIELD_SIZE));
    FieldWire(p.x);
    FieldWire(p.y);
  }

  /** Two peers that exchange their exported keys hold the same secret. */
  lemma BothSidesAgree(a: nat, b: nat, ra: Agreement, rb: Agreement)
    requires Prime(P) && Associative()
    requires Agreed(rb.publicKey, a, ra) && Agreed(ra.publicKey, b, rb)
    ensures ra.sharedSecret == rb.sharedSecret
  {
    GeneratorOnCurve();
    hide Prime, Associative, Times, Wire, Exported, PeerPoint, CurveEquation;
    var g := Generator();
    hide Generator;
    TimesOnCurve(a, g);
    TimesOnCurve(b, g);
    ExportedNames(Times(a, g));
    ExportedNames(Times(b, g));
    AgreementCommutes(a, b, g);
  }

  /** Two valid keys in one group always complete. */
  lemma ExchangeCompletes(a: nat, b: nat)
    requires Prime(P) && Associative()
    requires Times(a, Generator()).Affine? && Times(b, Generator()).Affine?
    requires Times(a * b, Generator()).Affine?
    ensures CanAgree(Exported(Times(b, Generator())), a)
  {
    GeneratorOnCurve();
    hide Prime, Associative, Times, Exported, PeerPoint, CurveEquation;
    var g := Generator();
    hide Generator;
    TimesOnCurve(b, g);
    ExportedNames(Times(b, g));
    TimesTimes(a, b, g);
  }

  /** Stores one canonical value in its 28-byte form. */
  method StoredForm(value: array<nat>) returns (bytes: seq<byte>)
    requires IsField(value)
    ensures bytes == Wire(Num(value), FIELD_SIZE)
  {
    hide Wire;
    var buffer := new byte[FIELD_SIZE](_ => 0);
    Store(value, buffer);
    bytes := buffer[..];
    WireValue(bytes);
  }

  /** One scalar multiple in fresh storage. */
  method Product(secret: array<nat>, x: array<nat>, y: array<nat>)
    returns (finite: bool, outX: array<nat>, outY: array<nat>)
    requires IsWords(secret) && IsField(x) && IsField(y)
    ensures fresh(outX) && fresh(outY)
    ensures finite ==> IsField(outX) && IsField(outY)
    ensures Prime(P) && Associative() && OnCurve(Affine(Num(x), Num(y))) ==>
              var product := Times(Num(secret), Affine(Num(x), Num(y)));
              && (finite <==> product.Affine?)
              && (finite ==> Affine(Num(outX), Num(outY)) == product)
  {
    hide Num, Prime, Associative, OnCurve, Times;
    outX := NewField();
    outY := NewField();
    finite := Multiply(secret, x, y, outX, outY);
  }

  /** Agrees a secret with the peer's exported public key, using a private key already drawn. */
  method Agree(peerPublicKey: seq<byte>, secret: array<nat>) returns (agreement: Option<Agreement>)
    requires IsWords(secret) && 0 < Num(secret) < Val(WORD, ORDER)
    ensures Prime(P) && Associative() ==>
              && (agreement.Some? <==> CanAgree(peerPublicKey, Num(secret)))
              && (agreement.Some? ==> Agreed(peerPublicKey, Num(secret), agreement.value))
  {
    GeneratorOnCurve();
    hide Val, Digits, Prime, Associative, CurveEquation, Times, Wire, EncodedKey, DecodePublicKey, BigEndian;
    var key := DecodePublicKey(peerPublicKey);
    if key.None? {
      return None;
    }
    var peerX := NewField();
    var peerY := NewField();
    Load(key.value.0, peerX);
    Load(key.value.1, peerY);
    var on := PointOnCurve(peerX, peerY);
    if !on {
      return None;
    }
    assert IsField(peerX) && IsField(peerY) by {
      assert OnCurve(Affine(Num(peerX), Num(peerY)));
    }
    var gx := Table(GENERATOR_X);
    var gy := Table(GENERATOR_Y);
    var ours, oursX, oursY := Product(secret, gx, gy);
    if !ours {
      return None;
    }
    var agreed, agreedX, agreedY := Product(secret, peerX, peerY);
    if !agreed {
      return None;
    }
    var x := StoredForm(oursX);
    var y := StoredForm(oursY);
    var sharedSecret := StoredForm(agreedX);
    var output := new byte[KEY_SIZE](_ => 0);
    var fits := EncodePublicKey(x, y, output);
    agreement := Some(Agreement(output[..], sharedSecret));
  }
}
