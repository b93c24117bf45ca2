/** The 128-byte big-endian wire form of 1024-bit numbers. */
module Wire1024 {
  import opened Arithmetic
  import opened Limbs
  import opened Bytes
  import opened Modular1024

  const BYTE_SIZE: nat := 128
  const LIMB_BYTES: nat := 8

  /** Where one limb's bytes start. */
  function Start(limb: nat): nat
    requires limb < LIMBS
  {
    LIMB_BYTES * (LIMBS - 1 - limb)
  }

  /** How far into one limb's bytes the first index bytes reach. */
  function Reached(limb: nat, index: nat): (n: nat)
    requires limb < LIMBS
    ensures Start(limb) <= n <= Start(limb) + LIMB_BYTES <= BYTE_SIZE
  {
    if index < Start(limb) then Start(limb)
    else if index < Start(limb) + LIMB_BYTES then index
    else Start(limb) + LIMB_BYTES
  }

  lemma BytePower(k: nat)
    ensures Pow(256, k) == Pow(2, 8 * k) && Pow(256, 8) == WORD && Pow(256, 0) == 1 && Pow(256, k + 1) == 256 * Pow(256, k)
  {
    SmallPowers();
    PowMul(2, 8, k);
    PowMul(2, 8, 8);
    PowersOfTwo();
  }

  /** Limbs cut from a byte string denote the same number. */
  lemma {:induction false} LimbsDenote(bytes: seq<byte>, limbs: seq<nat>)
    requires |bytes| == LIMB_BYTES * |limbs|
    requires forall j :: 0 <= j < |limbs| ==>
               limbs[j] == BigEndian(bytes[LIMB_BYTES * (|limbs| - 1 - j)..LIMB_BYTES * (|limbs| - j)])
    ensures Val(WORD, limbs) == BigEndian(bytes)
    decreases |limbs|
  {
    hide Pow, BigEndian;
    if limbs == [] {
      assert bytes == [];
      NothingDenotes();
    } else {
      var n := |limbs| - 1;
      var front, last, rest := bytes[..LIMB_BYTES * n], bytes[LIMB_BYTES * n..], limbs[1..];
      forall j | 0 <= j < n
        ensures rest[j] == BigEndian(front[LIMB_BYTES * (n - 1 - j)..LIMB_BYTES * (n - j)])
      {
        assert rest[j] == limbs[j + 1];
        assert front[LIMB_BYTES * (n - 1 - j)..LIMB_BYTES * (n - j)] == bytes[LIMB_BYTES * (n - 1 - j)..LIMB_BYTES * (n - j)];
      }
      LimbsDenote(front, rest);
      assert last == bytes[LIMB_BYTES * n..LIMB_BYTES * (n + 1)];
      assert bytes == front + last && limbs == [limbs[0]] + rest;
      BigEndianConcat(front, last);
      ValCons(WORD, limbs[0], rest);
      BytePower(0);
    }
  }

  lemma NothingDenotes()
    ensures BigEndian([]) == 0
  {}

  // ---- reading -----------------------------------------------------------------------------

  /** What one limb holds once the first index bytes were read. */
  ghost function Part(input: seq<byte>, limb: nat, index: nat): nat
    requires |input| == BYTE_SIZE && limb < LIMBS
  {
    BigEndian(input[Start(limb)..Reached(limb, index)]) * Pow(256, Start(limb) + LIMB_BYTES - Reached(limb, index))
  }

  lemma OtherPart(input: seq<byte>, limb: nat, index: nat)
    requires |input| == BYTE_SIZE && limb < LIMBS && limb != (BYTE_SIZE - 1 - index) / LIMB_BYTES && index < BYTE_SIZE
    ensures Part(input, limb, index + 1) == Part(input, limb, index)
  {
    assert Reached(limb, index + 1) == Reached(limb, index);
  }

  /** One more byte of a limb, or-ed in at its shift. */
  lemma NextPart(input: seq<byte>, index: nat)
    requires |input| == BYTE_SIZE && index < BYTE_SIZE
    ensures var limb, shift := (BYTE_SIZE - 1 - index) / LIMB_BYTES, (BYTE_SIZE - 1 - index) % LIMB_BYTES * 8;
            Part(input, limb, index + 1) == Or(Part(input, limb, index), input[index] * Pow(2, shift))
  {
    hide Or, BigEndian, Pow;
    var limb, places := (BYTE_SIZE - 1 - index) / LIMB_BYTES, (BYTE_SIZE - 1 - index) % LIMB_BYTES;
    var s := Start(limb);
    assert Reached(limb, index) == index && Reached(limb, index + 1) == index + 1 && s + LIMB_BYTES - index == places + 1;
    var read := input[s..index];
    assert input[s..index + 1] == read + [input[index]];
    BigEndianSnoc(read, input[index]);
    BytePower(places);
    BytePower(places + 1);
    DigitStep(0, input[index], 256, Pow(256, places));
    OrDisjoint(BigEndian(read), input[index] * Pow(256, places), 8 * (places + 1));
    OneMoreByte(BigEndian(read), input[index], Pow(256, places));
  }

  lemma OneMoreByte(read: nat, b: nat, p: nat)
    ensures (read * 256 + b) * p == read * (256 * p) + b * p
  {}

  lemma NoPart(input: seq<byte>, limb: nat)
    requires |input| == BYTE_SIZE && limb < LIMBS
    ensures Part(input, limb, 0) == 0
  {
    assert input[Start(limb)..Start(limb)] == [];
  }

  lemma WholePart(input: seq<byte>, limb: nat)
    requires |input| == BYTE_SIZE && limb < LIMBS
    ensures Part(input, limb, BYTE_SIZE) == BigEndian(input[Start(limb)..Start(limb) + LIMB_BYTES]) < WORD
  {
    hide BigEndian, Pow;
    BytePower(0);
    BigEndianBound(input[Start(limb)..Start(limb) + LIMB_BYTES]);
  }

  /** Reads a fixed-width big-endian integer. */
  method ImportBigEndian(input: seq<byte>, output: array<nat>)
    requires |input| == BYTE_SIZE && output.Length == LIMBS
    modifies output
    ensures IsNumber(output) && Num(output) == BigEndian(input)
  {
    hide Part, Or, Pow, BigEndian, Val;
    forall limb | 0 <= limb < LIMBS {
      output[limb] := 0;
    }
    forall limb | 0 <= limb < LIMBS
      ensures Part(input, limb, 0) == 0
    {
      NoPart(input, limb);
    }
    for index := 0 to BYTE_SIZE
      invariant forall limb :: 0 <= limb < LIMBS ==> output[limb] == Part(input, limb, index)
    {
      var limb, shift := (BYTE_SIZE - 1 - index) / LIMB_BYTES, (BYTE_SIZE - 1 - index) % LIMB_BYTES * 8;
      NextPart(input, index);
      forall other | 0 <= other < LIMBS && other != limb
        ensures Part(input, other, index + 1) == Part(input, other, index)
      {
        OtherPart(input, other, index);
      }
      output[limb] := Or(output[limb], input[index] * Pow(2, shift));
    }
    forall limb | 0 <= limb < LIMBS
      ensures output[limb] == BigEndian(input[Start(limb)..Start(limb) + LIMB_BYTES]) < WORD
    {
      WholePart(input, limb);
    }
    LimbsDenote(input, output[..]);
  }

  // ---- writing -----------------------------------------------------------------------------

  /** What the bytes of one limb denote once the first index bytes were written. */
  ghost predicate Written(bytes: seq<byte>, limb: nat, v: nat, index: nat)
    requires |bytes| == BYTE_SIZE && limb < LIMBS
  {
    BigEndian(bytes[Start(limb)..Reached(limb, index)]) == v / Pow(256, Start(limb) + LIMB_BYTES - Reached(limb, index))
  }

  lemma NothingWritten(bytes: seq<byte>, limb: nat, v: nat)
    requires |bytes| == BYTE_SIZE && limb < LIMBS && v < WORD
    ensures Written(bytes, limb, v, 0)
  {
    BytePower(0);
    assert bytes[Start(limb)..Start(limb)] == [];
    DivModUnique(v, WORD, 0, v);
  }

  lemma AllWritten(bytes: seq<byte>, limb: nat, v: nat)
    requires |bytes| == BYTE_SIZE && limb < LIMBS && Written(bytes, limb, v, BYTE_SIZE)
    ensures v == BigEndian(bytes[Start(limb)..Start(limb) + LIMB_BYTES])
  {
    BytePower(0);
  }

  lemma OtherWritten(before: seq<byte>, after: seq<byte>, limb: nat, v: nat, index: nat)
    requires |before| == |after| == BYTE_SIZE && limb < LIMBS && index < BYTE_SIZE
    requires limb != (BYTE_SIZE - 1 - index) / LIMB_BYTES && Written(before, limb, v, index)
    requires after == before[index := after[index]]
    ensures Written(after, limb, v, index + 1)
  {
    assert Reached(limb, index + 1) == Reached(limb, index);
    assert after[Start(limb)..Reached(limb, index)] == before[Start(limb)..Reached(limb, index)];
  }

  lemma NextWritten(before: seq<byte>, after: seq<byte>, v: nat, index: nat)
    requires |before| == |after| == BYTE_SIZE && index < BYTE_SIZE && after == before[index := after[index]]
    requires var limb, shift := (BYTE_SIZE - 1 - index) / LIMB_BYTES, (BYTE_SIZE - 1 - index) % LIMB_BYTES * 8;
             Written(before, limb, v, index) && after[index] == v / Pow(2, shift) % 256
    ensures Written(after, (BYTE_SIZE - 1 - index) / LIMB_BYTES, v, index + 1)
  {
    hide BigEndian, Pow;
    var limb, places := (BYTE_SIZE - 1 - index) / LIMB_BYTES, (BYTE_SIZE - 1 - index) % LIMB_BYTES;
    var s := Start(limb);
    assert Reached(limb, index) == index && Reached(limb, index + 1) == index + 1 && s + LIMB_BYTES - index == places + 1;
    assert after[s..index + 1] == before[s..index] + [after[index]];
    BigEndianSnoc(before[s..index], after[index]);
    BytePower(places);
    DivDiv(v, Pow(256, places), 256);
  }

  /** Writes a fixed-width big-endian integer. */
  method ExportBigEndian(value: array<nat>, output: array<byte>)
    requires IsNumber(value) && output.Length == BYTE_SIZE
    modifies output
    ensures BigEndian(output[..]) == Num(value)
  {
    hide Written, Pow, BigEndian, Val;
    ghost var limbs := value[..];
    forall limb | 0 <= limb < LIMBS
      ensures Written(output[..], limb, limbs[limb], 0)
    {
      NothingWritten(output[..], limb, limbs[limb]);
    }
    for index := 0 to BYTE_SIZE
      invariant value[..] == limbs
      invariant forall limb :: 0 <= limb < LIMBS ==> Written(output[..], limb, limbs[limb], index)
    {
      var limb, shift := (BYTE_SIZE - 1 - index) / LIMB_BYTES, (BYTE_SIZE - 1 - index) % LIMB_BYTES * 8;
      ghost var before := output[..];
      output[index] := value[limb] / Pow(2, shift) % 256;
      NextWritten(before, output[..], limbs[limb], index);
      forall other | 0 <= other < LIMBS && other != limb
        ensures Written(output[..], other, limbs[other], index + 1)
      {
        OtherWritten(before, output[..], other, limbs[other], index);
      }
    }
    forall limb | 0 <= limb < LIMBS
      ensures limbs[limb] == BigEndian(output[..][Start(limb)..Start(limb) + LIMB_BYTES])
    {
      AllWritten(output[..], limb, limbs[limb]);
    }
    LimbsDenote(output[..], limbs);
  }

  /** Exporting what was imported gives the same bytes back, and importing what was exported the same limbs. */
  method WireRoundTrip(bytes: seq<byte>, value: array<nat>) returns (again: array<byte>, limbs: array<nat>)
    requires |bytes| == BYTE_SIZE && IsNumber(value)
    ensures again.Length == BYTE_SIZE && again[..] == bytes
    ensures limbs.Length == LIMBS && limbs[..] == value[..]
  {
    hide BigEndian, Val;
    limbs := new nat[LIMBS];
    ImportBigEndian(bytes, limbs);
    again := new byte[BYTE_SIZE];
    ExportBigEndian(limbs, again);
    BigEndianInjective(again[..], bytes);
    var wire := new byte[BYTE_SIZE];
    ExportBigEndian(value, wire);
    ImportBigEndian(wire[..], limbs);
    ValInjective(WORD, limbs[..], value[..]);
  }
}
