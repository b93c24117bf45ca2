/** The unaligned, most-significant-bit-first bit stream: writer, reader and raw byte fields. */
module BitStream {
  import opened Arithmetic
  import opened Bytes
  import Limbs

  const MAXIMUM_WIDTH: nat := 64
  const BYTE_WIDTH: nat := 8
  const SIZE_MAX: nat := 0xFFFF_FFFF_FFFF_FFFF

  // ---- bits of a byte ----------------------------------------------------------------------

  /** Bit k of a byte, counted from the most significant. */
  predicate BitOf(b: bv8, k: nat)
    requires k < 8
  {
    (b >> (7 - k)) & 1 == 1
  }

  function Mask(k: nat): bv8
    requires k < 8
  {
    1 << (7 - k)
  }

  lemma MaskBit(k: nat, j: nat)
    requires k < 8 && j < 8
    ensures BitOf(Mask(k), j) == (j == k)
  {
    assert Mask(k) == if k == 0 then 0x80 else if k == 1 then 0x40 else if k == 2 then 0x20 else if k == 3 then 0x10
                      else if k == 4 then 0x08 else if k == 5 then 0x04 else if k == 6 then 0x02 else 0x01;
    if j == 0 {} else if j == 1 {} else if j == 2 {} else if j == 3 {}
    else if j == 4 {} else if j == 5 {} else if j == 6 {} else {}
  }

  lemma OrBit(b: bv8, mask: bv8, j: nat)
    requires j < 8
    ensures BitOf(b | mask, j) == (BitOf(mask, j) || BitOf(b, j))
  {
    if j == 0 {} else if j == 1 {} else if j == 2 {} else if j == 3 {}
    else if j == 4 {} else if j == 5 {} else if j == 6 {} else {}
  }

  /** Or-ing a mask into a byte sets that bit and no other. */
  lemma SetBit(b: bv8, k: nat)
    requires k < 8
    ensures forall j :: 0 <= j < 8 ==> BitOf(b | Mask(k), j) == (j == k || BitOf(b, j))
  {
    forall j | 0 <= j < 8
      ensures BitOf(b | Mask(k), j) == (j == k || BitOf(b, j))
    {
      OrBit(b, Mask(k), j);
      MaskBit(k, j);
    }
  }

  /** A byte as a number. */
  function ToNat(b: bv8): nat { b as nat }

  lemma ByteBelow(b: bv8)
    ensures ToNat(b) < 256
  {}

  lemma ByteHalves(b: bv8)
    ensures ToNat(b >> 1) == ToNat(b) / 2 && (BitOf(b, 7) <==> ToNat(b) % 2 == 1)
  {}

  lemma ShiftedDown(b: bv8, k: nat)
    requires 0 < k < 8
    ensures BitOf(b >> 1, k) == BitOf(b, k - 1)
  {
    if k == 1 {} else if k == 2 {} else if k == 3 {} else if k == 4 {} else if k == 5 {} else if k == 6 {} else {}
  }

  /** The bits of a byte are those of its number: bit 0 is worth 128 and bit 7 is worth 1. */
  lemma {:induction false} ByteBits(b: bv8, width: nat, j: nat)
    requires j < width <= 8
    ensures FieldBits(ToNat(b), width)[j] == BitOf(b, 8 - width + j)
    decreases width
  {
    ByteHalves(b);
    if j < width - 1 {
      ByteBits(b >> 1, width - 1, j);
      ShiftedDown(b, 9 - width + j);
    }
  }

  // ---- bit strings -------------------------------------------------------------------------

  predicate At(bytes: seq<bv8>, position: nat)
    requires position < 8 * |bytes|
  {
    BitOf(bytes[position / 8], position % 8)
  }

  /** The bits of a byte string from one position to another. */
  function Stream(bytes: seq<bv8>, from: nat, to: nat): (bits: seq<bool>)
    requires from <= to <= 8 * |bytes|
    ensures |bits| == to - from
    ensures forall k :: 0 <= k < to - from ==> bits[k] == At(bytes, from + k)
  {
    seq(to - from, k requires 0 <= k < to - from => At(bytes, from + k))
  }

  lemma StreamDrop(bytes: seq<bv8>, from: nat, width: nat, end: nat)
    requires from + width <= end <= 8 * |bytes|
    ensures Stream(bytes, from + width, end) == Stream(bytes, from, end)[width..]
    ensures Stream(bytes, from, from + width) == Stream(bytes, from, end)[..width]
  {
    hide At;
  }

  lemma StreamSnoc(bytes: seq<bv8>, from: nat, end: nat)
    requires from <= end < 8 * |bytes|
    ensures Stream(bytes, from, end + 1) == Stream(bytes, from, end) + [At(bytes, end)]
  {
    hide At;
  }

  /** The low bits of a value, most significant first. */
  function FieldBits(value: nat, width: nat): (bits: seq<bool>)
    ensures |bits| == width
  {
    if width == 0 then [] else FieldBits(value / 2, width - 1) + [value % 2 == 1]
  }

  /** The number a bit string denotes. */
  function Value(bits: seq<bool>): nat {
    if bits == [] then 0 else 2 * Value(bits[..|bits| - 1]) + if bits[|bits| - 1] then 1 else 0
  }

  lemma ValueSnoc(bits: seq<bool>, bit: bool)
    ensures Value(bits + [bit]) == 2 * Value(bits) + if bit then 1 else 0
  {
    assert (bits + [bit])[..|bits|] == bits;
  }

  lemma HalveMod(value: nat, m: nat)
    requires m > 0
    ensures value % (2 * m) == 2 * (value / 2 % m) + value % 2
  {
    var q, r := value / 2 / m, value / 2 % m;
    assert value / 2 == q * m + r;
    assert value == q * (2 * m) + (2 * r + value % 2);
    DivModUnique(value, 2 * m, q, 2 * r + value % 2);
  }

  lemma NoBits(bytes: seq<bv8>, from: nat)
    requires from <= 8 * |bytes|
    ensures Value(Stream(bytes, from, from)) == 0
  {}

  /** The eight stream bits of one byte are its number as a field. */
  lemma ByteInStream(bytes: seq<bv8>, i: nat)
    requires i < |bytes|
    ensures Stream(bytes, 8 * i, 8 * i + 8) == FieldBits(ToNat(bytes[i]), 8)
  {
    hide BitOf, FieldBits, ToNat;
    forall j | 0 <= j < 8
      ensures At(bytes, 8 * i + j) == FieldBits(ToNat(bytes[i]), 8)[j]
    {
      ByteBits(bytes[i], 8, j);
      assert (8 * i + j) / 8 == i && (8 * i + j) % 8 == j;
    }
  }

  lemma {:induction false} ValueConcat(a: seq<bool>, b: seq<bool>)
    ensures Value(a + b) == Value(a) * Pow(2, |b|) + Value(b)
  {
    hide Value, Pow;
    if b == [] {
      assert a + b == a;
      NoValue();
    } else {
      var n := |b| - 1;
      var front, bit := b[..n], b[n];
      ValueConcat(a, front);
      assert a + b == (a + front) + [bit] && b == front + [bit];
      ValueSnoc(a + front, bit);
      ValueSnoc(front, bit);
      PowStep(2, n);
      DoubledSum(Value(a), Pow(2, n), Value(front));
    }
  }

  lemma NoValue()
    ensures Value([]) == 0 && Pow(2, 0) == 1
  {}

  lemma DoubledSum(a: nat, p: nat, b: nat)
    ensures 2 * (a * p + b) == a * (2 * p) + 2 * b
  {}

  /** Reading a field back gives the value modulo 2^width. */
  lemma {:induction false} FieldValue(value: nat, width: nat)
    ensures Value(FieldBits(value, width)) == value % Pow(2, width)
  {
    if width > 0 {
      FieldValue(value / 2, width - 1);
      ValueSnoc(FieldBits(value / 2, width - 1), value % 2 == 1);
      PowStep(2, width - 1);
      HalveMod(value, Pow(2, width - 1));
    }
  }

  /** Writing back a field that was read gives the same bits. */
  lemma {:induction false} ValueField(bits: seq<bool>)
    ensures FieldBits(Value(bits), |bits|) == bits
  {
    if bits != [] {
      var n := |bits| - 1;
      ValueField(bits[..n]);
      assert Value(bits) / 2 == Value(bits[..n]);
      assert bits == bits[..n] + [bits[n]];
    }
  }

  /** Bit i of a field is the bit the writer shifts out for it. */
  lemma {:induction false} FieldBitAt(value: nat, width: nat, i: nat)
    requires i < width
    ensures FieldBits(value, width)[i] == (value / Pow(2, width - i - 1) % 2 == 1)
  {
    if i < width - 1 {
      FieldBitAt(value / 2, width - 1, i);
      PowStep(2, width - i - 2);
      Limbs.DivDiv(value, 2, Pow(2, width - i - 2));
    }
  }

  /** Or-ing the mask of one position into its byte sets that bit of the stream and no other. */
  lemma BitPut(bytes: seq<bv8>, at: nat)
    requires at < 8 * |bytes|
    ensures var after := bytes[at / 8 := bytes[at / 8] | Mask(at % 8)];
            forall k :: 0 <= k < 8 * |bytes| ==> At(after, k) == (k == at || At(bytes, k))
  {
    SetBit(bytes[at / 8], at % 8);
    hide Mask, BitOf;
    forall k | 0 <= k < 8 * |bytes| && k / 8 == at / 8
      ensures k % 8 == at % 8 <==> k == at
    {
      assert k == 8 * (at / 8) + k % 8 && at == 8 * (at / 8) + at % 8;
    }
  }

  /** The value of one byte's stream bits is that byte. */
  lemma ByteRead(bytes: seq<bv8>, i: nat)
    requires i < |bytes|
    ensures Value(Stream(bytes, 8 * i, 8 * i + 8)) == ToNat(bytes[i])
  {
    hide Stream, FieldBits, Value, Pow, ToNat;
    ByteInStream(bytes, i);
    ByteBelow(bytes[i]);
    FieldValue(ToNat(bytes[i]), 8);
    SmallPowers();
  }

  /** A byte whose stream bits are those of a field is that field's low byte. */
  lemma ByteIsField(bytes: seq<bv8>, i: nat, value: nat)
    requires i < |bytes| && Stream(bytes, 8 * i, 8 * i + 8) == FieldBits(value, 8)
    ensures ToNat(bytes[i]) == value % 256
  {
    hide Stream, FieldBits, Value, Pow, ToNat;
    ByteInStream(bytes, i);
    ByteBelow(bytes[i]);
    FieldValue(ToNat(bytes[i]), 8);
    FieldValue(value, 8);
    SmallPowers();
  }

  // ---- writer ------------------------------------------------------------------------------

  class Writer {
    const output: array<bv8>
    const measuring: bool
    var bitPosition: nat
    var failed: bool
    /** Every bit accepted so far. */
    ghost var bits: seq<bool>

    ghost predicate Valid()
      reads this, output
    {
      && bitPosition == |bits|
      && (!measuring ==>
            && bitPosition <= 8 * output.Length
            && (forall k :: 0 <= k < bitPosition ==> At(output[..], k) == bits[k])
            && (forall k :: bitPosition <= k < 8 * output.Length ==> !At(output[..], k)))
    }

    /** What may still be written: anything while measuring, else the unused bits of the output. */
    ghost predicate Fits(width: nat)
      reads this
    {
      measuring || bitPosition + width <= 8 * output.Length
    }

    constructor (storage: array<bv8>)
      modifies storage
      ensures Valid() && output == storage && !measuring && !failed && bits == []
    {
      output, measuring := storage, false;
      bitPosition, failed, bits := 0, false, [];
      new;
      forall k | 0 <= k < output.Length {
        output[k] := 0;
      }
    }

    constructor Measuring()
      ensures Valid() && measuring && !failed && bits == [] && fresh(output)
    {
      output, measuring := new bv8[0], true;
      bitPosition, failed, bits := 0, false, [];
    }

    /** Puts one bit at the cursor. */
    method PutBit(bit: bool)
      requires Valid() && !measuring && bitPosition < 8 * output.Length
      modifies this`bitPosition, this`bits, output
      ensures Valid() && bits == old(bits) + [bit]
    {
      hide At, Mask, BitOf;
      var byteIndex := bitPosition / 8;
      ghost var before, at := output[..], bitPosition;
      if bit {
        BitPut(before, at);
        output[byteIndex] := output[byteIndex] | Mask(bitPosition % 8);
      }
      assert output[..] == if bit then before[at / 8 := before[at / 8] | Mask(at % 8)] else before;
      assert forall k :: 0 <= k < 8 * output.Length ==> At(output[..], k) == ((bit && k == at) || At(before, k));
      bitPosition := bitPosition + 1;
      bits := bits + [bit];
    }

    /** Writes the low bits of one value, most significant first, or fails for good. */
    method Write(value: nat, width: nat) returns (ok: bool)
      requires Valid()
      modifies this, output
      ensures Valid()
      ensures ok == (!old(failed) && width <= MAXIMUM_WIDTH && old(Fits(width)))
      ensures bits == if ok then old(bits) + FieldBits(value, width) else old(bits)
      ensures bitPosition == old(bitPosition) + if ok then width else 0
      ensures !ok ==> failed && output[..] == old(output[..])
      ensures ok ==> !failed
      ensures ok && !measuring && width == 8 && old(bitPosition) % 8 == 0 ==>
                ToNat(output[old(bitPosition) / 8]) == value % 256
    {
      if failed || width > MAXIMUM_WIDTH || (!measuring && width > 8 * output.Length - bitPosition) {
        failed := true;
        return false;
      }
      ghost var field := FieldBits(value, width);
      if measuring {
        bitPosition := bitPosition + width;
        bits := bits + field;
        return true;
      }
      hide At, Mask, BitOf;
      for index := 0 to width
        invariant Valid() && !failed
        invariant bits == old(bits) + field[..index]
      {
        var bit := value / Pow(2, width - index - 1) % 2 == 1;
        FieldBitAt(value, width, index);
        assert field[..index + 1] == field[..index] + [field[index]];
        PutBit(bit);
      }
      assert field[..width] == field;
      if width == 8 && old(bitPosition) % 8 == 0 {
        AlignedByte(old(bitPosition) / 8, value);
      }
      return true;
    }

    /** A byte field written at a byte boundary is that byte. */
    lemma AlignedByte(i: nat, value: nat)
      requires Valid() && !measuring && bitPosition == 8 * i + 8 && bits[8 * i..] == FieldBits(value, 8)
      ensures i < output.Length && ToNat(output[i]) == value % 256
    {
      hide FieldBits, At;
      forall j | 0 <= j < 8
        ensures At(output[..], 8 * i + j) == FieldBits(value, 8)[j]
      {
        assert bits[8 * i + j] == bits[8 * i..][j];
      }
      ByteIsField(output[..], i, value);
    }

    /** Reports the output prefix that holds every accepted bit; the rest of its last byte is zero. */
    method Finish() returns (ok: bool, written: nat)
      requires Valid()
      ensures ok == !failed && (!ok ==> written == 0)
      ensures ok ==> 8 * written - 8 < |bits| <= 8 * written
      ensures ok && !measuring ==>
                && written <= output.Length
                && Stream(output[..], 0, 8 * written) == bits + Zeros(8 * written - |bits|)
    {
      written := 0;
      if failed {
        return false, 0;
      }
      written := bitPosition / 8;
      if bitPosition % 8 != 0 {
        written := written + 1;
      }
      ok := true;
    }
  }

  function Zeros(n: nat): (bits: seq<bool>)
    ensures |bits| == n && forall k :: 0 <= k < n ==> !bits[k]
  {
    seq(n, _ => false)
  }

  // ---- reader ------------------------------------------------------------------------------

  class Reader {
    const input: seq<bv8>
    var bitPosition: nat
    var failed: bool

    ghost predicate Valid()
      reads this
    {
      bitPosition <= 8 * |input|
    }

    /** The unread bits. */
    ghost function Rest(): seq<bool>
      reads this
      requires Valid()
    {
      Stream(input, bitPosition, 8 * |input|)
    }

    ghost predicate Available(width: nat)
      reads this
    {
      !failed && |input| <= SIZE_MAX / BYTE_WIDTH && bitPosition + width <= 8 * |input|
    }

    constructor (bytes: seq<bv8>)
      ensures Valid() && input == bytes && bitPosition == 0 && !failed
    {
      input, bitPosition, failed := bytes, 0, false;
    }

    /** Checks one width; failure is sticky and leaves the cursor alone. */
    method CanConsume(width: nat) returns (ok: bool)
      requires Valid()
      modifies this`failed
      ensures ok == old(Available(width)) && failed == (old(failed) || !ok)
    {
      if failed || |input| > SIZE_MAX / BYTE_WIDTH {
        failed := true;
        return false;
      }
      var capacity := |input| * BYTE_WIDTH;
      if bitPosition > capacity || width > capacity - bitPosition {
        failed := true;
        return false;
      }
      return true;
    }

    /** Reads one field of at most 64 bits. */
    method Read(width: nat) returns (ok: bool, value: nat)
      requires Valid()
      modifies this
      ensures Valid() && ok == (width <= MAXIMUM_WIDTH && old(Available(width)))
      ensures ok ==> |old(Rest())| >= width && value == Value(old(Rest())[..width]) && Rest() == old(Rest())[width..]
      ensures ok ==> !failed && bitPosition == old(bitPosition) + width
      ensures ok && width == 8 && old(bitPosition) % 8 == 0 ==>
                old(bitPosition) / 8 < |input| && value == ToNat(input[old(bitPosition) / 8])
      ensures !ok ==> value == 0 && failed && bitPosition == old(bitPosition)
    {
      hide At, Value, Stream;
      value := 0;
      if width > MAXIMUM_WIDTH {
        failed := true;
        return false, 0;
      }
      ok := CanConsume(width);
      if !ok {
        return false, 0;
      }
      StreamDrop(input, bitPosition, width, 8 * |input|);
      value := Assemble(width);
      if width == 8 && old(bitPosition) % 8 == 0 {
        ByteRead(input, old(bitPosition) / 8);
      }
    }

    /** The value of the next bits, which are there. */
    method Assemble(width: nat) returns (value: nat)
      requires bitPosition + width <= 8 * |input|
      modifies this`bitPosition
      ensures bitPosition == old(bitPosition) + width
      ensures value == Value(Stream(input, old(bitPosition), bitPosition))
    {
      hide At, Value, Stream;
      value := 0;
      ghost var from := bitPosition;
      NoBits(input, from);
      for index := 0 to width
        invariant bitPosition == from + index
        invariant value == Value(Stream(input, from, bitPosition))
      {
        var bit := At(input, bitPosition);
        StreamSnoc(input, from, bitPosition);
        ValueSnoc(Stream(input, from, bitPosition), bit);
        value := 2 * value + if bit then 1 else 0;
        bitPosition := bitPosition + 1;
      }
    }

    /** Advances over a field without assembling it. */
    method Skip(width: nat) returns (ok: bool)
      requires Valid()
      modifies this
      ensures Valid() && ok == old(Available(width))
      ensures ok ==> |old(Rest())| >= width && Rest() == old(Rest())[width..] && !failed
      ensures !ok ==> failed && bitPosition == old(bitPosition)
    {
      hide At, Stream;
      ok := CanConsume(width);
      if ok {
        StreamDrop(input, bitPosition, width, 8 * |input|);
        bitPosition := bitPosition + width;
      }
    }
  }
}
