/** Raw byte fields, bit copies and raw integers over the bit stream, and whole-run round trips. */
module BitRaw {
  import opened Arithmetic
  import opened Bytes
  import opened BitStream

  // ---- raw bytes ---------------------------------------------------------------------------

  function ToByte(v: nat): bv8
    requires v < 256
  {
    v as bv8
  }

  lemma ByteNat(v: nat)
    requires v < 256
    ensures ToNat(ToByte(v)) == v
  {
    hide *;
    NarrowAndWiden(v);
    assert ToNat(ToByte(v)) == v by { ByteNatIs(v); }
  }

  lemma ByteNatIs(v: nat)
    requires v < 256
    ensures ToNat(ToByte(v)) == (v as bv8) as nat
  {}

  lemma NarrowAndWiden(v: nat)
    requires v < 256
    ensures (v as bv8) as nat == v
  {
    if v < 16 {} else if v < 32 {} else if v < 48 {} else if v < 64 {} else if v < 80 {} else
    if v < 96 {} else if v < 112 {} else if v < 128 {} else if v < 144 {} else if v < 160 {} else
    if v < 176 {} else if v < 192 {} else if v < 208 {} else if v < 224 {} else if v < 240 {} else {}
  }

  /** The bits of bytes in memory order. */
  function RawBits(bytes: seq<bv8>): (bits: seq<bool>)
    ensures |bits| == 8 * |bytes|
  {
    if bytes == [] then [] else RawBits(bytes[..|bytes| - 1]) + FieldBits(ToNat(bytes[|bytes| - 1]), BYTE_WIDTH)
  }

  lemma RawBitsSnoc(bytes: seq<bv8>, b: bv8)
    ensures RawBits(bytes + [b]) == RawBits(bytes) + FieldBits(ToNat(b), BYTE_WIDTH)
  {
    assert (bytes + [b])[..|bytes|] == bytes;
  }

  /** The stream of a byte string is the bits of its bytes as numbers, the highest bit of each first. */
  lemma {:induction false} StreamIsRaw(bytes: seq<bv8>)
    ensures Stream(bytes, 0, 8 * |bytes|) == RawBits(bytes)
  {
    hide At, FieldBits;
    if bytes != [] {
      var n := |bytes| - 1;
      StreamIsRaw(bytes[..n]);
      ByteInStream(bytes, n);
      StreamFront(bytes, n);
      assert Stream(bytes, 0, 8 * |bytes|) == Stream(bytes, 0, 8 * n) + Stream(bytes, 8 * n, 8 * n + 8);
    }
  }

  lemma StreamFront(bytes: seq<bv8>, n: nat)
    requires n <= |bytes|
    ensures Stream(bytes, 0, 8 * n) == Stream(bytes[..n], 0, 8 * n)
  {
    hide BitOf;
    forall k | 0 <= k < 8 * n
      ensures At(bytes, k) == At(bytes[..n], k)
    {
      assert bytes[..n][k / 8] == bytes[k / 8];
    }
  }

  function Numbers(bytes: seq<bv8>): (s: seq<byte>)
    ensures |s| == |bytes|
  {
    seq(|bytes|, k requires 0 <= k < |bytes| => ByteNumber(bytes[k]))
  }

  function ByteNumber(b: bv8): (n: byte) {
    ByteBelow(b);
    ToNat(b)
  }

  /** The value of whole bytes is the number they denote, high byte first. */
  lemma {:induction false} RawIsBigEndian(bytes: seq<bv8>)
    ensures Value(RawBits(bytes)) == BigEndian(Numbers(bytes))
  {
    hide RawBits, FieldBits, Value, BigEndian, ToNat, Pow, Numbers, ByteNumber;
    if bytes == [] {
      NoBytes();
    } else {
      var n := |bytes| - 1;
      var front, last := bytes[..n], bytes[n];
      RawIsBigEndian(front);
      assert bytes == front + [last];
      RawBitsSnoc(front, last);
      NumbersSnoc(front, last);
      ByteValue(last);
      ValueConcat(RawBits(front), FieldBits(ToNat(last), BYTE_WIDTH));
      BigEndianSnoc(Numbers(front), ByteNumber(last));
    }
  }

  lemma NoBytes()
    ensures Value(RawBits([])) == BigEndian(Numbers([]))
  {}

  lemma NumbersSnoc(bytes: seq<bv8>, b: bv8)
    ensures Numbers(bytes + [b]) == Numbers(bytes) + [ByteNumber(b)]
  {
    hide ByteNumber;
  }

  lemma ByteValue(b: bv8)
    ensures Pow(2, BYTE_WIDTH) == 256 && Value(FieldBits(ToNat(b), BYTE_WIDTH)) == ByteNumber(b)
  {
    hide FieldBits, Value, Pow;
    ByteBelow(b);
    SmallPowers();
    FieldValue(ToNat(b), BYTE_WIDTH);
  }

  /** One field's worth of bits denotes a byte, and that byte's bits are those bits. */
  lemma ByteField(bits: seq<bool>)
    requires |bits| == BYTE_WIDTH
    ensures Value(bits) < 256 && FieldBits(Value(bits), BYTE_WIDTH) == bits
  {
    ValueField(bits);
    FieldValue(Value(bits), BYTE_WIDTH);
    SmallPowers();
    assert Value(bits) % 256 < 256;
  }

  /** Equal raw bits come from equal bytes. */
  lemma {:induction false} RawBitsInjective(a: seq<bv8>, b: seq<bv8>)
    requires |a| == |b| && RawBits(a) == RawBits(b)
    ensures a == b
  {
    hide RawBits, FieldBits, Value, Pow;
    if a != [] {
      var n := |a| - 1;
      assert a == a[..n] + [a[n]] && b == b[..n] + [b[n]];
      RawBitsSnoc(a[..n], a[n]);
      RawBitsSnoc(b[..n], b[n]);
      assert RawBits(a)[..8 * n] == RawBits(a[..n]) && RawBits(a)[8 * n..] == FieldBits(ToNat(a[n]), BYTE_WIDTH);
      assert RawBits(b)[..8 * n] == RawBits(b[..n]) && RawBits(b)[8 * n..] == FieldBits(ToNat(b[n]), BYTE_WIDTH);
      RawBitsInjective(a[..n], b[..n]);
      ByteInjective(a[n], b[n]);
    }
  }

  lemma ByteInjective(a: bv8, b: bv8)
    requires FieldBits(ToNat(a), BYTE_WIDTH) == FieldBits(ToNat(b), BYTE_WIDTH)
    ensures a == b
  {
    hide FieldBits, Value, Pow;
    FieldValue(ToNat(a), BYTE_WIDTH);
    FieldValue(ToNat(b), BYTE_WIDTH);
    SmallPowers();
    assert (a as nat) as bv8 == a && (b as nat) as bv8 == b;
  }

  /** Appends a byte string as bits, up to the first byte that is refused: done bytes are written. */
  method WriteRaw(writer: Writer, bytes: seq<bv8>) returns (ok: bool, ghost done: nat)
    requires writer.Valid()
    modifies writer, writer.output
    ensures writer.Valid() && done <= |bytes| && writer.bits == old(writer.bits) + RawBits(bytes[..done])
    ensures ok == (done == |bytes|) && writer.failed == (old(writer.failed) || !ok)
    ensures done > 0 ==> !old(writer.failed) && old(writer.Fits(8 * done))
    ensures !ok ==> old(writer.failed) || !old(writer.Fits(8 * done + 8))
  {
    hide RawBits, FieldBits;
    RawNothing();
    for index := 0 to |bytes|
      invariant writer.Valid() && writer.failed == old(writer.failed)
      invariant index > 0 ==> !old(writer.failed) && old(writer.Fits(8 * index))
      invariant writer.bits == old(writer.bits) + RawBits(bytes[..index])
    {
      RawBitsSnoc(bytes[..index], bytes[index]);
      assert bytes[..index + 1] == bytes[..index] + [bytes[index]];
      var written := writer.Write(ToNat(bytes[index]), BYTE_WIDTH);
      if !written {
        return false, index;
      }
    }
    return true, |bytes|;
  }

  lemma RawNothing()
    ensures RawBits([]) == []
  {}

  lemma TakeMore(s: seq<bool>, n: nat, k: nat)
    requires n + k <= |s|
    ensures s[..n + k] == s[..n] + s[n..][..k] && s[n..][k..] == s[n + k..]
  {}

  /** Takes the next bits as a byte string; a failed read leaves the bytes filled before it. */
  method ReadRaw(reader: Reader, count: nat) returns (ok: bool, bytes: seq<bv8>)
    requires reader.Valid()
    modifies reader
    ensures reader.Valid() && |bytes| <= count && ok == (|bytes| == count) && reader.failed == (old(reader.failed) || !ok)
    ensures |old(reader.Rest())| >= 8 * |bytes|
    ensures RawBits(bytes) == old(reader.Rest())[..8 * |bytes|] && reader.Rest() == old(reader.Rest())[8 * |bytes|..]
    ensures bytes != [] ==> old(reader.Available(8 * |bytes|))
    ensures !ok ==> !old(reader.Available(8 * |bytes| + 8))
  {
    hide RawBits, FieldBits, Value, ToByte, ToNat, At;
    RawNothing();
    bytes := [];
    ghost var rest := reader.Rest();
    for index := 0 to count
      invariant reader.Valid() && |bytes| == index && reader.failed == old(reader.failed)
      invariant index > 0 ==> old(reader.Available(8 * index))
      invariant 8 * index <= |rest| && reader.Rest() == rest[8 * index..]
      invariant RawBits(bytes) == rest[..8 * index]
    {
      var read, field := reader.Read(BYTE_WIDTH);
      if !read {
        return false, bytes;
      }
      ByteField(rest[8 * index..][..8]);
      ByteNat(field);
      RawBitsSnoc(bytes, ToByte(field));
      TakeMore(rest, 8 * index, 8);
      bytes := bytes + [ToByte(field)];
    }
    return true, bytes;
  }

  /** How many bits one read moves when some are left. */
  function Chunk(left: nat): (width: nat)
    ensures width <= left && width <= BYTE_WIDTH && (left > 0 ==> width > 0)
    ensures width < BYTE_WIDTH ==> width == left
  {
    if left < BYTE_WIDTH then left else BYTE_WIDTH
  }

  /**
   * Copies bits straight from a reader into a writer: exactly the next ones, at any alignment. A
   * copy that fails has moved a whole number of chunks, and has also taken the chunk that the writer
   * refused.
   */
  method Copy(source: Reader, output: Writer, count: nat) returns (ok: bool, ghost moved: nat, ghost taken: nat)
    requires source.Valid() && output.Valid()
    modifies source, output, output.output
    ensures source.Valid() && output.Valid()
    ensures moved <= taken <= |old(source.Rest())| && moved <= count && ok == (moved == count)
    ensures output.bits == old(output.bits) + old(source.Rest())[..moved] && source.Rest() == old(source.Rest())[taken..]
    ensures moved > 0 ==> old(source.Available(moved)) && !old(output.failed) && old(output.Fits(moved))
    ensures ok ==> taken == moved && source.failed == old(source.failed) && output.failed == old(output.failed)
    ensures !ok ==> moved % BYTE_WIDTH == 0
    ensures !ok ==>
              var width := Chunk(count - moved);
              if old(source.Available(moved + width))
              then taken == moved + width && output.failed && (old(output.failed) || !old(output.Fits(moved + width)))
              else taken == moved && source.failed && output.failed == old(output.failed)
  {
    hide FieldBits, Value, Writer.Valid, At, Stream, Reader.Rest, Chunk;
    ghost var rest := source.Rest();
    var bitCount: nat := count;
    moved, taken := 0, 0;
    while bitCount != 0
      invariant source.Valid() && output.Valid() && bitCount + moved == count && taken == moved <= |rest|
      invariant bitCount != 0 ==> moved % BYTE_WIDTH == 0
      invariant source.failed == old(source.failed) && output.failed == old(output.failed)
      invariant source.bitPosition == old(source.bitPosition) + moved
      invariant output.bitPosition == old(output.bitPosition) + moved
      invariant moved > 0 ==> old(source.Available(moved)) && !old(output.failed) && old(output.Fits(moved))
      invariant source.Rest() == rest[moved..] && output.bits == old(output.bits) + rest[..moved]
    {
      var width := Chunk(bitCount);
      ghost var available := source.Available(width);
      var copied := CopyChunk(source, output, width);
      if available {
        TakeMore(rest, moved, width);
        taken := moved + width;
      }
      if !copied {
        return false, moved, taken;
      }
      bitCount := bitCount - width;
      moved := moved + width;
    }
    return true, moved, taken;
  }

  /** Copies the bits of one read. */
  method CopyChunk(source: Reader, output: Writer, width: nat) returns (ok: bool)
    requires source.Valid() && output.Valid() && 0 < width <= BYTE_WIDTH
    modifies source, output, output.output
    ensures source.Valid() && output.Valid()
    ensures ok == (old(source.Available(width)) && !old(output.failed) && old(output.Fits(width)))
    ensures ok ==>
              && |old(source.Rest())| >= width
              && output.bits == old(output.bits) + old(source.Rest())[..width]
              && source.Rest() == old(source.Rest())[width..]
              && source.bitPosition == old(source.bitPosition) + width
              && output.bitPosition == old(output.bitPosition) + width
              && !source.failed && !output.failed
    ensures !ok ==> output.bits == old(output.bits) && output.failed == (old(output.failed) || old(source.Available(width)))
    ensures !ok ==>
              if old(source.Available(width))
              then |old(source.Rest())| >= width && source.Rest() == old(source.Rest())[width..]
              else source.failed && source.Rest() == old(source.Rest())
  {
    hide FieldBits, Value, Writer.Valid, At;
    ghost var rest := source.Rest();
    var value;
    ok, value := source.Read(width);
    if !ok {
      return;
    }
    ValueField(rest[..width]);
    ok := output.Write(value, width);
  }

  // ---- raw integers ------------------------------------------------------------------------

  /** The bits of the low bytes of a value, low byte first. */
  function LowFirst(value: nat, count: nat): (bits: seq<bool>)
    ensures |bits| == 8 * count
  {
    if count == 0 then []
    else LowFirst(value, count - 1) + FieldBits(value / Pow(256, count - 1) % 256, BYTE_WIDTH)
  }

  /** The number whose low byte comes first. */
  function LowFirstValue(bits: seq<bool>, count: nat): (value: nat)
    requires |bits| == 8 * count
    ensures count == 0 ==> value == 0
  {
    if count == 0 then 0
    else LowFirstValue(bits[..8 * count - 8], count - 1) + Value(bits[8 * count - 8..]) * Pow(256, count - 1)
  }

  lemma LowFirstEmpty()
    ensures LowFirstValue([], 0) == 0
  {}

  lemma {:induction false} LowFirstBound(bits: seq<bool>, count: nat)
    requires |bits| == 8 * count
    ensures LowFirstValue(bits, count) < Pow(256, count)
  {
    hide LowFirstValue, Value, FieldBits, Pow;
    if count > 0 {
      LowFirstValueStep(bits, count - 1);
      LowFirstBound(bits[..8 * count - 8], count - 1);
      ByteField(bits[8 * count - 8..]);
      PowStep(256, count - 1);
      DigitStep(LowFirstValue(bits[..8 * count - 8], count - 1), Value(bits[8 * count - 8..]), 256, Pow(256, count - 1));
    } else {
      PowNone();
      LowFirstEmpty();
    }
  }

  lemma PowNone()
    ensures Pow(256, 0) == 1
  {}

  lemma RadixMod(value: nat, p: nat)
    requires p > 0
    ensures value % (256 * p) == value % p + value / p % 256 * p
  {
    var q, r := value / p / 256, value / p % 256;
    assert value == (q * 256 + r) * p + value % p;
    assert (q * 256 + r) * p == q * (256 * p) + r * p;
    MulMonotone(r, 255, p);
    DivModUnique(value, 256 * p, q, r * p + value % p);
  }

  /** Reading a raw integer back gives the value modulo its width. */
  lemma {:induction false} LowFirstRoundTrip(value: nat, count: nat)
    ensures LowFirstValue(LowFirst(value, count), count) == value % Pow(256, count)
  {
    hide LowFirst, LowFirstValue, FieldBits, Value, Pow;
    if count == 0 {
      PowNone();
    } else {
      LowFirstRoundTrip(value, count - 1);
      LowFirstDigit(value, count - 1);
      PowStep(256, count - 1);
      RadixMod(value, Pow(256, count - 1));
    }
  }

  /** One more byte of a raw integer that is written and read back. */
  lemma LowFirstDigit(value: nat, count: nat)
    ensures LowFirstValue(LowFirst(value, count + 1), count + 1) ==
            LowFirstValue(LowFirst(value, count), count) + value / Pow(256, count) % 256 * Pow(256, count)
  {
    hide LowFirst, LowFirstValue, FieldBits, Value, Pow;
    var bits, digit := LowFirst(value, count + 1), value / Pow(256, count) % 256;
    LowFirstStep(value, count);
    assert bits[..8 * count] == LowFirst(value, count) && bits[8 * count..] == FieldBits(digit, BYTE_WIDTH);
    LowFirstValueStep(bits, count);
    assert Value(FieldBits(digit, BYTE_WIDTH)) == digit by {
      FieldValue(digit, BYTE_WIDTH);
      SmallPowers();
    }
  }

  lemma CarryDigit(low: nat, digit: nat, high: nat, p: nat)
    ensures low + digit * p + high * (256 * p) == low + (digit + high * 256) * p
    ensures (digit + high * 256) * p >= 0
  {}

  /** Writing back a raw integer that was read gives the same bits. */
  lemma {:induction false} LowFirstInverse(bits: seq<bool>, count: nat, high: nat)
    requires |bits| == 8 * count
    ensures LowFirst(LowFirstValue(bits, count) + high * Pow(256, count), count) == bits
  {
    hide LowFirst, LowFirstValue, FieldBits, Value, Pow;
    LowFirstStep(LowFirstValue(bits, count) + high * Pow(256, count), 0);
    if count > 0 {
      var n := 8 * count - 8;
      var digit, p := Value(bits[n..]), Pow(256, count - 1);
      var low := LowFirstValue(bits[..n], count - 1);
      var value := LowFirstValue(bits, count) + high * Pow(256, count);
      LowFirstValueStep(bits, count - 1);
      PowStep(256, count - 1);
      CarryDigit(low, digit, high, p);
      LowFirstStep(value, count - 1);
      LowFirstInverse(bits[..n], count - 1, digit + high * 256);
      LowFirstBound(bits[..n], count - 1);
      DivModUnique(value, p, digit + high * 256, low);
      ByteField(bits[n..]);
      DivModUnique(digit + high * 256, 256, high, digit);
      assert bits == bits[..n] + bits[n..];
    }
  }

  /** A raw integer over whole bytes is the number they denote, low byte first. */
  lemma {:induction false} LowFirstBytes(bytes: seq<bv8>)
    ensures LowFirstValue(RawBits(bytes), |bytes|) == LittleEndian(Numbers(bytes))
    ensures LowFirst(LittleEndian(Numbers(bytes)), |bytes|) == RawBits(bytes)
  {
    hide LowFirst, LowFirstValue, FieldBits, Value, Pow, RawBits, LittleEndian, ToNat, Numbers, ByteNumber;
    if bytes == [] {
      LowFirstEmpty();
      LittleEndianNone();
      assert Numbers([]) == [];
    } else {
      var n := |bytes| - 1;
      var front, last := bytes[..n], bytes[n];
      assert bytes == front + [last];
      LowFirstBytes(front);
      RawBitsSnoc(front, last);
      NumbersSnoc(front, last);
      ByteValue(last);
      assert RawBits(bytes)[..8 * n] == RawBits(front);
      assert RawBits(bytes)[8 * n..] == FieldBits(ToNat(last), BYTE_WIDTH);
      LowFirstValueStep(RawBits(bytes), n);
      LittleEndianSnoc(Numbers(front), ByteNumber(last));
    }
    LowFirstInverse(RawBits(bytes), |bytes|, 0);
  }

  /** Appends a 64-bit integer, its low byte first. */
  method WriteRawU64(writer: Writer, value: nat) returns (ok: bool, ghost done: nat)
    requires writer.Valid()
    modifies writer, writer.output
    ensures writer.Valid() && done <= 8 && writer.bits == old(writer.bits) + LowFirst(value, done)
    ensures ok == (done == 8) && writer.failed == (old(writer.failed) || !ok)
    ensures done > 0 ==> !old(writer.failed) && old(writer.Fits(8 * done))
    ensures !ok ==> old(writer.failed) || !old(writer.Fits(8 * done + 8))
  {
    hide FieldBits, LowFirst, Pow;
    LowFirstStep(value, 0);
    for index := 0 to 8
      invariant writer.Valid() && writer.failed == old(writer.failed)
      invariant index > 0 ==> !old(writer.failed) && old(writer.Fits(8 * index))
      invariant writer.bits == old(writer.bits) + LowFirst(value, index)
    {
      LowFirstStep(value, index);
      var written := writer.Write(value / Pow(256, index) % 256, BYTE_WIDTH);
      if !written {
        return false, index;
      }
    }
    return true, 8;
  }

  lemma LowFirstStep(value: nat, count: nat)
    ensures LowFirst(value, 0) == []
    ensures LowFirst(value, count + 1) == LowFirst(value, count) + FieldBits(value / Pow(256, count) % 256, BYTE_WIDTH)
  {}

  lemma LowFirstValueStep(bits: seq<bool>, count: nat)
    requires |bits| == 8 * count + 8
    ensures LowFirstValue(bits, count + 1) == LowFirstValue(bits[..8 * count], count) + Value(bits[8 * count..]) * Pow(256, count)
  {}

  /** Reads one raw 64-bit integer, low byte first. */
  method ReadRawU64(reader: Reader) returns (ok: bool, value: nat)
    requires reader.Valid()
    modifies reader
    ensures reader.Valid() && ok == old(reader.Available(64))
    ensures ok ==>
              && |old(reader.Rest())| >= 64 && !reader.failed
              && value == LowFirstValue(old(reader.Rest())[..64], 8) && reader.Rest() == old(reader.Rest())[64..]
  {
    hide LowFirstValue, Value, Pow, Or;
    ghost var rest := reader.Rest();
    var assembled: nat := 0;
    for index := 0 to 8
      invariant reader.Valid() && reader.failed == old(reader.failed)
      invariant index > 0 ==> old(reader.Available(8 * index))
      invariant 8 * index <= |rest| && reader.Rest() == rest[8 * index..]
      invariant assembled == LowFirstValue(rest[..8 * index], index)
    {
      var read, field := reader.Read(BYTE_WIDTH);
      if !read {
        return false, 0;
      }
      assert rest[..8 * index + 8][..8 * index] == rest[..8 * index];
      assert rest[..8 * index + 8][8 * index..] == rest[8 * index..][..8];
      LowFirstValueStep(rest[..8 * index + 8], index);
      LowFirstBound(rest[..8 * index], index);
      SmallPowers();
      OrDigit(assembled, field, 256, 8, index);
      assembled := Or(assembled, field * Pow(256, index));
    }
    return true, assembled;
  }

  // ---- whole runs --------------------------------------------------------------------------

  datatype Field = Field(value: nat, width: nat)

  /** The bits of a run of accepted fields. */
  function RunBits(fields: seq<Field>): seq<bool> {
    if fields == [] then []
    else RunBits(fields[..|fields| - 1]) + FieldBits(fields[|fields| - 1].value, fields[|fields| - 1].width)
  }

  ghost predicate Widths(fields: seq<Field>) {
    forall k :: 0 <= k < |fields| ==> fields[k].width <= MAXIMUM_WIDTH
  }

  lemma RunBitsSnoc(fields: seq<Field>, f: Field)
    ensures RunBits(fields + [f]) == RunBits(fields) + FieldBits(f.value, f.width)
    ensures RunBits([]) == []
  {
    assert (fields + [f])[..|fields|] == fields;
  }

  lemma {:induction false} RunBitsPrefix(fields: seq<Field>, n: nat)
    requires n <= |fields|
    ensures |RunBits(fields[..n])| <= |RunBits(fields)|
    ensures RunBits(fields)[..|RunBits(fields[..n])|] == RunBits(fields[..n])
  {
    if n < |fields| {
      var m := |fields| - 1;
      RunBitsPrefix(fields[..m], n);
      assert fields[..m][..n] == fields[..n];
    } else {
      assert fields[..n] == fields;
    }
  }

  lemma WidthsStep(fields: seq<Field>, n: nat)
    requires n < |fields|
    ensures Widths(fields[..n + 1]) <==> Widths(fields[..n]) && fields[n].width <= MAXIMUM_WIDTH
    ensures Widths(fields) ==> Widths(fields[..n + 1])
  {
    assert fields[..n + 1][n] == fields[n];
    assert forall k :: 0 <= k < n ==> fields[..n][k] == fields[..n + 1][k];
  }

  lemma NextRun(fields: seq<Field>, n: nat, accepted: seq<bool>)
    requires n < |fields|
    ensures var run, field := RunBits(fields[..n]), FieldBits(fields[n].value, fields[n].width);
            && RunBits(fields[..n + 1]) == run + field
            && accepted + run + field == accepted + RunBits(fields[..n + 1])
            && |run| + fields[n].width == |RunBits(fields[..n + 1])| <= |RunBits(fields)|
  {
    hide RunBits, FieldBits;
    RunBitsSnoc(fields[..n], fields[n]);
    assert fields[..n + 1] == fields[..n] + [fields[n]];
    RunBitsPrefix(fields, n + 1);
  }

  /** Writes a run of fields; it is accepted exactly when every width and the total size fit. */
  method WriteRun(writer: Writer, fields: seq<Field>) returns (ok: bool)
    requires writer.Valid() && !writer.failed
    modifies writer, writer.output
    ensures writer.Valid()
    ensures ok == (Widths(fields) && old(writer.Fits(|RunBits(fields)|))) && ok == !writer.failed
    ensures ok ==> writer.bits == old(writer.bits) + RunBits(fields)
  {
    assert writer.Fits(0) && Widths([]);
    hide RunBits, FieldBits, Writer.Valid, At, Widths;
    RunBitsSnoc([], Field(0, 0));
    ghost var start, accepted := writer.bitPosition, writer.bits;
    ghost var room := if writer.measuring then |RunBits(fields)| else 8 * writer.output.Length - start;
    for index := 0 to |fields|
      invariant writer.Valid() && !writer.failed && Widths(fields[..index])
      invariant |RunBits(fields[..index])| <= room
      invariant writer.bits == accepted + RunBits(fields[..index])
      invariant writer.bitPosition == start + |RunBits(fields[..index])|
    {
      NextRun(fields, index, accepted);
      WidthsStep(fields, index);
      var written := writer.Write(fields[index].value, fields[index].width);
      if !written {
        return false;
      }
    }
    assert fields[..|fields|] == fields;
    return true;
  }

  /** Reads the widths of a run back. */
  method ReadRun(reader: Reader, ghost fields: seq<Field>, widths: seq<nat>) returns (ok: bool, values: seq<nat>)
    requires reader.Valid() && Widths(fields) && reader.Available(|RunBits(fields)|)
    requires |widths| == |fields| && forall k :: 0 <= k < |fields| ==> widths[k] == fields[k].width
    requires RunBits(fields) <= reader.Rest()
    modifies reader
    ensures reader.Valid() && ok && |values| == |fields|
    ensures forall k :: 0 <= k < |fields| ==> values[k] == fields[k].value % Pow(2, fields[k].width)
    ensures reader.Rest() == old(reader.Rest())[|RunBits(fields)|..]
  {
    hide RunBits, FieldBits, Value, Pow, At;
    ghost var rest, all := reader.Rest(), RunBits(fields);
    RunBitsSnoc([], Field(0, 0));
    values := [];
    for index := 0 to |widths|
      invariant reader.Valid() && !reader.failed && |values| == index
      invariant forall k :: 0 <= k < index ==> values[k] == fields[k].value % Pow(2, fields[k].width)
      invariant |RunBits(fields[..index])| <= |all| <= |rest|
      invariant reader.bitPosition == old(reader.bitPosition) + |RunBits(fields[..index])|
      invariant reader.Rest() == rest[|RunBits(fields[..index])|..]
    {
      ghost var before, f := RunBits(fields[..index]), fields[index];
      RunBitsSnoc(fields[..index], f);
      assert fields[..index + 1] == fields[..index] + [f];
      RunBitsPrefix(fields, index + 1);
      var read, value := reader.Read(widths[index]);
      NextField(rest, all, before, FieldBits(f.value, f.width));
      FieldValue(f.value, f.width);
      values := values + [value];
    }
    assert fields[..|fields|] == fields;
    ok := true;
  }

  lemma NextField(rest: seq<bool>, all: seq<bool>, before: seq<bool>, field: seq<bool>)
    requires all <= rest && before + field <= all
    ensures rest[|before|..][..|field|] == field
    ensures rest[|before|..][|field|..] == rest[|before + field|..]
  {
    assert forall k :: 0 <= k < |before + field| ==> rest[k] == (before + field)[k];
  }

  /**
   * An encoder that measures its run first never runs out of room, and a reader over the bytes it
   * finished gets every value back modulo 2^width, with only zero padding left.
   */
  method MeasureWriteRead(fields: seq<Field>) returns (ok: bool, values: seq<nat>, size: nat)
    requires |RunBits(fields)| <= SIZE_MAX - 7
    ensures ok == Widths(fields)
    ensures ok ==> |values| == |fields|
    ensures ok ==> forall k :: 0 <= k < |fields| ==> values[k] == fields[k].value % Pow(2, fields[k].width)
    ensures ok ==> 8 * size - 8 < |RunBits(fields)| <= 8 * size
  {
    hide RunBits, FieldBits, Value, Pow, At;
    size, values := 0, [];
    var measure := new Writer.Measuring();
    ok := WriteRun(measure, fields);
    if !ok {
      return;
    }
    assert measure.bits == RunBits(fields);
    var measured, bytes := measure.Finish();
    var storage := new bv8[bytes];
    var writer := new Writer(storage);
    ok := WriteRun(writer, fields);
    assert writer.bits == RunBits(fields);
    ok, size := writer.Finish();
    var reader := new Reader(storage[..size]);
    ghost var run := RunBits(fields);
    assert storage[..size] == storage[..];
    assert reader.Rest() == run + Zeros(8 * size - |run|);
    ok, values := ReadRun(reader, fields, seq(|fields|, k requires 0 <= k < |fields| => fields[k].width));
  }
}
