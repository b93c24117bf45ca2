/** Protobuf varints, field keys and fixed-width values. */
module ProtobufWire {
  import opened Arithmetic
  import opened Bytes
  import opened Wrappers

  const MAXIMUM_FIELD_NUMBER: nat := 0x1FFF_FFFF
  const MAXIMUM_VARINT_SIZE: nat := 10
  const WORD: nat := 0x1_0000_0000_0000_0000
  const SIZE_MAX: nat := 0xFFFF_FFFF_FFFF_FFFF

  datatype WireType = VarintWire | Fixed64Wire | BytesWire | Fixed32Wire

  function Code(w: WireType): nat {
    match w
    case VarintWire => 0
    case Fixed64Wire => 1
    case BytesWire => 2
    case Fixed32Wire => 5
  }

  // ---- varints -----------------------------------------------------------------------------

  /** Seven bits a byte, low bits first, the high bit marking that another byte follows. */
  function Varint(value: nat): (bytes: seq<byte>)
    ensures |bytes| > 0
  {
    if value < 128 then [value] else [value % 128 + 128] + Varint(value / 128)
  }

  /** A decoded value and where the next byte is. */
  datatype Read = Read(value: nat, next: nat)

  /** The rest of a varint whose first bytes, index of them, were already read. */
  function VarintAt(input: seq<byte>, cursor: nat, index: nat): (r: Option<Read>)
    requires cursor <= |input|
    ensures r.Some? ==> cursor < r.value.next <= |input|
    decreases |input| - cursor
  {
    if index >= MAXIMUM_VARINT_SIZE || cursor == |input| then None
    else if index == MAXIMUM_VARINT_SIZE - 1 && input[cursor] > 1 then None
    else if input[cursor] < 128 then Some(Read(input[cursor], cursor + 1))
    else
      var rest := VarintAt(input, cursor + 1, index + 1);
      if rest.None? then None else Some(Read(input[cursor] - 128 + 128 * rest.value.value, rest.value.next))
  }

  /** What may still be carried after some bytes of a 64-bit varint. */
  function Limit(index: nat): nat
    requires index < MAXIMUM_VARINT_SIZE
  {
    Pow(2, 64 - 7 * index)
  }

  lemma LimitStep(index: nat)
    requires index + 1 < MAXIMUM_VARINT_SIZE
    ensures Limit(index) == 128 * Limit(index + 1)
  {
    PowAdd(2, 7, 64 - 7 * (index + 1));
    SmallPowers();
  }

  lemma LimitEnds()
    ensures Limit(0) == WORD && Limit(9) == 2
  {
    PowersOfTwo();
  }

  /** A varint that was written is read back, with the cursor at its end. */
  lemma {:induction false} VarintRoundTrip(input: seq<byte>, cursor: nat, index: nat, value: nat)
    requires index < MAXIMUM_VARINT_SIZE && value < Limit(index)
    requires cursor + |Varint(value)| <= |input| && input[cursor..cursor + |Varint(value)|] == Varint(value)
    ensures VarintAt(input, cursor, index) == Some(Read(value, cursor + |Varint(value)|))
    decreases value
  {
    hide Limit;
    LimitEnds();
    var bytes := Varint(value);
    assert input[cursor] == input[cursor..cursor + |bytes|][0];
    if value >= 128 {
      assert index < 9;
      LimitStep(index);
      assert input[cursor + 1..cursor + |bytes|] == input[cursor..cursor + |bytes|][1..];
      VarintRoundTrip(input, cursor + 1, index + 1, value / 128);
    }
  }

  /** Every varint that is accepted fits 64 bits and at most ten bytes. */
  lemma {:induction false} VarintBound(input: seq<byte>, cursor: nat, index: nat)
    requires cursor <= |input| && index < MAXIMUM_VARINT_SIZE && VarintAt(input, cursor, index).Some?
    ensures VarintAt(input, cursor, index).value.value < Limit(index)
    ensures VarintAt(input, cursor, index).value.next <= cursor + MAXIMUM_VARINT_SIZE - index
    decreases |input| - cursor
  {
    hide Limit;
    LimitEnds();
    if index < 9 {
      LimitStep(index);
      if input[cursor] >= 128 {
        VarintBound(input, cursor + 1, index + 1);
      } else {
        LimitAtLeast(index + 1);
      }
    }
  }

  lemma LimitAtLeast(index: nat)
    requires index < MAXIMUM_VARINT_SIZE
    ensures Limit(index) >= 1
  {}

  /** A partly read varint, completed by the rest of it. */
  function Completed(value: nat, index: nat, rest: Option<Read>): Option<Read> {
    if rest.None? then None else Some(Read(value + rest.value.value * Pow(128, index), rest.value.next))
  }

  lemma CompletedStep(value: nat, index: nat, b: byte, rest: Read)
    requires b >= 128
    ensures Completed(value, index, Some(Read(b - 128 + 128 * rest.value, rest.next))) ==
            Completed(value + (b - 128) * Pow(128, index), index + 1, Some(rest))
  {
    PowStep(128, index);
    var p := Pow(128, index);
    hide Pow;
    SeptetSplit(b - 128, rest.value, p);
  }

  lemma SeptetSplit(septet: nat, high: nat, p: nat)
    ensures (septet + 128 * high) * p == septet * p + high * (128 * p)
  {}

  // ---- what varint bytes mean --------------------------------------------------------------

  /** The number that the low seven bits of each byte make up, low septet first. */
  ghost function Septets(bytes: seq<byte>): nat {
    if bytes == [] then 0
    else Septets(bytes[..|bytes| - 1]) + bytes[|bytes| - 1] % 128 * Pow(128, |bytes| - 1)
  }

  /** A high bit on every byte but the last. */
  ghost predicate Continued(bytes: seq<byte>) {
    && bytes != [] && bytes[|bytes| - 1] < 128
    && forall k :: 0 <= k < |bytes| - 1 ==> bytes[k] >= 128
  }

  /** One 64-bit varint: at most ten bytes, the tenth carrying one bit. */
  ghost predicate IsVarint(bytes: seq<byte>, value: nat) {
    && Continued(bytes) && |bytes| <= 10 && (|bytes| == 10 ==> bytes[9] <= 1)
    && value == Septets(bytes)
  }

  lemma {:induction false} SeptetsCons(b: byte, rest: seq<byte>)
    ensures Septets([b] + rest) == b % 128 + 128 * Septets(rest)
  {
    hide Septets, Pow;
    if rest == [] {
      SeptetsFew(b);
      assert [b] + rest == [b];
    } else {
      var n := |rest| - 1;
      var front, last := rest[..n], rest[n];
      SeptetsCons(b, front);
      assert rest == front + [last] && [b] + rest == ([b] + front) + [last];
      SeptetsSnoc([b] + front, last);
      SeptetsSnoc(front, last);
      PowStep(128, n);
      SeptetUp(last % 128, Pow(128, n));
    }
  }

  lemma SeptetUp(septet: nat, p: nat)
    ensures septet * (128 * p) == 128 * (septet * p)
  {}

  lemma SeptetsFew(b: byte)
    ensures Septets([]) == 0 && Septets([b]) == b % 128
  {
    assert [b][..0] == [];
  }

  lemma SeptetsSnoc(bytes: seq<byte>, b: byte)
    ensures Septets(bytes + [b]) == Septets(bytes) + b % 128 * Pow(128, |bytes|)
  {
    assert (bytes + [b])[..|bytes|] == bytes;
  }

  /** A reading, index bytes into a varint, has taken the rest of one. */
  lemma {:induction false} VarintShape(input: seq<byte>, at: nat, index: nat)
    requires at <= |input| && VarintAt(input, at, index).Some?
    ensures var r := VarintAt(input, at, index).value;
            var bytes := input[at..r.next];
            && Continued(bytes) && index + |bytes| <= 10 && (index + |bytes| == 10 ==> bytes[|bytes| - 1] <= 1)
            && r.value == Septets(bytes)
    decreases |input| - at
  {
    hide Septets;
    var r := VarintAt(input, at, index).value;
    var bytes := input[at..r.next];
    SeptetsFew(input[at]);
    if input[at] >= 128 {
      VarintShape(input, at + 1, index + 1);
      var rest := input[at + 1..r.next];
      assert bytes == [input[at]] + rest;
      SeptetsCons(input[at], rest);
    } else {
      assert bytes == [input[at]];
    }
  }

  /** Bytes that are the rest of a varint are read as it. */
  lemma {:induction false} ShapeReads(input: seq<byte>, at: nat, index: nat, end: nat)
    requires at < end <= |input| && Continued(input[at..end])
    requires index + end - at <= 10 && (index + end - at == 10 ==> input[end - 1] <= 1)
    ensures VarintAt(input, at, index) == Some(Read(Septets(input[at..end]), end))
    decreases end - at
  {
    hide Septets, Continued;
    SeptetsFew(input[at]);
    ContinuedRest(input, at, end);
    if end - at > 1 {
      var rest := input[at + 1..end];
      ShapeReads(input, at + 1, index + 1, end);
      assert input[at..end] == [input[at]] + rest;
      SeptetsCons(input[at], rest);
    } else {
      assert input[at..end] == [input[at]];
    }
  }

  lemma ContinuedRest(input: seq<byte>, at: nat, end: nat)
    requires at < end <= |input| && Continued(input[at..end])
    ensures if end - at > 1 then input[at] >= 128 && Continued(input[at + 1..end]) else input[at] < 128
  {
    assert input[at] == input[at..end][0];
    var rest := input[at + 1..end];
    assert forall k :: 0 <= k < |rest| ==> rest[k] == input[at..end][k + 1];
  }

  /** Reading accepts exactly the varints, and gives the number they denote. */
  lemma VarintExact(input: seq<byte>, at: nat, value: nat, next: nat)
    requires at <= |input|
    ensures VarintAt(input, at, 0) == Some(Read(value, next)) <==>
            at < next <= |input| && IsVarint(input[at..next], value)
  {
    hide VarintAt, Septets;
    if VarintAt(input, at, 0).Some? {
      VarintShape(input, at, 0);
    }
    if at < next <= |input| && IsVarint(input[at..next], value) {
      ShapeReads(input, at, 0, next);
    }
  }

  /** What is written denotes the value, in as few bytes as possible. */
  lemma VarintDenotes(value: nat)
    requires value < WORD
    ensures IsVarint(Varint(value), value)
    ensures forall bytes :: IsVarint(bytes, value) ==> |Varint(value)| <= |bytes|
  {
    hide VarintAt, Septets, Varint, Limit;
    LimitEnds();
    var written := Varint(value);
    assert written[0..|written|] == written;
    VarintRoundTrip(written, 0, 0, value);
    VarintExact(written, 0, value, |written|);
    forall bytes | IsVarint(bytes, value)
      ensures |written| <= |bytes|
    {
      VarintShortest(bytes);
    }
  }

  /** No run of septets is shorter than the varint of its number. */
  lemma {:induction false} VarintShortest(bytes: seq<byte>)
    requires bytes != []
    ensures |Varint(Septets(bytes))| <= |bytes|
    decreases |bytes|
  {
    hide Septets;
    SeptetsFew(bytes[0]);
    if |bytes| > 1 {
      assert bytes == [bytes[0]] + bytes[1..];
      SeptetsCons(bytes[0], bytes[1..]);
      VarintShortest(bytes[1..]);
    } else {
      assert bytes == [bytes[0]];
    }
  }

  /** Reads one bounded varint with a local cursor. */
  method ReadVarint(input: seq<byte>, cursor: nat) returns (ok: bool, next: nat, value: nat)
    requires cursor <= |input|
    ensures ok == VarintAt(input, cursor, 0).Some?
    ensures ok ==> Read(value, next) == VarintAt(input, cursor, 0).value
    ensures cursor <= next <= |input|
  {
    hide Pow, Or, VarintAt;
    value, next := 0, cursor;
    PowZero();
    CompletedNothing(VarintAt(input, cursor, 0));
    hide Completed;
    for index := 0 to MAXIMUM_VARINT_SIZE
      invariant cursor <= next <= |input| && value < Pow(128, index)
      invariant VarintAt(input, cursor, 0) == Completed(value, index, VarintAt(input, next, index))
    {
      VarintStep(input, next, index, value);
      if next == |input| {
        return false, next, value;
      }
      var b := input[next];
      if index == MAXIMUM_VARINT_SIZE - 1 && b > 1 {
        return false, next, value;
      }
      SmallPowers();
      OrDigit(value, b % 128, 128, 7, index);
      DigitStep(value, b % 128, 128, Pow(128, index));
      PowStep(128, index);
      value := Or(value, b % 128 * Pow(128, index));
      next := next + 1;
      if b < 128 {
        return true, next, value;
      }
    }
    VarintTooLong(input, next, value);
    return false, next, value;
  }

  lemma PowZero()
    ensures Pow(128, 0) == 1
  {}

  lemma CompletedNothing(rest: Option<Read>)
    ensures Completed(0, 0, rest) == rest
  {}

  lemma VarintTooLong(input: seq<byte>, next: nat, value: nat)
    requires next <= |input|
    ensures Completed(value, MAXIMUM_VARINT_SIZE, VarintAt(input, next, MAXIMUM_VARINT_SIZE)) == None
  {}

  /** One byte of a varint: how the reading so far is completed. */
  lemma VarintStep(input: seq<byte>, next: nat, index: nat, value: nat)
    requires next <= |input| && index < MAXIMUM_VARINT_SIZE
    ensures var whole := Completed(value, index, VarintAt(input, next, index));
            if next == |input| || (index == MAXIMUM_VARINT_SIZE - 1 && input[next] > 1) then whole == None
            else if input[next] < 128 then whole == Some(Read(value + input[next] * Pow(128, index), next + 1))
            else whole == Completed(value + (input[next] - 128) * Pow(128, index), index + 1, VarintAt(input, next + 1, index + 1))
  {
    if next < |input| && input[next] >= 128 && VarintAt(input, next + 1, index + 1).Some? {
      CompletedStep(value, index, input[next], VarintAt(input, next + 1, index + 1).value);
    }
  }

  /** Measures one varint. */
  method VarintSize(value: nat) returns (size: nat)
    ensures size == |Varint(value)|
  {
    size := 1;
    var rest := value;
    while rest > 127
      invariant size + |Varint(rest)| == |Varint(value)| + 1
    {
      rest := rest / 128;
      size := size + 1;
    }
  }

  /** Stores a varint where it is known to fit. */
  method WriteRawVarint(value: nat, output: array<byte>, at: nat) returns (written: nat)
    requires at + |Varint(value)| <= output.Length
    modifies output
    ensures written == |Varint(value)|
    ensures output[..at] == old(output[..at])
    ensures output[at..at + written] == Varint(value)
    ensures output[at + written..] == old(output[at + written..])
  {
    hide Varint, Or, Stored;
    written := 0;
    var rest := value;
    ghost var all, before := Varint(value), output[..];
    StoredNothing(before, at);
    while rest > 127
      invariant written + |Varint(rest)| == |all| && all[written..] == Varint(rest)
      invariant output[..] == Stored(before, at, all[..written])
    {
      ContinuationByte(rest);
      VarintHead(rest);
      Peel(all, written, rest % 128 + 128, Varint(rest / 128));
      StoreNext(before, at, all[..written], rest % 128 + 128);
      output[at + written] := Or(rest % 128, 128);
      written := written + 1;
      rest := rest / 128;
    }
    VarintHead(rest);
    Peel(all, written, rest, []);
    StoreNext(before, at, all[..written], rest);
    output[at + written] := rest;
    written := written + 1;
    assert all[..written] == all;
    StoredParts(before, at, all);
  }

  /** A string with some bytes stored over it from one position on. */
  ghost function Stored(before: seq<byte>, at: nat, bytes: seq<byte>): (after: seq<byte>)
    requires at + |bytes| <= |before|
    ensures |after| == |before|
  {
    before[..at] + bytes + before[at + |bytes|..]
  }

  lemma StoredNothing(before: seq<byte>, at: nat)
    requires at <= |before|
    ensures Stored(before, at, []) == before
  {}

  lemma StoreNext(before: seq<byte>, at: nat, bytes: seq<byte>, b: byte)
    requires at + |bytes| < |before|
    ensures Stored(before, at, bytes)[at + |bytes| := b] == Stored(before, at, bytes + [b])
  {}

  lemma StoredParts(before: seq<byte>, at: nat, bytes: seq<byte>)
    requires at + |bytes| <= |before|
    ensures var after := Stored(before, at, bytes);
            && after[..at] == before[..at] && after[at..at + |bytes|] == bytes
            && after[at + |bytes|..] == before[at + |bytes|..]
  {}

  lemma VarintHead(value: nat)
    ensures Varint(value) == if value > 127 then [value % 128 + 128] + Varint(value / 128) else [value]
    ensures value <= 127 ==> [value] == [value] + []
  {}

  lemma Peel(all: seq<byte>, at: nat, b: byte, tail: seq<byte>)
    requires at <= |all| && all[at..] == [b] + tail
    ensures at < |all| && all[at] == b && all[at + 1..] == tail && all[..at + 1] == all[..at] + [b]
  {
    assert all[at] == all[at..][0] && all[at + 1..] == all[at..][1..];
  }

  lemma ContinuationByte(rest: nat)
    ensures Or(rest % 128, 128) == rest % 128 + 128
  {
    SmallPowers();
    OrDisjoint(1, rest % 128, 7);
    OrSym(rest % 128, 128);
  }

  // ---- keys --------------------------------------------------------------------------------

  predicate ValidFieldNumber(n: nat) {
    n != 0 && n <= MAXIMUM_FIELD_NUMBER
  }

  datatype Key = Key(fieldNumber: nat, wireType: WireType)

  function EncodeKey(fieldNumber: nat, wireType: WireType): Option<nat> {
    if ValidFieldNumber(fieldNumber) then Some(Or(fieldNumber * 8, Code(wireType))) else None
  }

  function DecodeKey(encoded: nat): Option<Key> {
    if !ValidFieldNumber(encoded / 8) then None
    else if encoded % 8 == 0 then Some(Key(encoded / 8, VarintWire))
    else if encoded % 8 == 1 then Some(Key(encoded / 8, Fixed64Wire))
    else if encoded % 8 == 2 then Some(Key(encoded / 8, BytesWire))
    else if encoded % 8 == 5 then Some(Key(encoded / 8, Fixed32Wire))
    else None
  }

  lemma KeyValue(fieldNumber: nat, wireType: WireType)
    ensures Or(fieldNumber * 8, Code(wireType)) == fieldNumber * 8 + Code(wireType)
  {
    SmallPowers();
    OrDisjoint(fieldNumber, Code(wireType), 3);
  }

  /** A key encodes exactly the valid field numbers, and decodes to what was encoded. */
  lemma KeyRoundTrip(fieldNumber: nat, wireType: WireType)
    ensures EncodeKey(fieldNumber, wireType).Some? <==> ValidFieldNumber(fieldNumber)
    ensures ValidFieldNumber(fieldNumber) ==>
              && EncodeKey(fieldNumber, wireType).value < WORD
              && DecodeKey(EncodeKey(fieldNumber, wireType).value) == Some(Key(fieldNumber, wireType))
  {
    KeyValue(fieldNumber, wireType);
    hide Or;
    KeyParts(fieldNumber, Code(wireType));
  }

  lemma KeyParts(fieldNumber: nat, code: nat)
    requires code < 8
    ensures (fieldNumber * 8 + code) / 8 == fieldNumber && (fieldNumber * 8 + code) % 8 == code
  {}

  /** Every key that is decoded is the encoding of its parts. */
  lemma KeyInverse(encoded: nat)
    requires DecodeKey(encoded).Some?
    ensures EncodeKey(DecodeKey(encoded).value.fieldNumber, DecodeKey(encoded).value.wireType) == Some(encoded)
  {
    KeyValue(DecodeKey(encoded).value.fieldNumber, DecodeKey(encoded).value.wireType);
  }

  // ---- fixed-width values ------------------------------------------------------------------

  /** Decodes a fixed-width value from bytes already proven to fit. */
  method ReadFixed(bytes: seq<byte>) returns (value: nat)
    ensures value == LittleEndian(bytes)
  {
    hide LittleEndian, Or, Pow;
    value := 0;
    LittleEndianNone();
    for index := 0 to |bytes|
      invariant value == LittleEndian(bytes[..index])
    {
      assert bytes[..index + 1] == bytes[..index] + [bytes[index]];
      LittleEndianSnoc(bytes[..index], bytes[index]);
      LittleEndianBound(bytes[..index]);
      SmallPowers();
      OrDigit(value, bytes[index], 256, 8, index);
      value := Or(value, bytes[index] * Pow(256, index));
    }
    assert bytes[..|bytes|] == bytes;
  }

}
