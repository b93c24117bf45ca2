/** The protobuf writer, reader and field measurement, and the second, byte-at-a-time writer. */
module Protobuf {
  import opened Bytes
  import opened ProtobufWire
  import opened Wrappers

  /** One decoded field: numeric wire types use value, length-delimited fields use bytes. */
  datatype Field = Field(fieldNumber: nat, wireType: WireType, value: nat, bytes: seq<byte>)

  /** One call on a writer. */
  datatype Call =
    | VarintCall(fieldNumber: nat, value: nat)
    | BytesCall(fieldNumber: nat, payload: seq<byte>)

  /** A call the wire format can carry: a valid field number and 64-bit quantities. */
  predicate Carried(c: Call) {
    && ValidFieldNumber(c.fieldNumber)
    && match c
       case VarintCall(_, value) => value < WORD
       case BytesCall(_, payload) => |payload| < WORD
  }

  /** The bytes of one field, whatever its number. */
  function Encoding(c: Call): (bytes: seq<byte>)
    ensures bytes != []
  {
    match c
    case VarintCall(n, value) => Varint(n * 8 + Code(VarintWire)) + Varint(value)
    case BytesCall(n, payload) => Varint(n * 8 + Code(BytesWire)) + Varint(|payload|) + payload
  }

  /** The field one call should be read back as. */
  function Decoded(c: Call): Field {
    match c
    case VarintCall(n, value) => Field(n, VarintWire, value, [])
    case BytesCall(n, payload) => Field(n, BytesWire, 0, payload)
  }

  // ---- measuring ---------------------------------------------------------------------------

  /** Measures one varint field; the size is that of the bytes a writer would append. */
  method MeasureVarintField(fieldNumber: nat, value: nat) returns (ok: bool, size: nat)
    ensures ok == ValidFieldNumber(fieldNumber)
    ensures ok ==> size == |Encoding(VarintCall(fieldNumber, value))|
  {
    hide Varint;
    size := 0;
    var key := EncodeKey(fieldNumber, VarintWire);
    if key.None? {
      return false, size;
    }
    KeyValue(fieldNumber, VarintWire);
    var keySize := VarintSize(key.value);
    var valueSize := VarintSize(value);
    return true, keySize + valueSize;
  }

  /** Measures one length-delimited field, refusing a total that 64 bits cannot hold. */
  method MeasureBytesField(fieldNumber: nat, ghost payload: seq<byte>, payloadSize: nat) returns (ok: bool, size: nat)
    requires payloadSize == |payload|
    ensures ok == (ValidFieldNumber(fieldNumber) && |Encoding(BytesCall(fieldNumber, payload))| <= SIZE_MAX)
    ensures ok ==> size == |Encoding(BytesCall(fieldNumber, payload))|
  {
    hide Varint;
    size := 0;
    var key := EncodeKey(fieldNumber, BytesWire);
    if key.None? {
      return false, size;
    }
    KeyValue(fieldNumber, BytesWire);
    var keySize := VarintSize(key.value);
    var lengthSize := VarintSize(payloadSize);
    var prefixSize := keySize + lengthSize;
    if payloadSize > SIZE_MAX - prefixSize {
      return false, size;
    }
    return true, prefixSize + payloadSize;
  }

  // ---- the writer --------------------------------------------------------------------------

  class Writer {
    const output: array<byte>
    var size: nat

    ghost predicate Valid()
      reads this
    {
      size <= output.Length
    }

    constructor (storage: array<byte>)
      ensures Valid() && output == storage && size == 0
    {
      output, size := storage, 0;
    }

    /** Appends one varint field, or changes nothing. */
    method WriteVarint(fieldNumber: nat, value: nat) returns (ok: bool)
      requires Valid()
      modifies this, output
      ensures Valid()
      ensures var bytes := Encoding(VarintCall(fieldNumber, value));
              && ok == (ValidFieldNumber(fieldNumber) && |bytes| <= output.Length - old(size))
              && size == old(size) + (if ok then |bytes| else 0)
              && output[..] == if ok then old(output[..size]) + bytes + old(output[size + |bytes|..]) else old(output[..])
    {
      hide Varint;
      var key := EncodeKey(fieldNumber, VarintWire);
      if key.None? {
        return false;
      }
      KeyValue(fieldNumber, VarintWire);
      var keySize := VarintSize(key.value);
      var valueSize := VarintSize(value);
      if keySize + valueSize > output.Length - size {
        return false;
      }
      size := WritePair(key.value, value, size);
      return true;
    }

    /**
     * Appends a payload as one length-delimited field, or changes nothing. The payload may lie in
     * the output itself: it is moved before the prefix is written, so its old bytes survive.
     */
    method WriteBytes(fieldNumber: nat, source: array<byte>, from: nat, count: nat) returns (ok: bool)
      requires Valid() && from + count <= source.Length
      modifies this, output
      ensures Valid()
      ensures var bytes := Encoding(BytesCall(fieldNumber, old(source[from..from + count])));
              && ok == (ValidFieldNumber(fieldNumber) && |bytes| <= output.Length - old(size))
              && size == old(size) + (if ok then |bytes| else 0)
              && output[..] == if ok then old(output[..size]) + bytes + old(output[size + |bytes|..]) else old(output[..])
    {
      BytesEncoding(fieldNumber, source[from..from + count]);
      hide Varint, Or, Encoding;
      var key := EncodeKey(fieldNumber, BytesWire);
      if key.None? {
        return false;
      }
      KeyValue(fieldNumber, BytesWire);
      var keySize := VarintSize(key.value);
      var lengthSize := VarintSize(count);
      var prefixSize, available := keySize + lengthSize, output.Length - size;
      if prefixSize > available || count > available - prefixSize {
        return false;
      }
      Place(key.value, source, from, count, prefixSize, source[from..from + count], output[..]);
      size := size + prefixSize + count;
      return true;
    }

    /** Moves a payload past its prefix, then writes the prefix. */
    method Place(key: nat, source: array<byte>, from: nat, count: nat, prefixSize: nat,
                 ghost payload: seq<byte>, ghost before: seq<byte>)
      requires Valid() && from + count <= source.Length && prefixSize == |Varint(key)| + |Varint(count)|
      requires size + prefixSize + count <= output.Length
      requires payload == source[from..from + count] && before == output[..]
      modifies output
      ensures output[..] == before[..size] + ((Varint(key) + Varint(count)) + payload) + before[size + prefixSize + count..]
    {
      hide Varint;
      var middle := size + prefixSize;
      Move(source, from, count, middle);
      ghost var moved := output[..];
      var written := WritePair(key, count, size);
      assert written == middle;
      Prefixed(before, moved, output[..], size, middle, middle + count, Varint(key) + Varint(count), payload);
    }

    /** Writes two varints, one after the other, where both fit. */
    method WritePair(a: nat, b: nat, at: nat) returns (end: nat)
      requires at + |Varint(a)| + |Varint(b)| <= output.Length
      modifies output
      ensures end == at + |Varint(a)| + |Varint(b)|
      ensures output[..] == old(output[..at]) + (Varint(a) + Varint(b)) + old(output[end..])
    {
      hide Varint;
      var written := WriteRawVarint(a, output, at);
      ghost var middle := output[..];
      end := at + written;
      written := WriteRawVarint(b, output, end);
      Appended(old(output[..]), middle, output[..], at, Varint(a), Varint(b));
      end := end + written;
    }

    /** Moves bytes into the output as if through a temporary copy. */
    method Move(source: array<byte>, from: nat, count: nat, to: nat)
      requires from + count <= source.Length && to + count <= output.Length
      modifies output
      ensures output[..] == old(output[..to]) + old(source[from..from + count]) + old(output[to + count..])
    {
      ghost var payload := source[from..from + count];
      forall k | 0 <= k < count {
        output[to + k] := source[from + k];
      }
      assert forall k :: 0 <= k < count ==> output[to + k] == payload[k];
    }
  }

  lemma BytesEncoding(n: nat, payload: seq<byte>)
    ensures Encoding(BytesCall(n, payload)) == (Varint(n * 8 + Code(BytesWire)) + Varint(|payload|)) + payload
  {}

  /** Two varints written one after the other stand together. */
  lemma Appended(before: seq<byte>, middle: seq<byte>, after: seq<byte>, at: nat, a: seq<byte>, b: seq<byte>)
    requires at + |a| + |b| <= |before| == |middle| == |after|
    requires middle[..at] == before[..at] && middle[at..at + |a|] == a && middle[at + |a|..] == before[at + |a|..]
    requires after[..at + |a|] == middle[..at + |a|] && after[at + |a|..at + |a| + |b|] == b
    requires after[at + |a| + |b|..] == middle[at + |a| + |b|..]
    ensures after == before[..at] + (a + b) + before[at + |a| + |b|..]
  {
    assert after[..at] == middle[..at + |a|][..at];
    assert after[at..at + |a|] == middle[..at + |a|][at..];
    assert middle[at + |a| + |b|..] == middle[at + |a|..][|b|..];
    assert before[at + |a| + |b|..] == before[at + |a|..][|b|..];
    assert after == after[..at] + after[at..at + |a|] + after[at + |a|..at + |a| + |b|] + after[at + |a| + |b|..];
  }

  /** A prefix written over a moved payload's front leaves the payload whole. */
  lemma Prefixed(before: seq<byte>, moved: seq<byte>, after: seq<byte>, at: nat, middle: nat, end: nat,
                 prefix: seq<byte>, payload: seq<byte>)
    requires at <= middle <= end <= |before| && middle - at == |prefix| && end - middle == |payload|
    requires moved == before[..middle] + payload + before[end..] && |moved| == |before|
    requires after == moved[..at] + prefix + moved[middle..]
    ensures after == before[..at] + (prefix + payload) + before[end..]
  {
    var head, tail := before[..middle], before[end..];
    Halves(head, payload + tail);
    assert moved == head + (payload + tail);
    assert moved[..at] == moved[..|head|][..at] == before[..at];
    Regroup(before[..at], prefix, payload, tail);
  }

  lemma Halves(a: seq<byte>, b: seq<byte>)
    ensures (a + b)[..|a|] == a && (a + b)[|a|..] == b
  {}

  lemma Regroup(a: seq<byte>, b: seq<byte>, c: seq<byte>, d: seq<byte>)
    ensures a + b + (c + d) == a + (b + c) + d
  {}

  // ---- the reader --------------------------------------------------------------------------

  /** A decoded field and where the next one starts. */
  datatype Parsed = Parsed(field: Field, next: nat)

  function FixedAt(input: seq<byte>, at: nat, width: nat, key: Key): Option<Parsed>
    requires at <= |input|
  {
    if width > |input| - at then None
    else Some(Parsed(Field(key.fieldNumber, key.wireType, LittleEndian(input[at..at + width]), []), at + width))
  }

  /** What follows one field's key. */
  function BodyAt(input: seq<byte>, at: nat, key: Key): (r: Option<Parsed>)
    requires at <= |input|
    ensures r.Some? ==> at <= r.value.next <= |input|
  {
    match key.wireType
    case VarintWire =>
      var v := VarintAt(input, at, 0);
      if v.None? then None else Some(Parsed(Field(key.fieldNumber, VarintWire, v.value.value, []), v.value.next))
    case Fixed64Wire => FixedAt(input, at, 8, key)
    case BytesWire =>
      var length := VarintAt(input, at, 0);
      if length.None? || length.value.value > |input| - length.value.next then None
      else
        var end := length.value.next + length.value.value;
        Some(Parsed(Field(key.fieldNumber, BytesWire, 0, input[length.value.next..end]), end))
    case Fixed32Wire => FixedAt(input, at, 4, key)
  }

  /** The field that starts at one position, if a whole supported one does. */
  function FieldAt(input: seq<byte>, at: nat): (r: Option<Parsed>)
    requires at <= |input|
    ensures r.Some? ==> at < r.value.next <= |input|
  {
    var key := VarintAt(input, at, 0);
    if key.None? || DecodeKey(key.value.value).None? then None
    else BodyAt(input, key.value.next, DecodeKey(key.value.value).value)
  }

  /** A length that was read fits a 64-bit size. */
  lemma LengthFits(input: seq<byte>, at: nat)
    requires at <= |input|
    ensures VarintAt(input, at, 0).Some? ==> VarintAt(input, at, 0).value.value <= SIZE_MAX
  {
    LimitEnds();
    if VarintAt(input, at, 0).Some? {
      VarintBound(input, at, 0);
    }
  }

  class Reader {
    const input: seq<byte>
    var cursor: nat

    ghost predicate Valid()
      reads this
    {
      cursor <= |input|
    }

    constructor (message: seq<byte>)
      ensures Valid() && input == message && cursor == 0
    {
      input, cursor := message, 0;
    }

    /** Decodes the next complete field, committing only after validation. */
    method Next() returns (ok: bool, field: Option<Field>)
      requires Valid()
      modifies this
      ensures Valid() && ok == FieldAt(input, old(cursor)).Some? && ok == field.Some?
      ensures ok ==> Parsed(field.value, cursor) == FieldAt(input, old(cursor)).value
      ensures !ok ==> cursor == old(cursor)
    {
      hide VarintAt, LittleEndian;
      var read, at, encodedKey := ReadVarint(input, cursor);
      if !read || DecodeKey(encodedKey).None? {
        return false, None;
      }
      var key := DecodeKey(encodedKey).value;
      var value: nat, bytes: seq<byte> := 0, [];
      match key.wireType {
        case VarintWire =>
          read, at, value := ReadVarint(input, at);
          if !read {
            return false, None;
          }
        case Fixed64Wire =>
          if 8 > |input| - at {
            return false, None;
          }
          value := ReadFixed(input[at..at + 8]);
          at := at + 8;
        case BytesWire =>
          LengthFits(input, at);
          var length;
          read, at, length := ReadVarint(input, at);
          if !read || length > SIZE_MAX {
            return false, None;
          }
          if length > |input| - at {
            return false, None;
          }
          bytes := input[at..at + length];
          at := at + length;
        case Fixed32Wire =>
          if 4 > |input| - at {
            return false, None;
          }
          value := ReadFixed(input[at..at + 4]);
          at := at + 4;
      }
      cursor := at;
      return true, Some(Field(key.fieldNumber, key.wireType, value, bytes));
    }

    /** Bytes after the last decoded field. */
    method Remaining() returns (n: nat)
      requires Valid()
      ensures n == |input| - cursor
    {
      return |input| - cursor;
    }
  }

  // ---- round trips -------------------------------------------------------------------------

  /** A slice that is two strings joined is each of them in turn. */
  lemma Split(input: seq<byte>, at: nat, a: seq<byte>, b: seq<byte>)
    requires at + |a + b| <= |input| && input[at..at + |a + b|] == a + b
    ensures input[at..at + |a|] == a && input[at + |a|..at + |a| + |b|] == b
  {
    assert input[at..at + |a|] == input[at..at + |a + b|][..|a|];
    assert input[at + |a|..at + |a| + |b|] == input[at..at + |a + b|][|a|..];
  }

  /** A field that was written is read back whole, with the cursor at its end. */
  lemma FieldRoundTrip(input: seq<byte>, at: nat, c: Call)
    requires Carried(c) && at + |Encoding(c)| <= |input| && input[at..at + |Encoding(c)|] == Encoding(c)
    ensures FieldAt(input, at) == Some(Parsed(Decoded(c), at + |Encoding(c)|))
  {
    hide Varint, VarintAt, Limit, Or;
    LimitEnds();
    match c
    case VarintCall(n, value) =>
      var key := n * 8 + Code(VarintWire);
      Split(input, at, Varint(key), Varint(value));
      KeyValue(n, VarintWire);
      KeyRoundTrip(n, VarintWire);
      VarintRoundTrip(input, at, 0, key);
      VarintRoundTrip(input, at + |Varint(key)|, 0, value);
    case BytesCall(n, payload) =>
      var key := n * 8 + Code(BytesWire);
      assert Encoding(c) == Varint(key) + (Varint(|payload|) + payload);
      Split(input, at, Varint(key), Varint(|payload|) + payload);
      Split(input, at + |Varint(key)|, Varint(|payload|), payload);
      KeyValue(n, BytesWire);
      KeyRoundTrip(n, BytesWire);
      VarintRoundTrip(input, at, 0, key);
      VarintRoundTrip(input, at + |Varint(key)|, 0, |payload|);
  }

  // ---- what field bytes mean ---------------------------------------------------------------

  /** What may follow a key of one wire-type code, for one field. */
  ghost predicate RendersBody(body: seq<byte>, code: nat, f: Field) {
    if code == 0 then f.wireType == VarintWire && f.bytes == [] && IsVarint(body, f.value)
    else if code == 1 then f.wireType == Fixed64Wire && f.bytes == [] && |body| == 8 && f.value == LittleEndian(body)
    else if code == 2 then
      && f.wireType == BytesWire && f.value == 0
      && exists k :: 0 < k <= |body| && IsVarint(body[..k], |f.bytes|) && body[k..] == f.bytes
    else code == 5 && f.wireType == Fixed32Wire && f.bytes == [] && |body| == 4 && f.value == LittleEndian(body)
  }

  /** One field: a varint of its number and wire-type code, then its body. */
  ghost predicate Renders(bytes: seq<byte>, f: Field) {
    && 1 <= f.fieldNumber <= 0x1FFF_FFFF
    && exists k, code :: 0 < k <= |bytes| && 0 <= code < 8 && IsVarint(bytes[..k], f.fieldNumber * 8 + code)
                         && RendersBody(bytes[k..], code, f)
  }

  /** Reading a body accepts exactly what may follow the key. */
  lemma BodyExact(input: seq<byte>, at: nat, number: nat, code: nat, f: Field, next: nat)
    requires at <= |input| && code < 8 && ValidFieldNumber(number)
    ensures DecodeKey(number * 8 + code).Some? &&
            BodyAt(input, at, DecodeKey(number * 8 + code).value) == Some(Parsed(f, next)) <==>
            at <= next <= |input| && f.fieldNumber == number && RendersBody(input[at..next], code, f)
  {
    hide VarintAt, IsVarint, LittleEndian, BodyAt, RendersBody;
    KeyParts(number, code);
    match code
    case 0 =>
      assert DecodeKey(number * 8 + code) == Some(Key(number, VarintWire));
      ValueExact(input, at, number, f, next);
    case 1 =>
      assert DecodeKey(number * 8 + code) == Some(Key(number, Fixed64Wire));
      FixedExact(input, at, number, 1, f, next);
    case 2 =>
      assert DecodeKey(number * 8 + code) == Some(Key(number, BytesWire));
      LengthExact(input, at, number, f, next);
    case 5 =>
      assert DecodeKey(number * 8 + code) == Some(Key(number, Fixed32Wire));
      FixedExact(input, at, number, 5, f, next);
    case _ =>
      assert DecodeKey(number * 8 + code).None?;
      NoOtherCode(if at <= next <= |input| then input[at..next] else [], code, f);
  }

  lemma NoOtherCode(body: seq<byte>, code: nat, f: Field)
    requires code !in {0, 1, 2, 5}
    ensures !RendersBody(body, code, f)
  {}

  lemma ValueExact(input: seq<byte>, at: nat, number: nat, f: Field, next: nat)
    requires at <= |input|
    ensures BodyAt(input, at, Key(number, VarintWire)) == Some(Parsed(f, next)) <==>
            at <= next <= |input| && f.fieldNumber == number && RendersBody(input[at..next], 0, f)
  {
    hide VarintAt, Septets;
    VarintExact(input, at, f.value, next);
  }

  lemma FixedExact(input: seq<byte>, at: nat, number: nat, code: nat, f: Field, next: nat)
    requires at <= |input| && (code == 1 || code == 5)
    ensures BodyAt(input, at, Key(number, if code == 1 then Fixed64Wire else Fixed32Wire)) == Some(Parsed(f, next)) <==>
            at <= next <= |input| && f.fieldNumber == number && RendersBody(input[at..next], code, f)
  {
    hide VarintAt, IsVarint, LittleEndian;
  }

  lemma LengthExact(input: seq<byte>, at: nat, number: nat, f: Field, next: nat)
    requires at <= |input|
    ensures BodyAt(input, at, Key(number, BytesWire)) == Some(Parsed(f, next)) <==>
            at <= next <= |input| && f.fieldNumber == number && RendersBody(input[at..next], 2, f)
  {
    hide VarintAt, IsVarint, LittleEndian;
    var length := VarintAt(input, at, 0);
    if length.Some? {
      var m := length.value.next;
      VarintExact(input, at, length.value.value, m);
      if m <= next <= |input| {
        assert input[at..next][..m - at] == input[at..m] && input[at..next][m - at..] == input[m..next];
      }
    }
    if at <= next <= |input| && RendersBody(input[at..next], 2, f) {
      var body := input[at..next];
      var k :| 0 < k <= |body| && IsVarint(body[..k], |f.bytes|) && body[k..] == f.bytes;
      assert body[..k] == input[at..at + k] && body[k..] == input[at + k..next];
      VarintExact(input, at, |f.bytes|, at + k);
    }
  }

  /** The reader accepts exactly the fields of the wire format, and reads each as what it renders. */
  lemma FieldExact(input: seq<byte>, at: nat, f: Field, next: nat)
    requires at <= |input|
    ensures FieldAt(input, at) == Some(Parsed(f, next)) <==> at < next <= |input| && Renders(input[at..next], f)
  {
    hide VarintAt, IsVarint, BodyAt, RendersBody;
    var key := VarintAt(input, at, 0);
    if key.Some? && ValidFieldNumber(key.value.value / 8) {
      var m, number, code := key.value.next, key.value.value / 8, key.value.value % 8;
      VarintExact(input, at, key.value.value, m);
      BodyExact(input, m, number, code, f, next);
      if m <= next <= |input| {
        assert input[at..next][..m - at] == input[at..m] && input[at..next][m - at..] == input[m..next];
      }
    }
    if at < next <= |input| && Renders(input[at..next], f) {
      RendersReads(input, at, f, next);
    }
  }

  lemma RendersReads(input: seq<byte>, at: nat, f: Field, next: nat)
    requires at < next <= |input| && Renders(input[at..next], f)
    ensures FieldAt(input, at) == Some(Parsed(f, next))
  {
    hide VarintAt, IsVarint, BodyAt, RendersBody;
    var bytes := input[at..next];
    var k, code :| 0 < k <= |bytes| && 0 <= code < 8 && IsVarint(bytes[..k], f.fieldNumber * 8 + code)
                   && RendersBody(bytes[k..], code, f);
    assert bytes[..k] == input[at..at + k] && bytes[k..] == input[at + k..next];
    VarintExact(input, at, f.fieldNumber * 8 + code, at + k);
    BodyExact(input, at + k, f.fieldNumber, code, f, next);
  }

  /** Fixed-width fields are read back: eight bytes after code 1 and four after code 5, low byte first. */
  lemma FixedRoundTrip(input: seq<byte>, at: nat, number: nat, body: seq<byte>)
    requires ValidFieldNumber(number) && (|body| == 8 || |body| == 4)
    requires var bytes := Varint(8 * number + if |body| == 8 then 1 else 5) + body;
             at + |bytes| <= |input| && input[at..at + |bytes|] == bytes
    ensures FieldAt(input, at) ==
            Some(Parsed(Field(number, if |body| == 8 then Fixed64Wire else Fixed32Wire, LittleEndian(body), []),
                        at + |Varint(8 * number + if |body| == 8 then 1 else 5)| + |body|))
  {
    hide VarintAt, IsVarint, Varint, LittleEndian, BodyAt;
    var code := if |body| == 8 then 1 else 5;
    var key := 8 * number + code;
    var bytes, k := Varint(key) + body, |Varint(key)|;
    var f := Field(number, if |body| == 8 then Fixed64Wire else Fixed32Wire, LittleEndian(body), []);
    VarintDenotes(key);
    assert bytes[..k] == Varint(key) && bytes[k..] == body;
    assert RendersBody(bytes[k..], code, f) && IsVarint(bytes[..k], f.fieldNumber * 8 + code);
    RendersReads(input, at, f, at + |bytes|);
  }

  /** The bytes of a run of calls. */
  function Message(calls: seq<Call>): seq<byte> {
    if calls == [] then [] else Message(calls[..|calls| - 1]) + Encoding(calls[|calls| - 1])
  }

  lemma MessageSnoc(calls: seq<Call>, c: Call)
    ensures Message(calls + [c]) == Message(calls) + Encoding(c)
    ensures Message([]) == []
  {
    assert (calls + [c])[..|calls|] == calls;
  }

  lemma {:induction false} MessagePrefix(calls: seq<Call>, n: nat)
    requires n <= |calls|
    ensures |Message(calls[..n])| <= |Message(calls)| && Message(calls)[..|Message(calls[..n])|] == Message(calls[..n])
  {
    hide Message, Encoding;
    if n < |calls| {
      var m := |calls| - 1;
      MessagePrefix(calls[..m], n);
      assert calls[..m][..n] == calls[..n];
      assert calls == calls[..m] + [calls[m]];
      MessageSnoc(calls[..m], calls[m]);
      FrontOfFront(Message(calls[..m]), Encoding(calls[m]), |Message(calls[..n])|);
    } else {
      assert calls[..n] == calls;
    }
  }

  lemma FrontOfFront(a: seq<byte>, b: seq<byte>, n: nat)
    requires n <= |a|
    ensures (a + b)[..n] == a[..n]
  {}

  /** How many calls of a run fit in some room before the first that does not. */
  function Fitting(calls: seq<Call>, room: nat): (n: nat)
    ensures n <= |calls|
  {
    if calls == [] then 0
    else
      var n := Fitting(calls[..|calls| - 1], room);
      if n == |calls| - 1 && |Message(calls)| <= room then |calls| else n
  }

  lemma {:induction false} FittingPrefix(calls: seq<Call>, room: nat)
    ensures var f := Fitting(calls, room);
            && (f < |calls| ==> |Message(calls[..f + 1])| > room)
            && |Message(calls[..f])| <= room
  {
    hide Encoding;
    if calls == [] {
      assert calls[..0] == [];
    } else {
      hide Message;
      var m, f := |calls| - 1, Fitting(calls, room);
      FittingPrefix(calls[..m], room);
      assert f <= m ==> calls[..m][..f] == calls[..f];
      assert f < m ==> calls[..m][..f + 1] == calls[..f + 1];
      assert calls[..|calls|] == calls;
    }
  }

  /** Makes one call on the writer, with the payload in storage of its own. */
  method Write(writer: Writer, c: Call) returns (ok: bool)
    requires writer.Valid()
    modifies writer, writer.output
    ensures writer.Valid()
    ensures ok == (ValidFieldNumber(c.fieldNumber) && |Encoding(c)| <= writer.output.Length - old(writer.size))
    ensures writer.size == old(writer.size) + if ok then |Encoding(c)| else 0
    ensures writer.output[..writer.size] == old(writer.output[..writer.size]) + if ok then Encoding(c) else []
  {
    hide Encoding;
    ghost var before, size := writer.output[..], writer.size;
    match c {
      case VarintCall(n, value) =>
        ok := writer.WriteVarint(n, value);
      case BytesCall(n, payload) =>
        var storage := new byte[|payload|](k requires 0 <= k < |payload| => payload[k]);
        assert storage[0..0 + |payload|] == payload;
        ok := writer.WriteBytes(n, storage, 0, |payload|);
    }
    if ok {
      TakeFront(before[..size], Encoding(c), before[size + |Encoding(c)|..], writer.output[..]);
    }
    assert writer.output[..writer.size] == writer.output[..][..writer.size];
    assert before[..size] == old(writer.output[..writer.size]);
  }

  lemma TakeFront(a: seq<byte>, b: seq<byte>, c: seq<byte>, whole: seq<byte>)
    requires whole == a + b + c
    ensures whole[..|a| + |b|] == a + b
  {}

  /** Makes calls until the first refusal. */
  method WriteRun(writer: Writer, calls: seq<Call>) returns (accepted: nat)
    requires writer.Valid() && writer.size == 0
    requires forall k :: 0 <= k < |calls| ==> ValidFieldNumber(calls[k].fieldNumber)
    modifies writer, writer.output
    ensures writer.Valid() && accepted == Fitting(calls, writer.output.Length)
    ensures writer.output[..writer.size] == Message(calls[..accepted])
  {
    hide Encoding, Message, Fitting;
    ghost var room := writer.output.Length;
    MessageSnoc([], VarintCall(0, 0));
    for index := 0 to |calls|
      invariant writer.Valid() && index <= Fitting(calls, room)
      invariant writer.size == |Message(calls[..index])|
      invariant writer.output[..writer.size] == Message(calls[..index])
    {
      MessageSnoc(calls[..index], calls[index]);
      assert calls[..index + 1] == calls[..index] + [calls[index]];
      FittingNext(calls, room, index);
      var ok := Write(writer, calls[index]);
      if !ok {
        return index;
      }
    }
    return |calls|;
  }

  lemma FittingNext(calls: seq<Call>, room: nat, index: nat)
    requires index < |calls| && index <= Fitting(calls, room)
    ensures |Message(calls[..index + 1])| <= room <==> index + 1 <= Fitting(calls, room)
  {
    var f := Fitting(calls, room);
    FittingPrefix(calls, room);
    hide Fitting, Message;
    if index + 1 <= f {
      MessagePrefix(calls[..f], index + 1);
      assert calls[..f][..index + 1] == calls[..index + 1];
    }
  }

  /** Reads a run of carried fields back: exactly those fields, in order, and nothing after them. */
  method ReadRun(reader: Reader, ghost calls: seq<Call>, count: nat) returns (fields: seq<Field>, ended: bool)
    requires reader.Valid() && reader.cursor == 0 && reader.input == Message(calls) && count == |calls|
    requires forall k :: 0 <= k < |calls| ==> Carried(calls[k])
    modifies reader
    ensures |fields| == count && forall k :: 0 <= k < count ==> fields[k] == Decoded(calls[k])
    ensures ended && reader.cursor == |reader.input|
  {
    hide Encoding, Message, FieldAt;
    MessageSnoc([], VarintCall(0, 0));
    fields := [];
    for index := 0 to count
      invariant reader.Valid() && reader.cursor == |Message(calls[..index])|
      invariant |fields| == index && forall k :: 0 <= k < index ==> fields[k] == Decoded(calls[k])
    {
      NextEncoding(calls, index);
      FieldRoundTrip(reader.input, reader.cursor, calls[index]);
      var ok, field := reader.Next();
      fields := fields + [field.value];
    }
    assert calls[..count] == calls;
    NothingLeft(reader.input);
    var more, none := reader.Next();
    ended := !more;
  }

  lemma NextEncoding(calls: seq<Call>, n: nat)
    requires n < |calls|
    ensures var at := |Message(calls[..n])|;
            && at + |Encoding(calls[n])| == |Message(calls[..n + 1])| <= |Message(calls)|
            && Message(calls)[at..at + |Encoding(calls[n])|] == Encoding(calls[n])
  {
    hide Message, Encoding;
    MessageSnoc(calls[..n], calls[n]);
    assert calls[..n + 1] == calls[..n] + [calls[n]];
    MessagePrefix(calls, n + 1);
    var at, all := |Message(calls[..n])|, Message(calls);
    var front := Message(calls[..n + 1]);
    assert all[at..|front|] == all[..|front|][at..];
  }

  lemma NothingLeft(input: seq<byte>)
    ensures FieldAt(input, |input|) == None
  {}

  /**
   * The reader over any run of accepted writes yields exactly those fields, in order, with nothing
   * remaining.
   */
  method WriteThenRead(calls: seq<Call>, room: nat) returns (accepted: nat, fields: seq<Field>, remaining: nat)
    requires forall k :: 0 <= k < |calls| ==> Carried(calls[k])
    ensures accepted == Fitting(calls, room) && remaining == 0
    ensures |fields| == accepted && forall k :: 0 <= k < accepted ==> fields[k] == Decoded(calls[k])
  {
    hide Message, Fitting;
    var storage := new byte[room];
    var writer := new Writer(storage);
    accepted := WriteRun(writer, calls);
    var reader := new Reader(storage[..writer.size]);
    var ended;
    fields, ended := ReadRun(reader, calls[..accepted], accepted);
    remaining := reader.Remaining();
  }

  // ---- the second writer -------------------------------------------------------------------

  /** Fixed-storage writer that stores one byte at a time. */
  class SignonWriter {
    const output: array<byte>
    var size: nat

    ghost predicate Valid()
      reads this
    {
      size <= output.Length
    }

    /** The bytes stored so far. */
    ghost function Stored(): seq<byte>
      reads this, output
      requires Valid()
    {
      output[..size]
    }

    constructor (storage: array<byte>)
      ensures Valid() && output == storage && size == 0
    {
      output, size := storage, 0;
    }

    /** Appends one varint; one that does not fit fills the storage and fails. */
    method RawVarint(value: nat) returns (ok: bool)
      requires Valid()
      modifies this, output
      ensures Valid() && ok == (old(size) + |Varint(value)| <= output.Length)
      ensures Stored() == old(Stored()) + if ok then Varint(value) else Varint(value)[..output.Length - old(size)]
    {
      var rest, done := value, false;
      ghost var all, start, stored := Varint(value), size, Stored();
      ghost var put: nat := 0;
      assert all[..0] == [];
      while !done
        invariant Valid() && put <= |all| && size == start + put
        invariant if done then put == |all| else all[put..] == Varint(rest)
        invariant Stored() == stored + all[..put]
        decreases |all| - put, !done
      {
        if size == output.Length {
          return false;
        }
        var b: nat := rest % 128;
        rest := rest / 128;
        if rest != 0 {
          ContinuationByte(b);
          b := Or(b, 128);
        }
        assert all[put] == b && all[put + 1..] == all[put..][1..];
        output[size] := b;
        size := size + 1;
        put := put + 1;
        assert Stored() == stored + all[..put];
        done := rest == 0;
      }
      assert all[..|all|] == all;
      return true;
    }

    /** Appends one varint field. */
    method VarintField(fieldNumber: nat, value: nat) returns (ok: bool)
      requires Valid()
      modifies this, output
      ensures Valid() && ok == (|Encoding(VarintCall(fieldNumber, value))| <= output.Length - old(size))
      ensures ok ==> Stored() == old(Stored()) + Encoding(VarintCall(fieldNumber, value))
      ensures old(Stored()) <= Stored()
    {
      hide Varint;
      KeyValue(fieldNumber, VarintWire);
      ok := RawVarint(Or(fieldNumber * 8, 0));
      if ok {
        ok := RawVarint(value);
      }
    }

    /** Appends one length-delimited field from a payload outside the output. */
    method BytesField(fieldNumber: nat, payload: seq<byte>) returns (ok: bool)
      requires Valid()
      modifies this, output
      ensures Valid() && ok == (|Encoding(BytesCall(fieldNumber, payload))| <= output.Length - old(size))
      ensures ok ==> Stored() == old(Stored()) + Encoding(BytesCall(fieldNumber, payload))
      ensures old(Stored()) <= Stored()
    {
      hide Varint, Or;
      KeyValue(fieldNumber, BytesWire);
      ok := RawVarint(Or(fieldNumber * 8, 2));
      if !ok {
        return false;
      }
      ok := RawVarint(|payload|);
      if !ok || |payload| > output.Length - size {
        return false;
      }
      Append(payload);
      return true;
    }

    /** Stores bytes already proven to fit. */
    method Append(payload: seq<byte>)
      requires Valid() && size + |payload| <= output.Length
      modifies this, output
      ensures Valid() && size == old(size) + |payload| && Stored() == old(Stored()) + payload
    {
      for index := 0 to |payload|
        invariant Valid() && size == old(size) + index
        invariant Stored() == old(Stored()) + payload[..index]
      {
        ghost var before := Stored();
        output[size] := payload[index];
        size := size + 1;
        assert Stored() == before + [payload[index]];
        assert payload[..index + 1] == payload[..index] + [payload[index]];
      }
      assert payload[..|payload|] == payload;
    }
  }

  /**
   * The second writer, on the same calls with valid field numbers and the same room, accepts the
   * same ones up to the first refusal, with the same bytes.
   */
  method SignonRun(writer: SignonWriter, calls: seq<Call>) returns (accepted: nat)
    requires writer.Valid() && writer.size == 0
    requires forall k :: 0 <= k < |calls| ==> ValidFieldNumber(calls[k].fieldNumber)
    modifies writer, writer.output
    ensures writer.Valid() && accepted == Fitting(calls, writer.output.Length)
    ensures Message(calls[..accepted]) <= writer.Stored()
    ensures accepted == |calls| ==> writer.Stored() == Message(calls)
  {
    hide Encoding, Message, Fitting;
    ghost var room := writer.output.Length;
    MessageSnoc([], VarintCall(0, 0));
    for index := 0 to |calls|
      invariant writer.Valid() && index <= Fitting(calls, room)
      invariant writer.Stored() == Message(calls[..index])
    {
      MessageSnoc(calls[..index], calls[index]);
      assert calls[..index + 1] == calls[..index] + [calls[index]];
      FittingNext(calls, room, index);
      var c := calls[index];
      var ok;
      match c {
        case VarintCall(n, value) => ok := writer.VarintField(n, value);
        case BytesCall(n, payload) => ok := writer.BytesField(n, payload);
      }
      if !ok {
        return index;
      }
    }
    assert calls[..|calls|] == calls;
    return |calls|;
  }
}
