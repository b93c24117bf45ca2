/** The exported public key: a DER sequence of minimal integers, zero padded to 100 bytes. */
module KeyCodec {
  import opened Bytes
  import opened Wrappers

  const FIELD_SIZE: nat := 28
  const KEY_SIZE: nat := 100
  const TAG_SEQUENCE: byte := 0x30
  const TAG_INTEGER: byte := 0x02
  const TAG_BIT_STRING: byte := 0x03
  const PUBLIC_FLAG_BITS: seq<byte> := [TAG_BIT_STRING, 0x02, 0x07, 0x00]
  const SHORT_FORM_LIMIT: nat := 0x80

  // ---- what an encoding is -----------------------------------------------------------------

  /** The shortest non-empty suffix after leading zeros. */
  ghost function Trimmed(value: seq<byte>): (t: seq<byte>)
    requires value != []
    ensures t != [] && |t| <= |value|
  {
    if |value| > 1 && value[0] == 0 then Trimmed(value[1..]) else value
  }

  /** Content octets of a non-negative integer. */
  ghost function Content(value: seq<byte>): seq<byte>
    requires value != []
  {
    var t := Trimmed(value);
    if t[0] >= 0x80 then [0] + t else t
  }

  ghost function DerInteger(value: seq<byte>): seq<byte>
    requires 0 < |value| <= FIELD_SIZE
  {
    [TAG_INTEGER, |Content(value)|] + Content(value)
  }

  ghost function KeyBody(x: seq<byte>, y: seq<byte>): (body: seq<byte>)
    requires |x| == |y| == FIELD_SIZE
    ensures |body| <= 69
  {
    PUBLIC_FLAG_BITS + [TAG_INTEGER, 1, FIELD_SIZE] + DerInteger(x) + DerInteger(y)
  }

  ghost function Zeros(n: nat): seq<byte> { seq(n, _ => 0) }

  ghost function EncodedKey(x: seq<byte>, y: seq<byte>): (key: seq<byte>)
    requires |x| == |y| == FIELD_SIZE
    ensures |key| == KEY_SIZE
  {
    var body := KeyBody(x, y);
    [TAG_SEQUENCE, |body|] + body + Zeros(KEY_SIZE - 2 - |body|)
  }

  /** Section 8.3 of ITU-T X.690: at least one octet, no redundant leading octet, top bit clear. */
  lemma {:induction false} IntegerMinimal(value: seq<byte>)
    requires value != []
    ensures var c := Content(value);
            && c != [] && c[0] < 0x80
            && (|c| > 1 ==> !(c[0] == 0 && c[1] < 0x80))
            && BigEndian(c) == BigEndian(value)
  {
    if |value| > 1 && value[0] == 0 {
      IntegerMinimal(value[1..]);
      assert value == [0] + value[1..];
      BigEndianConcat([0], value[1..]);
    } else if value[0] >= 0x80 {
      BigEndianConcat([0], value);
    }
  }

  // ---- encoding ----------------------------------------------------------------------------

  /** Appends the DER form of a number. */
  method AppendInteger(output: seq<byte>, value: seq<byte>) returns (grown: seq<byte>)
    requires 0 < |value| <= FIELD_SIZE
    ensures grown == output + DerInteger(value)
  {
    hide Trimmed;
    var first := 0;
    assert value[0..] == value;
    while first + 1 < |value| && value[first] == 0
      invariant 0 <= first < |value|
      invariant Trimmed(value[first..]) == Trimmed(value)
    {
      TrimmedStep(value, first);
      first := first + 1;
    }
    var trimmed := value[first..];
    TrimmedDone(trimmed);
    var pad := trimmed[0] >= 0x80;
    grown := output + [TAG_INTEGER];
    grown := grown + [|trimmed| + if pad then 1 else 0];
    if pad {
      grown := grown + [0];
    }
    grown := grown + trimmed;
  }

  lemma TrimmedStep(value: seq<byte>, first: nat)
    requires first + 1 < |value| && value[first] == 0
    ensures Trimmed(value[first..]) == Trimmed(value[first + 1..])
  {
    assert value[first..][1..] == value[first + 1..];
  }

  lemma TrimmedDone(value: seq<byte>)
    requires value != [] && (|value| == 1 || value[0] != 0)
    ensures Trimmed(value) == value
  {}

  /** Encodes one public key; with 28-byte coordinates it always fits the field. */
  method EncodePublicKey(x: seq<byte>, y: seq<byte>, output: array<byte>) returns (fits: bool)
    requires |x| == |y| == FIELD_SIZE && output.Length == KEY_SIZE
    modifies output
    ensures fits && output[..] == EncodedKey(x, y)
  {
    var body := PUBLIC_FLAG_BITS;
    body := body + [TAG_INTEGER];
    body := body + [1];
    body := body + [FIELD_SIZE];
    body := AppendInteger(body, x);
    body := AppendInteger(body, y);
    assert body == KeyBody(x, y);
    if |body| >= SHORT_FORM_LIMIT || |body| + 2 > KEY_SIZE {
      return false;
    }
    WrapBody(body, output);
    return true;
  }

  /** Writes one encoded body behind its sequence header; the rest of the field is zero. */
  method WrapBody(body: seq<byte>, output: array<byte>)
    requires |body| < SHORT_FORM_LIMIT && |body| + 2 <= KEY_SIZE == output.Length
    modifies output
    ensures output[..] == [TAG_SEQUENCE, |body|] + body + Zeros(KEY_SIZE - 2 - |body|)
  {
    forall i | 0 <= i < KEY_SIZE {
      output[i] := 0;
    }
    output[0] := TAG_SEQUENCE;
    output[1] := |body|;
    forall i | 0 <= i < |body| {
      output[i + 2] := body[i];
    }
  }

  // ---- decoding ----------------------------------------------------------------------------

  /** A cursor past an element header, and the declared content length. */
  datatype Header = Header(cursor: nat, length: nat)

  /** Reads one short-form element header whose content fits the input. */
  function ReadHeader(input: seq<byte>, cursor: nat, tag: byte): (header: Option<Header>)
    ensures header.Some? ==> header.value.cursor + header.value.length <= |input|
  {
    if cursor + 2 > |input| || input[cursor] != tag then None
    else
      var declared := input[cursor + 1];
      if declared >= SHORT_FORM_LIMIT || cursor + 2 + declared > |input| then None
      else Some(Header(cursor + 2, declared))
  }

  /** A field-sized value read from the input, and the cursor past it. */
  datatype FieldInteger = FieldInteger(cursor: nat, value: seq<byte>)

  /** Reads one integer no wider than the field, right aligned. */
  function ReadFieldInteger(input: seq<byte>, cursor: nat): (field: Option<FieldInteger>)
    ensures field.Some? ==> |field.value.value| == FIELD_SIZE && field.value.cursor <= |input|
  {
    var header := ReadHeader(input, cursor, TAG_INTEGER);
    if header.None? || header.value.length == 0 then None
    else
      var Header(start, length) := header.value;
      var whole := input[start..start + length];
      var value := if whole[0] == 0 then whole[1..] else whole;
      if |value| > FIELD_SIZE then None
      else Some(FieldInteger(start + length, seq(FIELD_SIZE - |value|, _ => 0) + value))
  }

  /** Reads a peer's exported public key, padding included. */
  function DecodePublicKey(input: seq<byte>): (key: Option<(seq<byte>, seq<byte>)>)
    ensures key.Some? ==> |key.value.0| == FIELD_SIZE && |key.value.1| == FIELD_SIZE
  {
    var outer := ReadHeader(input, 0, TAG_SEQUENCE);
    if outer.None? then None
    else
      var flags := ReadHeader(input, outer.value.cursor, TAG_BIT_STRING);
      if flags.None? then None
      else
        var size := ReadHeader(input, flags.value.cursor + flags.value.length, TAG_INTEGER);
        if size.None? || size.value.length != 1 || input[size.value.cursor] != FIELD_SIZE then None
        else
          var x := ReadFieldInteger(input, size.value.cursor + size.value.length);
          if x.None? then None
          else
            var y := ReadFieldInteger(input, x.value.cursor);
            if y.None? then None else Some((x.value.value, y.value.value))
  }

  // ---- what is accepted --------------------------------------------------------------------

  /** A short-form element with this tag and content stands in the input. */
  ghost predicate ElementAt(input: seq<byte>, at: nat, tag: byte, content: seq<byte>) {
    && |content| < 0x80 && at + 2 + |content| <= |input|
    && input[at] == tag && input[at + 1] == |content| && input[at + 2..at + 2 + |content|] == content
  }

  /** Integer content no wider than a coordinate, but for one leading zero octet. */
  ghost predicate DenotesCoordinate(content: seq<byte>, value: seq<byte>) {
    && content != [] && (|content| <= 28 || (|content| == 29 && content[0] == 0))
    && |value| == 28 && BigEndian(value) == BigEndian(content)
  }

  /**
   * A sequence holding a bit string, the integer 28 and two coordinates. Neither the bits of the bit
   * string nor where the sequence ends matter.
   */
  ghost predicate NamesKey(input: seq<byte>, x: seq<byte>, y: seq<byte>) {
    && (exists body :: ElementAt(input, 0, 0x30, body))
    && exists flags, cx, cy :: KeyParts(input, flags, cx, cy) && DenotesCoordinate(cx, x) && DenotesCoordinate(cy, y)
  }

  ghost predicate KeyParts(input: seq<byte>, flags: seq<byte>, cx: seq<byte>, cy: seq<byte>) {
    && ElementAt(input, 2, 0x03, flags)
    && ElementAt(input, 4 + |flags|, 0x02, [28])
    && ElementAt(input, 7 + |flags|, 0x02, cx)
    && ElementAt(input, 9 + |flags| + |cx|, 0x02, cy)
  }

  /** A header is read exactly where an element stands. */
  lemma HeaderExact(input: seq<byte>, at: nat, tag: byte, h: Header)
    ensures ReadHeader(input, at, tag) == Some(h) <==>
            h.cursor == at + 2 && exists content :: |content| == h.length && ElementAt(input, at, tag, content)
  {
    if ReadHeader(input, at, tag) == Some(h) {
      assert ElementAt(input, at, tag, input[at + 2..at + 2 + h.length]);
    }
  }

  lemma ElementRead(input: seq<byte>, at: nat, tag: byte, content: seq<byte>)
    requires ElementAt(input, at, tag, content)
    ensures ReadHeader(input, at, tag) == Some(Header(at + 2, |content|))
  {}

  lemma {:induction false} ZerosDenote(n: nat, value: seq<byte>)
    ensures BigEndian(Zeros(n) + value) == BigEndian(value)
  {
    if n == 0 {
      assert Zeros(n) + value == value;
    } else {
      ZerosDenote(n - 1, value);
      assert Zeros(n) + value == [0] + (Zeros(n - 1) + value);
      BigEndianConcat([0], Zeros(n - 1) + value);
      BigEndianOne(0);
    }
  }

  /** A coordinate is read exactly from the content that denotes it. */
  lemma CoordinateExact(input: seq<byte>, at: nat, f: FieldInteger)
    ensures ReadFieldInteger(input, at) == Some(f) <==>
            exists c :: ElementAt(input, at, 0x02, c) && DenotesCoordinate(c, f.value) && f.cursor == at + 2 + |c|
  {
    hide ReadHeader, BigEndian;
    var header := ReadHeader(input, at, TAG_INTEGER);
    if header.Some? {
      HeaderExact(input, at, TAG_INTEGER, header.value);
      var c := input[at + 2..at + 2 + header.value.length];
      assert ElementAt(input, at, 0x02, c);
      if c != [] {
        Aligned(c, f.value);
      }
    }
    forall c | ElementAt(input, at, 0x02, c)
      ensures header == Some(Header(at + 2, |c|))
    {
      ElementRead(input, at, 0x02, c);
    }
  }

  /** Dropping a leading zero and aligning to the right keeps the number; nothing else has it. */
  lemma Aligned(content: seq<byte>, value: seq<byte>)
    requires content != []
    ensures var v := if content[0] == 0 then content[1..] else content;
            (|v| <= 28 && value == Zeros(28 - |v|) + v) <==> DenotesCoordinate(content, value)
  {
    hide BigEndian;
    var v := if content[0] == 0 then content[1..] else content;
    if content[0] == 0 {
      assert content == [0] + v;
      BigEndianConcat([0], v);
      BigEndianOne(0);
    }
    assert BigEndian(v) == BigEndian(content);
    if |v| <= 28 {
      var aligned := Zeros(28 - |v|) + v;
      ZerosDenote(28 - |v|, v);
      if |value| == 28 && BigEndian(value) == BigEndian(content) {
        BigEndianInjective(value, aligned);
      }
    }
  }

  /** The keys accepted, each with its coordinates; every other input is refused. */
  lemma DecodeExact(input: seq<byte>, x: seq<byte>, y: seq<byte>)
    ensures DecodePublicKey(input) == Some((x, y)) <==> NamesKey(input, x, y)
    ensures DecodePublicKey(input).None? <==> forall a, b :: !NamesKey(input, a, b)
  {
    forall a, b
      ensures DecodePublicKey(input) == Some((a, b)) <==> NamesKey(input, a, b)
    {
      if NamesKey(input, a, b) {
        NamedDecodes(input, a, b);
      }
      if DecodePublicKey(input) == Some((a, b)) {
        DecodedNames(input, a, b);
      }
    }
    match DecodePublicKey(input)
    case None =>
    case Some(key) => assert NamesKey(input, key.0, key.1);
  }

  lemma NamedDecodes(input: seq<byte>, x: seq<byte>, y: seq<byte>)
    requires NamesKey(input, x, y)
    ensures DecodePublicKey(input) == Some((x, y))
  {
    hide ElementAt, DenotesCoordinate, ReadHeader, ReadFieldInteger;
    var body :| ElementAt(input, 0, 0x30, body);
    var flags, cx, cy :| KeyParts(input, flags, cx, cy) && DenotesCoordinate(cx, x) && DenotesCoordinate(cy, y);
    ElementRead(input, 0, 0x30, body);
    ElementRead(input, 2, 0x03, flags);
    SizeRead(input, 4 + |flags|);
    var fx := FieldInteger(9 + |flags| + |cx|, x);
    CoordinateExact(input, 7 + |flags|, fx);
    CoordinateExact(input, fx.cursor, FieldInteger(fx.cursor + 2 + |cy|, y));
  }

  /** The size integer, as an element and as the byte that is compared. */
  lemma SizeRead(input: seq<byte>, at: nat)
    ensures ElementAt(input, at, 0x02, [28]) <==>
            && ReadHeader(input, at, TAG_INTEGER) == Some(Header(at + 2, 1))
            && input[at + 2] == FIELD_SIZE
  {
    if at + 3 <= |input| {
      assert input[at + 2..at + 3] == [input[at + 2]];
    }
  }

  lemma DecodedNames(input: seq<byte>, x: seq<byte>, y: seq<byte>)
    requires DecodePublicKey(input) == Some((x, y))
    ensures NamesKey(input, x, y)
  {
    hide ElementAt, DenotesCoordinate, ReadHeader, ReadFieldInteger;
    HeaderExact(input, 0, TAG_SEQUENCE, ReadHeader(input, 0, TAG_SEQUENCE).value);
    var outer := ReadHeader(input, 2, TAG_BIT_STRING).value;
    HeaderExact(input, 2, TAG_BIT_STRING, outer);
    var flags :| |flags| == outer.length && ElementAt(input, 2, 0x03, flags);
    var size := ReadHeader(input, 4 + |flags|, TAG_INTEGER).value;
    HeaderExact(input, 4 + |flags|, TAG_INTEGER, size);
    SizeRead(input, 4 + |flags|);
    var fx := ReadFieldInteger(input, 7 + |flags|).value;
    CoordinateExact(input, 7 + |flags|, fx);
    var cx :| ElementAt(input, 7 + |flags|, 0x02, cx) && DenotesCoordinate(cx, x) && fx.cursor == 9 + |flags| + |cx|;
    var fy := ReadFieldInteger(input, fx.cursor).value;
    CoordinateExact(input, fx.cursor, fy);
    var cy :| ElementAt(input, fx.cursor, 0x02, cy) && DenotesCoordinate(cy, y) && fy.cursor == fx.cursor + 2 + |cy|;
    assert KeyParts(input, flags, cx, cy);
  }

  // ---- round trip --------------------------------------------------------------------------

  lemma ZeroMore(n: nat, v: seq<byte>, value: seq<byte>)
    requires n > 0 && value != [] && value[0] == 0 && Zeros(n - 1) + v == value[1..]
    ensures Zeros(n) + v == value
  {
    assert Zeros(n) == [0] + Zeros(n - 1);
    assert value == [0] + value[1..];
  }

  /** What a stripped and right-aligned content gives back. */
  lemma {:induction false} ContentRestores(value: seq<byte>)
    requires 0 < |value| <= FIELD_SIZE
    ensures var c := Content(value);
            var v := if c[0] == 0 then c[1..] else c;
            |v| <= |value| && Zeros(|value| - |v|) + v == value
  {
    if |value| > 1 && value[0] == 0 {
      ContentRestores(value[1..]);
      var c := Content(value[1..]);
      assert Content(value) == c;
      hide Content, Trimmed;
      var v := if c[0] == 0 then c[1..] else c;
      ZeroMore(|value| - |v|, v, value);
    } else if value[0] >= 0x80 {
      assert ([0] + value)[1..] == value;
    }
  }

  /** An element header is found where the element was put. */
  lemma HeaderBack(before: seq<byte>, tag: byte, content: seq<byte>, after: seq<byte>)
    requires |content| < SHORT_FORM_LIMIT
    ensures var input := before + ([tag, |content|] + content) + after;
            var start := |before| + 2;
            && ReadHeader(input, |before|, tag) == Some(Header(start, |content|))
            && input[start..start + |content|] == content
  {
    var input := before + ([tag, |content|] + content) + after;
    assert input[|before|] == tag && input[|before| + 1] == |content|;
  }

  /** An integer is read back where it was put. */
  lemma IntegerBack(before: seq<byte>, value: seq<byte>, after: seq<byte>)
    requires |value| == FIELD_SIZE
    ensures var input := before + DerInteger(value) + after;
            ReadFieldInteger(input, |before|) ==
            Some(FieldInteger(|before| + |DerInteger(value)|, value))
  {
    hide Trimmed, ReadHeader;
    ContentRestores(value);
    ContentNonempty(value);
    var c := Content(value);
    hide Content;
    HeaderBack(before, TAG_INTEGER, c, after);
    var v := if c[0] == 0 then c[1..] else c;
    assert Zeros(FIELD_SIZE - |v|) + v == value;
  }

  lemma ContentNonempty(value: seq<byte>)
    requires 0 < |value| <= FIELD_SIZE
    ensures 0 < |Content(value)| <= FIELD_SIZE + 1
  {}

  /** The fixed head of an exported key, up to its first coordinate. */
  ghost function KeyHead(bodyLength: byte): seq<byte> {
    [TAG_SEQUENCE, bodyLength] + PUBLIC_FLAG_BITS + [TAG_INTEGER, 1, FIELD_SIZE]
  }

  lemma HeadBack(bodyLength: byte, rest: seq<byte>)
    requires bodyLength < SHORT_FORM_LIMIT && |rest| + 7 >= bodyLength
    ensures var input := KeyHead(bodyLength) + rest;
            && ReadHeader(input, 0, TAG_SEQUENCE) == Some(Header(2, bodyLength))
            && ReadHeader(input, 2, TAG_BIT_STRING) == Some(Header(4, 2))
            && ReadHeader(input, 6, TAG_INTEGER) == Some(Header(8, 1))
            && input[8] == FIELD_SIZE
  {
    var input := KeyHead(bodyLength) + rest;
    assert input[..9] == KeyHead(bodyLength);
    assert forall i :: 0 <= i < 9 ==> input[i] == KeyHead(bodyLength)[i];
  }

  /** Decoding an exported key returns exactly the coordinates that were encoded. */
  lemma KeyRoundTrip(x: seq<byte>, y: seq<byte>)
    requires |x| == |y| == FIELD_SIZE
    ensures DecodePublicKey(EncodedKey(x, y)) == Some((x, y))
  {
    hide EncodedKey, KeyBody, DerInteger, ReadHeader, ReadFieldInteger, DecodePublicKey;
    var n := KeyHeaders(x, y);
    KeyCoordinates(x, y);
    DecodeReads(EncodedKey(x, y), n, 9 + |DerInteger(x)|, 9 + |DerInteger(x)| + |DerInteger(y)|, x, y);
  }

  lemma KeyHeaders(x: seq<byte>, y: seq<byte>) returns (n: nat)
    requires |x| == |y| == FIELD_SIZE
    ensures var key := EncodedKey(x, y);
            && |key| > 9 && key[8] == FIELD_SIZE
            && ReadHeader(key, 0, TAG_SEQUENCE) == Some(Header(2, n))
            && ReadHeader(key, 2, TAG_BIT_STRING) == Some(Header(4, 2))
            && ReadHeader(key, 6, TAG_INTEGER) == Some(Header(8, 1))
  {
    KeyLayout(x, y);
    hide EncodedKey, KeyBody, DerInteger, ReadHeader, KeyHead, Zeros;
    n := |KeyBody(x, y)|;
    var tail := Zeros(KEY_SIZE - 2 - n);
    Regrouped(KeyHead(n), DerInteger(x), DerInteger(y), tail);
    HeadBack(n, DerInteger(x) + DerInteger(y) + tail);
  }

  lemma KeyCoordinates(x: seq<byte>, y: seq<byte>)
    requires |x| == |y| == FIELD_SIZE
    ensures var key, dx, dy := EncodedKey(x, y), |DerInteger(x)|, |DerInteger(y)|;
            && ReadFieldInteger(key, 9) == Some(FieldInteger(9 + dx, x))
            && ReadFieldInteger(key, 9 + dx) == Some(FieldInteger(9 + dx + dy, y))
  {
    KeyLayout(x, y);
    hide EncodedKey, KeyBody, DerInteger, ReadFieldInteger, KeyHead, Zeros;
    var n := |KeyBody(x, y)|;
    var head, dx, dy, tail := KeyHead(n), DerInteger(x), DerInteger(y), Zeros(KEY_SIZE - 2 - n);
    Regrouped(head, dx, dy, tail);
    IntegerBack(head, x, dy + tail);
    IntegerBack(head + dx, y, tail);
  }

  lemma Regrouped(a: seq<byte>, b: seq<byte>, c: seq<byte>, d: seq<byte>)
    ensures a + b + c + d == a + (b + c + d) == a + b + (c + d)
  {
    assert a + b + c + d == a + (b + c + d);
    assert a + b + c + d == a + b + (c + d);
  }

  /** What decoding reads, one header and one coordinate after the other. */
  lemma DecodeReads(input: seq<byte>, n: nat, atY: nat, end: nat, x: seq<byte>, y: seq<byte>)
    requires |input| > 9 && |x| == |y| == FIELD_SIZE
    requires ReadHeader(input, 0, TAG_SEQUENCE) == Some(Header(2, n))
    requires ReadHeader(input, 2, TAG_BIT_STRING) == Some(Header(4, 2))
    requires ReadHeader(input, 6, TAG_INTEGER) == Some(Header(8, 1)) && input[8] == FIELD_SIZE
    requires ReadFieldInteger(input, 9) == Some(FieldInteger(atY, x))
    requires ReadFieldInteger(input, atY) == Some(FieldInteger(end, y))
    ensures DecodePublicKey(input) == Some((x, y))
  {
    hide ReadHeader, ReadFieldInteger;
  }

  lemma KeyLayout(x: seq<byte>, y: seq<byte>)
    requires |x| == |y| == FIELD_SIZE
    ensures var n := |KeyBody(x, y)|;
            && n <= 69 && |KeyHead(n)| == 9
            && |DerInteger(x)| + |DerInteger(y)| + 7 == n
            && EncodedKey(x, y) == KeyHead(n) + DerInteger(x) + DerInteger(y) + Zeros(KEY_SIZE - 2 - n)
  {
  }

  /** The octets every exported key opens with, the contents after them, and the padding. */
  lemma KeyOpens(x: seq<byte>, y: seq<byte>)
    requires |x| == |y| == 28
    ensures var key := EncodedKey(x, y);
            && |key| == 100
            && key[..9] == [0x30, key[1], 0x03, 0x02, 0x07, 0x00, 0x02, 0x01, 28]
            && KeyParts(key, [0x07, 0x00], Content(x), Content(y))
            && key[1] == 11 + |Content(x)| + |Content(y)| <= 69
            && forall i :: 2 + key[1] <= i < 100 ==> key[i] == 0
  {
    KeyLayout(x, y);
    ContentNonempty(x);
    ContentNonempty(y);
    hide EncodedKey, KeyBody, Content;
    KeyOpening(EncodedKey(x, y), |KeyBody(x, y)|, Content(x), Content(y));
  }

  lemma KeyOpening(key: seq<byte>, n: byte, cx: seq<byte>, cy: seq<byte>)
    requires |cx| < 0x80 && |cy| < 0x80 && n == 11 + |cx| + |cy| <= 98
    requires key == KeyHead(n) + ([TAG_INTEGER, |cx|] + cx) + ([TAG_INTEGER, |cy|] + cy) + Zeros(98 - n)
    ensures |key| == 100
    ensures key[..9] == [0x30, n, 0x03, 0x02, 0x07, 0x00, 0x02, 0x01, 28]
    ensures KeyParts(key, [0x07, 0x00], cx, cy)
    ensures forall i :: 2 + n <= i < 100 ==> key[i] == 0
  {
    hide ElementAt;
    var head, tail := KeyHead(n), Zeros(98 - n);
    var ix, iy := [TAG_INTEGER, |cx|] + cx, [TAG_INTEGER, |cy|] + cy;
    assert head == [0x30, n, 0x03, 0x02, 0x07, 0x00, 0x02, 0x01, 28];
    hide KeyHead, Zeros;
    Regrouped(head, ix, iy, tail);
    Placed(head, TAG_INTEGER, cx, iy + tail);
    Placed(head + ix, TAG_INTEGER, cy, tail);
    HeadElements(key, n);
  }

  lemma HeadElements(key: seq<byte>, n: byte)
    requires |key| >= 9 && key[..9] == [0x30, n, 0x03, 0x02, 0x07, 0x00, 0x02, 0x01, 28]
    ensures ElementAt(key, 2, 0x03, [0x07, 0x00]) && ElementAt(key, 6, 0x02, [28])
  {
    assert forall i :: 0 <= i < 9 ==> key[i] == key[..9][i];
    assert key[4..6] == key[..9][4..6] == [0x07, 0x00];
    assert key[8..9] == key[..9][8..9] == [28];
  }

  /** An element that was put somewhere stands there. */
  lemma Placed(before: seq<byte>, tag: byte, content: seq<byte>, after: seq<byte>)
    requires |content| < 0x80
    ensures ElementAt(before + ([tag, |content|] + content) + after, |before|, tag, content)
  {}
}
