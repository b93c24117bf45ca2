/** Bytes, inclusive-or on naturals, and big-endian byte strings as numbers. */
module Bytes {
  import opened Arithmetic

  type byte = x: nat | x < 256

  /** Bitwise inclusive or. */
  function Or(a: nat, b: nat): nat {
    if a == 0 then b else if b == 0 then a
    else 2 * Or(a / 2, b / 2) + if a % 2 == 1 || b % 2 == 1 then 1 else 0
  }

  /** Or of a multiple of 2^k and a value below 2^k is their sum. */
  lemma {:induction false} OrDisjoint(a: nat, b: nat, k: nat)
    requires b < Pow(2, k)
    ensures Or(a * Pow(2, k), b) == a * Pow(2, k) + b
  {
    if k == 0 {
      assert Or(a, 0) == a;
    } else {
      var w := a * Pow(2, k - 1);
      PowStep(2, k - 1);
      assert a * Pow(2, k) == 2 * w;
      OrDisjoint(a, b / 2, k - 1);
    }
  }

  lemma {:induction false} OrSym(a: nat, b: nat)
    ensures Or(a, b) == Or(b, a)
    decreases a
  {
    if a != 0 && b != 0 {
      OrSym(a / 2, b / 2);
    }
  }

  /** Or-ing the next digit in, in a base that is a power of two, is adding it at its place. */
  lemma OrDigit(value: nat, digit: nat, base: nat, bits: nat, index: nat)
    requires base == Pow(2, bits) && value < Pow(base, index)
    ensures Or(value, digit * Pow(base, index)) == value + digit * Pow(base, index)
  {
    PowMul(2, bits, index);
    OrDisjoint(digit, value, bits * index);
    OrSym(value, digit * Pow(base, index));
  }

  /** The number a byte string denotes, high byte first. */
  ghost function BigEndian(s: seq<byte>): nat {
    if s == [] then 0 else BigEndian(s[..|s| - 1]) * 256 + s[|s| - 1]
  }

  lemma BigEndianSnoc(s: seq<byte>, d: byte)
    ensures BigEndian(s + [d]) == BigEndian(s) * 256 + d
  {
    assert (s + [d])[..|s|] == s;
  }

  lemma {:induction false} BigEndianBound(s: seq<byte>)
    ensures BigEndian(s) < Pow(256, |s|)
  {
    if s != [] {
      BigEndianBound(s[..|s| - 1]);
    }
  }

  lemma {:induction false} BigEndianConcat(s: seq<byte>, t: seq<byte>)
    ensures BigEndian(s + t) == BigEndian(s) * Pow(256, |t|) + BigEndian(t)
  {
    if t == [] {
      assert s + t == s;
    } else {
      var n := |t| - 1;
      BigEndianConcat(s, t[..n]);
      assert s + t == (s + t[..n]) + [t[n]];
      BigEndianSnoc(s + t[..n], t[n]);
      MulAssoc(BigEndian(s), Pow(256, n), 256);
    }
  }

  /** Equal-length byte strings denoting the same number are equal. */
  lemma {:induction false} BigEndianInjective(s: seq<byte>, t: seq<byte>)
    requires |s| == |t| && BigEndian(s) == BigEndian(t)
    ensures s == t
  {
    if s != [] {
      var n := |s| - 1;
      BigEndianInjective(s[..n], t[..n]);
      assert s == s[..n] + [s[n]] && t == t[..n] + [t[n]];
    }
  }

  /** The number a byte string denotes, low byte first. */
  function LittleEndian(bytes: seq<byte>): nat {
    if bytes == [] then 0
    else LittleEndian(bytes[..|bytes| - 1]) + bytes[|bytes| - 1] * Pow(256, |bytes| - 1)
  }

  lemma LittleEndianSnoc(bytes: seq<byte>, b: byte)
    ensures LittleEndian(bytes + [b]) == LittleEndian(bytes) + b * Pow(256, |bytes|)
  {
    assert (bytes + [b])[..|bytes|] == bytes;
  }

  lemma {:induction false} LittleEndianBound(bytes: seq<byte>)
    ensures LittleEndian(bytes) < Pow(256, |bytes|)
  {
    if bytes != [] {
      var n := |bytes| - 1;
      LittleEndianBound(bytes[..n]);
      PowStep(256, n);
      DigitStep(LittleEndian(bytes[..n]), bytes[n], 256, Pow(256, n));
    }
  }

  /** The first byte counts once, the rest 256 times. */
  lemma {:induction false} LittleEndianCons(b: byte, rest: seq<byte>)
    ensures LittleEndian([b] + rest) == b + 256 * LittleEndian(rest)
  {
    hide LittleEndian;
    if rest == [] {
      LittleEndianNone();
      LittleEndianSnoc([], b);
      assert [b] + rest == [] + [b];
    } else {
      var n := |rest| - 1;
      var front, last := rest[..n], rest[n];
      assert rest == front + [last] && [b] + rest == ([b] + front) + [last];
      LittleEndianCons(b, front);
      LittleEndianSnoc(front, last);
      LittleEndianSnoc([b] + front, last);
      assert Pow(256, n + 1) == 256 * Pow(256, n);
      MulAssoc(last, 256, Pow(256, n));
      MulAssoc(256, last, Pow(256, n));
    }
  }

  lemma LittleEndianNone()
    ensures LittleEndian([]) == 0
  {}

  /** Low byte first is high byte first of the reversed bytes. */
  lemma {:induction false} LittleEndianReversed(bytes: seq<byte>)
    ensures LittleEndian(bytes) == BigEndian(Reversed(bytes))
  {
    hide LittleEndian, BigEndian, Pow;
    if bytes == [] {
      NoBytesDenote();
    } else {
      var n := |bytes| - 1;
      var front, last := bytes[..n], bytes[n];
      assert bytes == front + [last];
      LittleEndianReversed(front);
      LittleEndianSnoc(front, last);
      assert Reversed(bytes) == [last] + Reversed(front);
      BigEndianConcat([last], Reversed(front));
      BigEndianOne(last);
    }
  }

  function Reversed(bytes: seq<byte>): (r: seq<byte>)
    ensures |r| == |bytes|
  {
    seq(|bytes|, k requires 0 <= k < |bytes| => bytes[|bytes| - 1 - k])
  }

  lemma NoBytesDenote()
    ensures LittleEndian([]) == 0 && BigEndian(Reversed([])) == 0
  {}

  lemma BigEndianOne(b: byte)
    ensures BigEndian([b]) == b
  {
    assert [b][..0] == [];
  }
}
