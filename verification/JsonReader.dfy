/**
 * The settings parser itself: a cursor over the input that every method advances. Its checker
 * accepts what the grammar's recogniser accepts, and leaves the cursor where the value ends.
 */
module JsonReader {
  import opened JsonGrammar
  import opened JsonParser
  import opened Wrappers

  const COUNTER_MAX: nat := 0xFFFF_FFFF_FFFF_FFFF

  /** The number a digit string denotes. */
  function Decimal(s: string): nat
    requires Digits(s)
  {
    if s == "" then 0 else Decimal(s[..|s| - 1]) * 10 + (s[|s| - 1] as nat - '0' as nat)
  }

  lemma WhiteAgain(input: string, pos: nat)
    requires pos <= |input|
    ensures WhiteEnd(input, WhiteEnd(input, pos)) == WhiteEnd(input, pos)
  {}

  lemma {:induction false} WhiteSkips(input: string, pos: nat, p: nat)
    requires pos <= p <= |input| && p <= WhiteEnd(input, pos)
    ensures WhiteEnd(input, p) == WhiteEnd(input, pos)
    decreases p - pos
  {
    if pos < p {
      WhiteSkips(input, pos + 1, p);
    }
  }

  class Parser {
    const input: string
    var position: nat

    ghost predicate Valid()
      reads this
    {
      position <= |input|
    }

    constructor (text: string)
      ensures Valid() && input == text && position == 0
    {
      input, position := text, 0;
    }

    /** Skips JSON whitespace; other control bytes are left alone. */
    method Whitespace()
      requires Valid()
      modifies this
      ensures Valid() && position == WhiteEnd(input, old(position))
    {
      while position < |input|
        invariant Valid() && position <= WhiteEnd(input, old(position))
        invariant WhiteEnd(input, position) == WhiteEnd(input, old(position))
      {
        if !IsWhite(input[position]) {
          return;
        }
        position := position + 1;
      }
    }

    /** Reads one structural character after whitespace. */
    method Consume(value: char) returns (ok: bool)
      requires Valid()
      modifies this
      ensures Valid() && ok == Expect(input, old(position), value).Some?
      ensures position == if ok then Expect(input, old(position), value).value else WhiteEnd(input, old(position))
    {
      Whitespace();
      if position >= |input| || input[position] != value {
        return false;
      }
      position := position + 1;
      return true;
    }

    /** True when only whitespace remains. */
    method AtEnd() returns (ok: bool)
      requires Valid()
      modifies this
      ensures Valid() && ok == (WhiteEnd(input, old(position)) == |input|)
    {
      Whitespace();
      return position == |input|;
    }

    /** The four digits of a Unicode escape. */
    method SkipHexDigits() returns (ok: bool)
      requires Valid()
      modifies this
      ensures Valid() && ok == HexRun(input, old(position))
      ensures position == old(position) + if ok then UNICODE_DIGITS else 0
    {
      if |input| - position < UNICODE_DIGITS {
        return false;
      }
      for index := 0 to UNICODE_DIGITS
        invariant position == old(position)
        invariant forall k :: position <= k < position + index ==> IsHexDigit(input[k])
      {
        if !IsHexDigit(input[position + index]) {
          return false;
        }
      }
      position := position + UNICODE_DIGITS;
      return true;
    }

    /** Reads one string and returns the encoded bytes between its quotes. */
    method ReadString() returns (ok: bool, output: string)
      requires Valid()
      modifies this
      ensures Valid() && ok == StringEnd(input, old(position)).Some?
      ensures ok ==>
                && position == StringEnd(input, old(position)).value
                && output == input[Expect(input, old(position), '"').value..position - 1] && StringBody(output)
    {
      hide HexRun, StringBody, Spaces, IsSimpleEscape, WhiteEnd;
      output := "";
      Whitespace();
      if position >= |input| || input[position] != '"' {
        return false, output;
      }
      position := position + 1;
      var start := position;
      BodyWhole(input, start);
      while position < |input|
        invariant start <= position <= |input|
        invariant BodyEnd(input, position) == BodyEnd(input, start)
      {
        var value := input[position];
        position := position + 1;
        if value == '"' {
          return true, input[start..position - 1];
        }
        if value < ' ' {
          return false, output;
        }
        if value == '\\' {
          if position >= |input| {
            return false, output;
          }
          var escape := input[position];
          position := position + 1;
          if escape != 'u' {
            if !IsSimpleEscape(escape) {
              return false, output;
            }
            continue;
          }
          var hex := SkipHexDigits();
          if !hex {
            return false, output;
          }
        }
      }
      return false, output;
    }

    /** Reads one exact literal after whitespace. */
    method Literal(value: string) returns (ok: bool)
      requires Valid()
      modifies this
      ensures Valid()
      ensures ok == Stands(input, WhiteEnd(input, old(position)), value)
      ensures position == WhiteEnd(input, old(position)) + if ok then |value| else 0
    {
      Whitespace();
      var end := if |input| - position < |value| then |input| else position + |value|;
      if input[position..end] != value {
        return false;
      }
      position := position + |value|;
      return true;
    }

    /** Advances over decimal digits. */
    method SkipDigits()
      requires Valid()
      modifies this
      ensures Valid() && position == DigitsEnd(input, old(position))
    {
      while position < |input| && IsDigit(input[position])
        invariant Valid() && DigitsEnd(input, position) == DigitsEnd(input, old(position))
      {
        position := position + 1;
      }
    }

    /** The integer part of a number. */
    method ReadIntegerPart() returns (ok: bool)
      requires Valid()
      modifies this
      ensures Valid() && ok == IntegerEnd(input, old(position)).Some?
      ensures ok ==> position == IntegerEnd(input, old(position)).value
    {
      if position >= |input| {
        return false;
      }
      if input[position] == '0' {
        position := position + 1;
      } else {
        if input[position] < '1' || input[position] > '9' {
          return false;
        }
        SkipDigits();
      }
      return true;
    }

    /** The optional fraction of a number. */
    method ReadFractionPart() returns (ok: bool)
      requires Valid()
      modifies this
      ensures Valid() && ok == FractionEnd(input, old(position)).Some?
      ensures ok ==> position == FractionEnd(input, old(position)).value
    {
      if position < |input| && input[position] == '.' {
        position := position + 1;
        var fraction := position;
        SkipDigits();
        if fraction == position {
          return false;
        }
      }
      return true;
    }

    /** The optional exponent of a number. */
    method ReadExponentPart() returns (ok: bool)
      requires Valid()
      modifies this
      ensures Valid() && ok == ExponentEnd(input, old(position)).Some?
      ensures ok ==> position == ExponentEnd(input, old(position)).value
    {
      if position < |input| && (input[position] == 'e' || input[position] == 'E') {
        position := position + 1;
        if position < |input| && (input[position] == '+' || input[position] == '-') {
          position := position + 1;
        }
        var exponent := position;
        SkipDigits();
        if exponent == position {
          return false;
        }
      }
      return true;
    }

    /** Reads a number after whitespace. */
    method ReadNumber() returns (ok: bool)
      requires Valid()
      modifies this
      ensures Valid() && ok == NumberEnd(input, WhiteEnd(input, old(position))).Some?
      ensures ok ==> position == NumberEnd(input, WhiteEnd(input, old(position))).value
    {
      hide IntegerEnd, FractionEnd, ExponentEnd, Spaces;
      Whitespace();
      var start := position;
      if position < |input| && input[position] == '-' {
        position := position + 1;
      }
      ok := ReadIntegerPart();
      if !ok {
        return;
      }
      ok := ReadFractionPart();
      if !ok {
        return;
      }
      ok := ReadExponentPart();
      if !ok {
        return;
      }
      return position != start;
    }

    /** Reads one unsigned decimal integer that fits 64 bits, without a leading zero. */
    method ReadUnsigned() returns (ok: bool, output: nat)
      requires Valid()
      modifies this
      ensures Valid()
      ensures var p := WhiteEnd(input, old(position));
              var run := input[p..DigitsEnd(input, p)];
              && ok == (run != "" && (|run| > 1 ==> run[0] != '0') && Decimal(run) <= COUNTER_MAX)
              && (ok ==> output == Decimal(run) && position == DigitsEnd(input, p))
    {
      hide Spaces, WhiteEnd, DigitsEnd, Digits, Decimal;
      Whitespace();
      var start, value: nat := position, 0;
      ghost var end := DigitsEnd(input, start);
      output := 0;
      NoDigits(input, start);
      while position < |input| && '0' <= input[position] <= '9'
        invariant start <= position <= end && DigitsEnd(input, position) == end
        invariant Digits(input[start..position]) && value == Decimal(input[start..position]) && value <= COUNTER_MAX
      {
        var digit: nat := input[position] as nat - '0' as nat;
        NextDigit(input, start, position);
        if value > (COUNTER_MAX - digit) / 10 {
          return false, output;
        }
        value := value * 10 + digit;
        position := position + 1;
      }
      DigitsStop(input, position);
      if position == start || (position - start > 1 && input[start] == '0') {
        return false, output;
      }
      return true, value;
    }

    /** Reads one of the three literals after whitespace. */
    method ReadWord() returns (ok: bool)
      requires Valid()
      modifies this
      ensures Valid() && ok == WordEnd(input, WhiteEnd(input, old(position))).Some?
      ensures position == if ok then WordEnd(input, WhiteEnd(input, old(position))).value else WhiteEnd(input, old(position))
    {
      hide Spaces, WhiteEnd;
      WhiteAgain(input, position);
      ok := Literal("true");
      if !ok {
        ok := Literal("false");
      }
      if !ok {
        ok := Literal("null");
      }
    }

    /** Moves past one value, if it is well formed. */
    method SkipValue(depth: nat) returns (ok: bool)
      requires Valid()
      modifies this
      ensures Valid() && ok == ValueEnd(input, old(position), depth).Some?
      ensures ok ==> position == ValueEnd(input, old(position), depth).value
      decreases MAXIMUM_DEPTH - depth, 1
    {
      hide StringEnd, NumberEnd, ItemsEnd, MembersEnd, WordEnd, Spaces, Digits, IsDigit, WhiteEnd, Expect;
      if depth >= MAXIMUM_DEPTH {
        return false;
      }
      ghost var from := position;
      Whitespace();
      ghost var p := position;
      WhiteAgain(input, from);
      if position >= |input| {
        return false;
      }
      if input[position] == '"' {
        var read, ignored := ReadString();
        return read;
      }
      if input[position] == '{' {
        position := position + 1;
        var closed := Consume('}');
        if closed {
          return true;
        }
        ok := SkipMembers(depth, p + 1);
        return;
      }
      if input[position] == '[' {
        position := position + 1;
        var closed := Consume(']');
        if closed {
          return true;
        }
        ok := SkipItems(depth, p + 1);
        return;
      }
      var word := ReadWord();
      if word {
        return true;
      }
      ok := ReadNumber();
    }

    /** The item loop of an array; the cursor may already be past whitespace. */
    method SkipItems(depth: nat, ghost from: nat) returns (ok: bool)
      requires Valid() && depth < MAXIMUM_DEPTH && from <= position <= WhiteEnd(input, from)
      modifies this
      ensures Valid() && ok == ItemsEnd(input, from, depth).Some?
      ensures ok ==> position == ItemsEnd(input, from, depth).value
      decreases MAXIMUM_DEPTH - depth, 0
    {
      hide ValueEnd, Expect, Spaces;
      ghost var at := from;
      while true
        invariant Valid() && from <= at <= position <= WhiteEnd(input, at)
        invariant ItemsEnd(input, at, depth) == ItemsEnd(input, from, depth)
        decreases |input| - at
      {
        ValueFromWhite(input, at, position, depth + 1);
        var read := SkipValue(depth + 1);
        if !read {
          return false;
        }
        ghost var v := position;
        var closed := Consume(']');
        if closed {
          return true;
        }
        ExpectFromWhite(input, v, position, ',');
        var more := Consume(',');
        if !more {
          return false;
        }
        at := position;
      }
    }

    /** The member loop of an object; the cursor may already be past whitespace. */
    method SkipMembers(depth: nat, ghost from: nat) returns (ok: bool)
      requires Valid() && depth < MAXIMUM_DEPTH && from <= position <= WhiteEnd(input, from)
      modifies this
      ensures Valid() && ok == MembersEnd(input, from, depth).Some?
      ensures ok ==> position == MembersEnd(input, from, depth).value
      decreases MAXIMUM_DEPTH - depth, 0
    {
      hide ValueEnd, Expect, StringEnd, Spaces;
      ghost var at := from;
      while true
        invariant Valid() && from <= at <= position <= WhiteEnd(input, at)
        invariant MembersEnd(input, at, depth) == MembersEnd(input, from, depth)
        decreases |input| - at
      {
        StringFromWhite(input, at, position);
        var named, ignored := ReadString();
        if !named {
          return false;
        }
        var colon := Consume(':');
        if !colon {
          return false;
        }
        var read := SkipValue(depth + 1);
        if !read {
          return false;
        }
        ghost var v := position;
        var closed := Consume('}');
        if closed {
          return true;
        }
        ExpectFromWhite(input, v, position, ',');
        var more := Consume(',');
        if !more {
          return false;
        }
        at := position;
      }
    }
  }

  /** Reading from within leading whitespace reads the same token. */
  lemma ExpectFromWhite(input: string, pos: nat, p: nat, c: char)
    requires pos <= p <= |input| && p <= WhiteEnd(input, pos)
    ensures Expect(input, p, c) == Expect(input, pos, c)
  {
    WhiteSkips(input, pos, p);
  }

  lemma StringFromWhite(input: string, pos: nat, p: nat)
    requires pos <= p <= |input| && p <= WhiteEnd(input, pos)
    ensures StringEnd(input, p) == StringEnd(input, pos)
  {
    WhiteSkips(input, pos, p);
  }

  lemma ValueFromWhite(input: string, pos: nat, p: nat, depth: nat)
    requires pos <= p <= |input| && p <= WhiteEnd(input, pos)
    ensures ValueEnd(input, p, depth) == ValueEnd(input, pos, depth)
  {
    hide Spaces, StringEnd, NumberEnd, WordEnd, Expect, ItemsEnd, MembersEnd, WhiteEnd;
    WhiteSkips(input, pos, p);
  }

  /** A string that is read to its closing quote is well formed between its quotes. */
  lemma BodyWhole(input: string, pos: nat)
    requires pos <= |input|
    ensures BodyEnd(input, pos).Some? ==> StringBody(input[pos..BodyEnd(input, pos).value - 1])
  {
    if BodyEnd(input, pos).Some? {
      BodySound(input, pos);
    }
  }

  /** A whole document is checked: accepted exactly when it is JSON of height at most 16. */
  method CheckDocument(text: string) returns (ok: bool)
    ensures ok <==> IsDocument(text)
  {
    hide ValueEnd, WhiteEnd, IsDocument;
    var parser := new Parser(text);
    ok := parser.SkipValue(0);
    if ok {
      ok := parser.AtEnd();
    }
    AcceptedExactly(text);
  }

  lemma NoDigits(input: string, pos: nat)
    requires pos <= |input|
    ensures Digits(input[pos..pos]) && Decimal(input[pos..pos]) == 0
  {}

  lemma DigitsStop(input: string, pos: nat)
    requires pos <= |input| && (pos < |input| ==> !IsDigit(input[pos]))
    ensures DigitsEnd(input, pos) == pos
  {}

  /** One digit more of a run: the number grows by it, and stays within the number of the run. */
  lemma NextDigit(input: string, start: nat, pos: nat)
    requires start <= pos < |input| && IsDigit(input[pos]) && DigitsEnd(input, pos) == DigitsEnd(input, start)
    ensures pos < DigitsEnd(input, start) == DigitsEnd(input, pos + 1)
    ensures Digits(input[start..pos]) && Digits(input[start..pos + 1])
    ensures Decimal(input[start..pos + 1]) == Decimal(input[start..pos]) * 10 + (input[pos] as nat - '0' as nat)
    ensures Decimal(input[start..pos + 1]) <= Decimal(input[start..DigitsEnd(input, start)])
  {
    var end := DigitsEnd(input, start);
    assert DigitsEnd(input, pos + 1) == end;
    hide DigitsEnd, Decimal;
    var run := input[start..end];
    assert input[start..pos] == run[..pos - start] && input[start..pos + 1] == run[..pos - start] + [input[pos]];
    DecimalSnoc(run[..pos - start], input[pos]);
    DecimalGrows(run, pos + 1 - start);
    assert run[..pos + 1 - start] == input[start..pos + 1];
  }

  lemma DecimalSnoc(s: string, c: char)
    requires Digits(s) && IsDigit(c)
    ensures Digits(s + [c]) && Decimal(s + [c]) == Decimal(s) * 10 + (c as nat - '0' as nat)
  {
    assert (s + [c])[..|s|] == s;
  }

  /** A longer run of digits denotes no smaller number. */
  lemma {:induction false} DecimalGrows(s: string, n: nat)
    requires Digits(s) && n <= |s|
    ensures Decimal(s[..n]) <= Decimal(s)
    decreases |s|
  {
    if n < |s| {
      var m := |s| - 1;
      DecimalGrows(s[..m], n);
      assert s[..m][..n] == s[..n];
    } else {
      assert s[..n] == s;
    }
  }
}
