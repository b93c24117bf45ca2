/** The settings parser's value checker, and the RFC 8259 grammar it accepts exactly. */
module JsonParser {
  import opened JsonGrammar
  import opened Wrappers

  const MAXIMUM_DEPTH: nat := 16
  const UNICODE_DIGITS: nat := 4

  // ---- where each token ends ---------------------------------------------------------------

  function WhiteEnd(input: string, pos: nat): (end: nat)
    requires pos <= |input|
    ensures pos <= end <= |input|
    ensures Spaces(input[pos..end])
    ensures end < |input| ==> !IsWhite(input[end])
    decreases |input| - pos
  {
    if pos < |input| && IsWhite(input[pos]) then WhiteEnd(input, pos + 1) else pos
  }

  /** One structural character after whitespace. */
  function Expect(input: string, pos: nat, c: char): (end: Option<nat>)
    requires pos <= |input|
    ensures end.Some? ==> pos < end.value <= |input|
  {
    var p := WhiteEnd(input, pos);
    if p < |input| && input[p] == c then Some(p + 1) else None
  }

  predicate HexRun(input: string, pos: nat)
  {
    pos + UNICODE_DIGITS <= |input| && forall k :: pos <= k < pos + UNICODE_DIGITS ==> IsHexDigit(input[k])
  }

  /** The end of a string whose opening quote was just read. */
  function BodyEnd(input: string, pos: nat): (end: Option<nat>)
    requires pos <= |input|
    ensures end.Some? ==> pos < end.value <= |input|
    decreases |input| - pos
  {
    if pos >= |input| then None
    else if input[pos] == '"' then Some(pos + 1)
    else if input[pos] < ' ' then None
    else if input[pos] != '\\' then BodyEnd(input, pos + 1)
    else if pos + 1 >= |input| then None
    else if input[pos + 1] != 'u' then if IsSimpleEscape(input[pos + 1]) then BodyEnd(input, pos + 2) else None
    else if HexRun(input, pos + 2) then BodyEnd(input, pos + 2 + UNICODE_DIGITS)
    else None
  }

  function StringEnd(input: string, pos: nat): (end: Option<nat>)
    requires pos <= |input|
    ensures end.Some? ==> pos < end.value <= |input|
  {
    var p := Expect(input, pos, '"');
    if p.Some? then BodyEnd(input, p.value) else None
  }

  function DigitsEnd(input: string, pos: nat): (end: nat)
    requires pos <= |input|
    ensures pos <= end <= |input|
    ensures Digits(input[pos..end])
    ensures end < |input| ==> !IsDigit(input[end])
    decreases |input| - pos
  {
    if pos < |input| && IsDigit(input[pos]) then DigitsEnd(input, pos + 1) else pos
  }

  function SignEnd(input: string, pos: nat): (end: nat)
    requires pos <= |input|
    ensures pos <= end <= |input|
  {
    if pos < |input| && input[pos] == '-' then pos + 1 else pos
  }

  function IntegerEnd(input: string, pos: nat): (end: Option<nat>)
    requires pos <= |input|
    ensures end.Some? ==> pos < end.value <= |input|
  {
    if pos >= |input| then None
    else if input[pos] == '0' then Some(pos + 1)
    else if IsDigit(input[pos]) then Some(DigitsEnd(input, pos))
    else None
  }

  function FractionEnd(input: string, pos: nat): (end: Option<nat>)
    requires pos <= |input|
    ensures end.Some? ==> pos <= end.value <= |input|
  {
    if pos < |input| && input[pos] == '.' then
      var end := DigitsEnd(input, pos + 1);
      if end == pos + 1 then None else Some(end)
    else Some(pos)
  }

  function ExponentEnd(input: string, pos: nat): (end: Option<nat>)
    requires pos <= |input|
    ensures end.Some? ==> pos <= end.value <= |input|
  {
    if pos < |input| && (input[pos] == 'e' || input[pos] == 'E') then
      var from := if pos + 1 < |input| && (input[pos + 1] == '+' || input[pos + 1] == '-') then pos + 2 else pos + 1;
      var end := DigitsEnd(input, from);
      if end == from then None else Some(end)
    else Some(pos)
  }

  /** The end of a number that starts here. */
  function NumberEnd(input: string, pos: nat): (end: Option<nat>)
    requires pos <= |input|
    ensures end.Some? ==> pos < end.value <= |input|
  {
    var i := IntegerEnd(input, SignEnd(input, pos));
    if i.None? then None
    else
      var f := FractionEnd(input, i.value);
      if f.None? then None else ExponentEnd(input, f.value)
  }

  /** A word that stands at this position. */
  predicate Stands(input: string, pos: nat, s: string) {
    pos + |s| <= |input| && input[pos..pos + |s|] == s
  }

  function WordEnd(input: string, pos: nat): (end: Option<nat>)
    requires pos <= |input|
    ensures end.Some? ==> pos < end.value <= |input|
  {
    if Stands(input, pos, "true") then Some(pos + 4)
    else if Stands(input, pos, "false") then Some(pos + 5)
    else if Stands(input, pos, "null") then Some(pos + 4)
    else None
  }

  /** The end of one value, or none when no value of admissible depth is read here. */
  function ValueEnd(input: string, pos: nat, depth: nat): (end: Option<nat>)
    requires pos <= |input|
    ensures end.Some? ==> pos < end.value <= |input|
    decreases MAXIMUM_DEPTH - depth, 1, 0
  {
    var p := WhiteEnd(input, pos);
    if depth >= MAXIMUM_DEPTH || p >= |input| then None
    else if input[p] == '"' then StringEnd(input, p)
    else if input[p] == '{' then
      var closed := Expect(input, p + 1, '}');
      if closed.Some? then closed else MembersEnd(input, p + 1, depth)
    else if input[p] == '[' then
      var closed := Expect(input, p + 1, ']');
      if closed.Some? then closed else ItemsEnd(input, p + 1, depth)
    else
      var word := WordEnd(input, p);
      if word.Some? then word else NumberEnd(input, p)
  }

  /** The end of an array, from an item on. */
  function ItemsEnd(input: string, pos: nat, depth: nat): (end: Option<nat>)
    requires pos <= |input| && depth < MAXIMUM_DEPTH
    ensures end.Some? ==> pos < end.value <= |input|
    decreases MAXIMUM_DEPTH - depth, 0, |input| - pos
  {
    var v := ValueEnd(input, pos, depth + 1);
    if v.None? then None
    else if Expect(input, v.value, ']').Some? then Expect(input, v.value, ']')
    else
      var comma := Expect(input, v.value, ',');
      if comma.None? then None else ItemsEnd(input, comma.value, depth)
  }

  /** The end of an object, from a member on. */
  function MembersEnd(input: string, pos: nat, depth: nat): (end: Option<nat>)
    requires pos <= |input| && depth < MAXIMUM_DEPTH
    ensures end.Some? ==> pos < end.value <= |input|
    decreases MAXIMUM_DEPTH - depth, 0, |input| - pos
  {
    var name := StringEnd(input, pos);
    if name.None? then None
    else
      var colon := Expect(input, name.value, ':');
      if colon.None? then None
      else
        var v := ValueEnd(input, colon.value, depth + 1);
        if v.None? then None
        else if Expect(input, v.value, '}').Some? then Expect(input, v.value, '}')
        else
          var comma := Expect(input, v.value, ',');
          if comma.None? then None else MembersEnd(input, comma.value, depth)
  }

  // ---- what stands in a slice --------------------------------------------------------------

  lemma Join(input: string, a: nat, b: nat, c: nat)
    requires a <= b <= c <= |input|
    ensures input[a..c] == input[a..b] + input[b..c]
  {}

  /** Whitespace, then one structural character. */
  predicate Delimited(input: string, from: nat, end: nat, c: char) {
    from < end <= |input| && Spaces(input[from..end - 1]) && input[end - 1] == c
  }

  predicate StringAt(input: string, from: nat, end: nat, pre: string, body: string) {
    from <= end <= |input| && Spaces(pre) && StringBody(body) && input[from..end] == pre + Quoted(body)
  }

  /** One value of bounded height, rendered as exactly this slice. */
  predicate ValueAt(input: string, from: nat, end: nat, t: Json, height: nat) {
    from <= end <= |input| && WellFormed(t) && Height(t) <= height && input[from..end] == Render(t)
  }

  predicate ItemsAt(input: string, from: nat, end: nat, t: Items, height: nat) {
    && from <= end <= |input| && WellFormedItems(t) && ItemsHeight(t) <= height && input[from..end] == RenderItems(t)
  }

  predicate MembersAt(input: string, from: nat, end: nat, t: Members, height: nat) {
    && from <= end <= |input| && WellFormedMembers(t) && MembersHeight(t) <= height
    && input[from..end] == RenderMembers(t)
  }

  lemma DelimitedSlice(input: string, from: nat, end: nat, c: char)
    requires Delimited(input, from, end, c)
    ensures input[from..end] == input[from..end - 1] + [c]
  {
    Join(input, from, end - 1, end);
  }

  // ---- soundness of tokens -----------------------------------------------------------------

  lemma ExpectSound(input: string, pos: nat, c: char)
    requires pos <= |input| && Expect(input, pos, c).Some?
    ensures Delimited(input, pos, Expect(input, pos, c).value, c)
  {}

  lemma {:induction false} BodySound(input: string, pos: nat)
    requires pos <= |input| && BodyEnd(input, pos).Some?
    ensures var end := BodyEnd(input, pos).value;
            StringBody(input[pos..end - 1]) && input[end - 1] == '"'
    decreases |input| - pos
  {
    var end := BodyEnd(input, pos).value;
    if input[pos] != '"' {
      var next := if input[pos] != '\\' then pos + 1 else if input[pos + 1] != 'u' then pos + 2 else pos + 6;
      BodySound(input, next);
      assert input[pos..end - 1][next - pos..] == input[next..end - 1];
    }
  }

  lemma StringSlice(input: string, from: nat, open: nat, end: nat)
    requires Delimited(input, from, open, '"') && open < end <= |input| && input[end - 1] == '"'
    ensures input[from..end] == input[from..open - 1] + Quoted(input[open..end - 1])
  {
    DelimitedSlice(input, from, open, '"');
    Join(input, from, open, end);
    Join(input, open, end - 1, end);
  }

  lemma StringSound(input: string, pos: nat) returns (pre: string, body: string)
    requires pos <= |input| && StringEnd(input, pos).Some?
    ensures StringAt(input, pos, StringEnd(input, pos).value, pre, body)
  {
    hide BodyEnd, Expect, StringBody, Spaces, Quoted;
    var open, end := Expect(input, pos, '"').value, StringEnd(input, pos).value;
    ExpectSound(input, pos, '"');
    BodySound(input, open);
    StringSlice(input, pos, open, end);
    pre, body := input[pos..open - 1], input[open..end - 1];
  }

  lemma IntegerSound(input: string, pos: nat)
    requires pos <= |input| && IntegerEnd(input, pos).Some?
    ensures IsInteger(input[pos..IntegerEnd(input, pos).value])
  {}

  lemma FractionSound(input: string, pos: nat)
    requires pos <= |input| && FractionEnd(input, pos).Some?
    ensures IsFraction(input[pos..FractionEnd(input, pos).value])
  {
    var end := FractionEnd(input, pos).value;
    if end != pos {
      assert input[pos..end][1..] == input[pos + 1..end];
    }
  }

  lemma ExponentSound(input: string, pos: nat)
    requires pos <= |input| && ExponentEnd(input, pos).Some?
    ensures IsExponent(input[pos..ExponentEnd(input, pos).value])
  {
    var end := ExponentEnd(input, pos).value;
    if end != pos {
      var from := if pos + 1 < |input| && (input[pos + 1] == '+' || input[pos + 1] == '-') then pos + 2 else pos + 1;
      var tail := input[pos..end][1..];
      assert tail == input[pos + 1..end];
      assert AfterSign(tail) == input[from..end];
    }
  }

  lemma NumberSlice(input: string, start: nat, pos: nat, s: nat, i: nat, f: nat, e: nat)
    requires start <= pos <= s <= i <= f <= e <= |input|
    ensures input[start..e] == input[start..pos] + (input[pos..s] + (input[s..i] + (input[i..f] + input[f..e])))
  {
    Join(input, start, pos, e);
    Join(input, pos, s, e);
    Join(input, s, i, e);
    Join(input, i, f, e);
  }

  lemma NumberOf(pre: string, sign: string, integer: string, fraction: string, exponent: string)
    requires Spaces(pre) && IsSign(sign) && IsInteger(integer) && IsFraction(fraction) && IsExponent(exponent)
    ensures var t := Number(pre, sign, integer, fraction, exponent);
            WellFormed(t) && Height(t) == 1 && Render(t) == pre + (sign + (integer + (fraction + exponent)))
  {}

  lemma NumberSound(input: string, start: nat, pos: nat) returns (t: Json)
    requires start <= pos <= |input| && Spaces(input[start..pos]) && NumberEnd(input, pos).Some?
    ensures ValueAt(input, start, NumberEnd(input, pos).value, t, 1)
  {
    var s := SignEnd(input, pos);
    var i := IntegerEnd(input, s).value;
    var f := FractionEnd(input, i).value;
    var e := ExponentEnd(input, f).value;
    assert IsSign(input[pos..s]);
    hide IntegerEnd, FractionEnd, ExponentEnd, SignEnd, IsInteger, IsFraction, IsExponent, IsSign, Spaces, WellFormed, Render;
    IntegerSound(input, s);
    FractionSound(input, i);
    ExponentSound(input, f);
    NumberSlice(input, start, pos, s, i, f, e);
    NumberOf(input[start..pos], input[pos..s], input[s..i], input[i..f], input[f..e]);
    t := Number(input[start..pos], input[pos..s], input[s..i], input[i..f], input[f..e]);
  }

  lemma NoGap(gap: string, rest: string)
    requires Spaces(gap) && |gap + rest| > 0 && (gap + rest)[0] == '"'
    ensures gap == "" && gap + rest == rest
  {}

  lemma TextSound(input: string, start: nat, pos: nat) returns (t: Json)
    requires start <= pos < |input| && Spaces(input[start..pos]) && input[pos] == '"' && StringEnd(input, pos).Some?
    ensures ValueAt(input, start, StringEnd(input, pos).value, t, 1)
  {
    hide StringEnd, StringBody;
    var gap, body := StringSound(input, pos);
    var end := StringEnd(input, pos).value;
    NoGap(gap, Quoted(body));
    Join(input, start, pos, end);
    t := Text(input[start..pos], body);
  }

  lemma WordSound(input: string, start: nat, pos: nat) returns (t: Json)
    requires start <= pos <= |input| && Spaces(input[start..pos]) && WordEnd(input, pos).Some?
    ensures ValueAt(input, start, WordEnd(input, pos).value, t, 1)
  {
    var end := WordEnd(input, pos).value;
    Join(input, start, pos, end);
    t := Word(input[start..pos], input[pos..end]);
  }

  // ---- building values from slices ---------------------------------------------------------

  /** An opening bracket after whitespace, and a bracketed body. */
  lemma Opened(input: string, pos: nat, p: nat, end: nat)
    requires pos <= p < end <= |input|
    ensures input[pos..end] == input[pos..p] + ([input[p]] + input[p + 1..end])
  {
    Join(input, pos, p, end);
    Join(input, p, p + 1, end);
  }

  lemma ListAt(input: string, pos: nat, p: nat, end: nat, items: Items, height: nat)
    requires pos <= p < end <= |input| && Spaces(input[pos..p]) && input[p] == '['
    requires ItemsAt(input, p + 1, end, items, height)
    ensures ValueAt(input, pos, end, List(input[pos..p], items), height + 1)
  {
    Opened(input, pos, p, end);
  }

  lemma ObjectAt(input: string, pos: nat, p: nat, end: nat, members: Members, height: nat)
    requires pos <= p < end <= |input| && Spaces(input[pos..p]) && input[p] == '{'
    requires MembersAt(input, p + 1, end, members, height)
    ensures ValueAt(input, pos, end, Object(input[pos..p], members), height + 1)
  {
    Opened(input, pos, p, end);
  }

  lemma ValueHigher(input: string, pos: nat, end: nat, t: Json, low: nat, high: nat)
    requires ValueAt(input, pos, end, t, low) && low <= high
    ensures ValueAt(input, pos, end, t, high)
  {}

  lemma NoItemsAt(input: string, pos: nat, end: nat, height: nat)
    requires Delimited(input, pos, end, ']')
    ensures ItemsAt(input, pos, end, NoItems(input[pos..end - 1]), height)
  {
    DelimitedSlice(input, pos, end, ']');
  }

  lemma NoMembersAt(input: string, pos: nat, end: nat, height: nat)
    requires Delimited(input, pos, end, '}')
    ensures MembersAt(input, pos, end, NoMembers(input[pos..end - 1]), height)
  {
    DelimitedSlice(input, pos, end, '}');
  }

  lemma LastItemAt(input: string, pos: nat, v: nat, end: nat, value: Json, height: nat)
    requires ValueAt(input, pos, v, value, height) && Delimited(input, v, end, ']')
    ensures ItemsAt(input, pos, end, LastItem(value, input[v..end - 1]), height)
  {
    DelimitedSlice(input, v, end, ']');
    Join(input, pos, v, end);
  }

  lemma ItemAt(input: string, pos: nat, v: nat, comma: nat, end: nat, value: Json, rest: Items, height: nat)
    requires ValueAt(input, pos, v, value, height) && Delimited(input, v, comma, ',')
    requires ItemsAt(input, comma, end, rest, height) && !rest.NoItems?
    ensures ItemsAt(input, pos, end, Item(value, input[v..comma - 1], rest), height)
  {
    DelimitedSlice(input, v, comma, ',');
    Join(input, pos, v, end);
    Join(input, v, comma, end);
  }

  lemma LastMemberAt(input: string, pos: nat, name: nat, colon: nat, v: nat, end: nat,
                     pre: string, body: string, value: Json, height: nat)
    requires StringAt(input, pos, name, pre, body) && Delimited(input, name, colon, ':')
    requires ValueAt(input, colon, v, value, height) && Delimited(input, v, end, '}')
    ensures MembersAt(input, pos, end, LastMember(pre, body, input[name..colon - 1], value, input[v..end - 1]), height)
  {
    hide Quoted;
    DelimitedSlice(input, name, colon, ':');
    DelimitedSlice(input, v, end, '}');
    Join(input, pos, name, end);
    Join(input, name, colon, end);
    Join(input, colon, v, end);
  }

  lemma MemberAt(input: string, pos: nat, name: nat, colon: nat, v: nat, comma: nat, end: nat,
                 pre: string, body: string, value: Json, rest: Members, height: nat)
    requires StringAt(input, pos, name, pre, body) && Delimited(input, name, colon, ':')
    requires ValueAt(input, colon, v, value, height) && Delimited(input, v, comma, ',')
    requires MembersAt(input, comma, end, rest, height) && !rest.NoMembers?
    ensures MembersAt(input, pos, end, Member(pre, body, input[name..colon - 1], value, input[v..comma - 1], rest), height)
  {
    hide Quoted;
    DelimitedSlice(input, name, colon, ':');
    DelimitedSlice(input, v, comma, ',');
    Join(input, pos, name, end);
    Join(input, name, colon, end);
    Join(input, colon, v, end);
    Join(input, v, comma, end);
  }

  /** How the checker reads a value, by its first character. */
  lemma ValueStep(input: string, pos: nat, depth: nat)
    requires pos <= |input| && ValueEnd(input, pos, depth).Some?
    ensures depth < MAXIMUM_DEPTH && WhiteEnd(input, pos) < |input|
    ensures var p, end := WhiteEnd(input, pos), ValueEnd(input, pos, depth);
            if input[p] == '"' then end == StringEnd(input, p)
            else if input[p] == '{' then
              end == (if Expect(input, p + 1, '}').Some? then Expect(input, p + 1, '}') else MembersEnd(input, p + 1, depth))
            else if input[p] == '[' then
              end == (if Expect(input, p + 1, ']').Some? then Expect(input, p + 1, ']') else ItemsEnd(input, p + 1, depth))
            else end == (if WordEnd(input, p).Some? then WordEnd(input, p) else NumberEnd(input, p))
  {}

  /** How the checker reads an item, and what follows it. */
  lemma ItemsStep(input: string, pos: nat, depth: nat)
    requires pos <= |input| && depth < MAXIMUM_DEPTH && ItemsEnd(input, pos, depth).Some?
    ensures ValueEnd(input, pos, depth + 1).Some?
    ensures var v, end := ValueEnd(input, pos, depth + 1).value, ItemsEnd(input, pos, depth);
            if Expect(input, v, ']').Some? then end == Expect(input, v, ']')
            else Expect(input, v, ',').Some? && end == ItemsEnd(input, Expect(input, v, ',').value, depth)
  {}

  lemma MembersStep(input: string, pos: nat, depth: nat)
    requires pos <= |input| && depth < MAXIMUM_DEPTH && MembersEnd(input, pos, depth).Some?
    ensures StringEnd(input, pos).Some? && Expect(input, StringEnd(input, pos).value, ':').Some?
    ensures ValueEnd(input, Expect(input, StringEnd(input, pos).value, ':').value, depth + 1).Some?
    ensures var colon := Expect(input, StringEnd(input, pos).value, ':').value;
            var v, end := ValueEnd(input, colon, depth + 1).value, MembersEnd(input, pos, depth);
            if Expect(input, v, '}').Some? then end == Expect(input, v, '}')
            else Expect(input, v, ',').Some? && end == MembersEnd(input, Expect(input, v, ',').value, depth)
  {}

  // ---- soundness ---------------------------------------------------------------------------

  /** Every slice the checker accepts is one JSON value of admissible height. */
  lemma {:induction false} ValueSound(input: string, pos: nat, depth: nat) returns (t: Json)
    requires pos <= |input| && ValueEnd(input, pos, depth).Some?
    ensures depth < MAXIMUM_DEPTH
    ensures ValueAt(input, pos, ValueEnd(input, pos, depth).value, t, MAXIMUM_DEPTH - depth)
    decreases MAXIMUM_DEPTH - depth, 2, 0
  {
    ValueStep(input, pos, depth);
    var p, end := WhiteEnd(input, pos), ValueEnd(input, pos, depth).value;
    hide ValueEnd, ItemsEnd, MembersEnd, StringEnd, WordEnd, NumberEnd, WhiteEnd, Expect, ValueAt, Spaces;
    if input[p] == '"' {
      t := TextSound(input, pos, p);
      ValueHigher(input, pos, end, t, 1, MAXIMUM_DEPTH - depth);
    } else if input[p] == '{' {
      t := ObjectSound(input, pos, p, depth);
    } else if input[p] == '[' {
      t := ListSound(input, pos, p, depth);
    } else if WordEnd(input, p).Some? {
      t := WordSound(input, pos, p);
      ValueHigher(input, pos, end, t, 1, MAXIMUM_DEPTH - depth);
    } else {
      t := NumberSound(input, pos, p);
      ValueHigher(input, pos, end, t, 1, MAXIMUM_DEPTH - depth);
    }
  }

  lemma {:induction false} ListSound(input: string, pos: nat, p: nat, depth: nat) returns (t: Json)
    requires pos <= p < |input| && depth < MAXIMUM_DEPTH && Spaces(input[pos..p]) && input[p] == '['
    requires Expect(input, p + 1, ']').Some? || ItemsEnd(input, p + 1, depth).Some?
    ensures var end := if Expect(input, p + 1, ']').Some? then Expect(input, p + 1, ']') else ItemsEnd(input, p + 1, depth);
            ValueAt(input, pos, end.value, t, MAXIMUM_DEPTH - depth)
    decreases MAXIMUM_DEPTH - depth, 1, 0
  {
    hide ItemsEnd, Expect, ItemsAt, ValueAt, Delimited, Spaces;
    var items, height := NoItems(""), MAXIMUM_DEPTH - depth - 1;
    if Expect(input, p + 1, ']').Some? {
      var end := Expect(input, p + 1, ']').value;
      ExpectSound(input, p + 1, ']');
      NoItemsAt(input, p + 1, end, height);
      items := NoItems(input[p + 1..end - 1]);
      ListAt(input, pos, p, end, items, height);
    } else {
      items := ItemsSound(input, p + 1, depth);
      ListAt(input, pos, p, ItemsEnd(input, p + 1, depth).value, items, height);
    }
    t := List(input[pos..p], items);
  }

  lemma {:induction false} ObjectSound(input: string, pos: nat, p: nat, depth: nat) returns (t: Json)
    requires pos <= p < |input| && depth < MAXIMUM_DEPTH && Spaces(input[pos..p]) && input[p] == '{'
    requires Expect(input, p + 1, '}').Some? || MembersEnd(input, p + 1, depth).Some?
    ensures var end := if Expect(input, p + 1, '}').Some? then Expect(input, p + 1, '}') else MembersEnd(input, p + 1, depth);
            ValueAt(input, pos, end.value, t, MAXIMUM_DEPTH - depth)
    decreases MAXIMUM_DEPTH - depth, 1, 0
  {
    hide MembersEnd, Expect, MembersAt, ValueAt, Delimited, Spaces;
    var members, height := NoMembers(""), MAXIMUM_DEPTH - depth - 1;
    if Expect(input, p + 1, '}').Some? {
      var end := Expect(input, p + 1, '}').value;
      ExpectSound(input, p + 1, '}');
      NoMembersAt(input, p + 1, end, height);
      members := NoMembers(input[p + 1..end - 1]);
      ObjectAt(input, pos, p, end, members, height);
    } else {
      members := MembersSound(input, p + 1, depth);
      ObjectAt(input, pos, p, MembersEnd(input, p + 1, depth).value, members, height);
    }
    t := Object(input[pos..p], members);
  }

  lemma {:induction false} ItemsSound(input: string, pos: nat, depth: nat) returns (t: Items)
    requires pos <= |input| && depth < MAXIMUM_DEPTH && ItemsEnd(input, pos, depth).Some?
    ensures ItemsAt(input, pos, ItemsEnd(input, pos, depth).value, t, MAXIMUM_DEPTH - depth - 1) && !t.NoItems?
    decreases MAXIMUM_DEPTH - depth, 0, |input| - pos
  {
    ItemsStep(input, pos, depth);
    var v, end, height := ValueEnd(input, pos, depth + 1).value, ItemsEnd(input, pos, depth).value, MAXIMUM_DEPTH - depth - 1;
    hide ValueEnd, ItemsEnd, Expect, ItemsAt, ValueAt, Delimited;
    var value := ValueSound(input, pos, depth + 1);
    if Expect(input, v, ']').Some? {
      ExpectSound(input, v, ']');
      LastItemAt(input, pos, v, end, value, height);
      t := LastItem(value, input[v..end - 1]);
    } else {
      var comma := Expect(input, v, ',').value;
      ExpectSound(input, v, ',');
      var rest := ItemsSound(input, comma, depth);
      ItemAt(input, pos, v, comma, end, value, rest, height);
      t := Item(value, input[v..comma - 1], rest);
    }
  }

  lemma {:induction false} MembersSound(input: string, pos: nat, depth: nat) returns (t: Members)
    requires pos <= |input| && depth < MAXIMUM_DEPTH && MembersEnd(input, pos, depth).Some?
    ensures MembersAt(input, pos, MembersEnd(input, pos, depth).value, t, MAXIMUM_DEPTH - depth - 1) && !t.NoMembers?
    decreases MAXIMUM_DEPTH - depth, 0, |input| - pos
  {
    MembersStep(input, pos, depth);
    var name := StringEnd(input, pos).value;
    var colon, end, height := Expect(input, name, ':').value, MembersEnd(input, pos, depth).value, MAXIMUM_DEPTH - depth - 1;
    var v := ValueEnd(input, colon, depth + 1).value;
    hide ValueEnd, MembersEnd, StringEnd, Expect, MembersAt, ValueAt, StringAt, Delimited;
    var pre, body := StringSound(input, pos);
    ExpectSound(input, name, ':');
    var value := ValueSound(input, colon, depth + 1);
    if Expect(input, v, '}').Some? {
      ExpectSound(input, v, '}');
      LastMemberAt(input, pos, name, colon, v, end, pre, body, value, height);
      t := LastMember(pre, body, input[name..colon - 1], value, input[v..end - 1]);
    } else {
      var comma := Expect(input, v, ',').value;
      ExpectSound(input, v, ',');
      var rest := MembersSound(input, comma, depth);
      MemberAt(input, pos, name, colon, v, comma, end, pre, body, value, rest, height);
      t := Member(pre, body, input[name..colon - 1], value, input[v..comma - 1], rest);
    }
  }

  // ---- completeness of tokens --------------------------------------------------------------

  /** Where a value may end: the end of input, whitespace or a closing delimiter. */
  predicate Terminated(input: string, pos: nat) {
    pos <= |input| && (pos < |input| ==> IsWhite(input[pos]) || input[pos] == ',' || input[pos] == ']' || input[pos] == '}')
  }

  lemma SplitAt(input: string, from: nat, end: nat, a: string, b: string) returns (mid: nat)
    requires from <= end <= |input| && input[from..end] == a + b
    ensures from <= mid <= end && mid == from + |a| && input[from..mid] == a && input[mid..end] == b
  {
    mid := from + |a|;
    assert input[from..mid] == input[from..end][..|a|];
    assert input[mid..end] == input[from..end][|a|..];
  }

  lemma {:induction false} WhiteComplete(input: string, pos: nat, p: nat)
    requires pos <= p <= |input| && Spaces(input[pos..p]) && (p < |input| ==> !IsWhite(input[p]))
    ensures WhiteEnd(input, pos) == p
    decreases p - pos
  {
    if pos < p {
      assert input[pos] == input[pos..p][0];
      assert input[pos + 1..p] == input[pos..p][1..];
      WhiteComplete(input, pos + 1, p);
    }
  }

  /** A delimiter that stands there is read, and no other. */
  lemma ExpectComplete(input: string, from: nat, end: nat, c: char, d: char)
    requires Delimited(input, from, end, c) && !IsWhite(c)
    ensures Expect(input, from, d) == if d == c then Some(end) else None
  {
    WhiteComplete(input, from, end - 1);
  }

  lemma DelimitedTerminates(input: string, from: nat, end: nat, c: char)
    requires Delimited(input, from, end, c) && (c == ',' || c == ']' || c == '}')
    ensures Terminated(input, from)
  {
    if from < end - 1 {
      assert input[from] == input[from..end - 1][0];
    }
  }

  lemma GapDelimits(input: string, from: nat, end: nat, gap: string, c: char)
    requires from <= end <= |input| && input[from..end] == gap + [c] && Spaces(gap)
    ensures Delimited(input, from, end, c) && input[from..end - 1] == gap
  {
    var mid := SplitAt(input, from, end, gap, [c]);
    assert input[mid] == input[mid..end][0];
  }

  lemma {:induction false} BodyComplete(input: string, pos: nat, end: nat)
    requires pos < end <= |input| && StringBody(input[pos..end - 1]) && input[end - 1] == '"'
    ensures BodyEnd(input, pos) == Some(end)
    decreases end - pos
  {
    var body := input[pos..end - 1];
    if pos < end - 1 {
      assert body[0] == input[pos];
      var next := if body[0] != '\\' then pos + 1 else if body[1] != 'u' then pos + 2 else pos + 6;
      assert |body| > 1 ==> body[1] == input[pos + 1];
      assert body[next - pos..] == input[next..end - 1];
      if body[0] == '\\' && body[1] == 'u' {
        assert forall k :: 2 <= k < 6 ==> body[k] == input[pos + k];
        assert forall k :: pos + 2 <= k < pos + 6 ==> input[k] == body[k - pos];
      }
      BodyComplete(input, next, end);
    }
  }

  lemma StringComplete(input: string, from: nat, end: nat, pre: string, body: string)
    requires StringAt(input, from, end, pre, body)
    ensures StringEnd(input, from) == Some(end) && from < end
  {
    hide BodyEnd, Expect, StringBody, Spaces;
    var quote := SplitAt(input, from, end, pre, Quoted(body));
    assert Quoted(body) == ['"'] + (body + ['"']);
    var open := SplitAt(input, quote, end, ['"'], body + ['"']);
    var close := SplitAt(input, open, end, body, ['"']);
    assert input[quote] == input[quote..open][0] && input[close] == input[close..end][0];
    assert Delimited(input, from, open, '"');
    ExpectComplete(input, from, open, '"', '"');
    BodyComplete(input, open, end);
  }

  lemma {:induction false} DigitsComplete(input: string, pos: nat, end: nat)
    requires pos <= end <= |input| && Digits(input[pos..end]) && (end < |input| ==> !IsDigit(input[end]))
    ensures DigitsEnd(input, pos) == end
    decreases end - pos
  {
    if pos < end {
      assert input[pos] == input[pos..end][0];
      assert input[pos + 1..end] == input[pos..end][1..];
      DigitsComplete(input, pos + 1, end);
    }
  }

  lemma IntegerComplete(input: string, pos: nat, end: nat)
    requires pos <= end <= |input| && IsInteger(input[pos..end]) && (end < |input| ==> !IsDigit(input[end]))
    ensures IntegerEnd(input, pos) == Some(end) && IsDigit(input[pos])
  {
    assert input[pos] == input[pos..end][0];
    if input[pos] != '0' {
      DigitsComplete(input, pos, end);
    }
  }

  lemma FractionComplete(input: string, pos: nat, end: nat)
    requires pos <= end <= |input| && IsFraction(input[pos..end])
    requires end < |input| ==> !IsDigit(input[end]) && (end == pos ==> input[end] != '.')
    ensures FractionEnd(input, pos) == Some(end)
    ensures pos < end ==> input[pos] == '.'
  {
    if pos < end {
      assert input[pos] == input[pos..end][0];
      assert input[pos + 1..end] == input[pos..end][1..];
      DigitsComplete(input, pos + 1, end);
    }
  }

  lemma ExponentComplete(input: string, pos: nat, end: nat)
    requires pos <= end <= |input| && IsExponent(input[pos..end])
    requires end < |input| ==> !IsDigit(input[end]) && input[end] != 'e' && input[end] != 'E'
    ensures ExponentEnd(input, pos) == Some(end)
    ensures pos < end ==> input[pos] == 'e' || input[pos] == 'E'
  {
    if pos < end {
      var tail := input[pos..end][1..];
      assert input[pos] == input[pos..end][0];
      assert tail == input[pos + 1..end] && tail != "";
      assert tail[0] == input[pos + 1];
      var from := if input[pos + 1] == '+' || input[pos + 1] == '-' then pos + 2 else pos + 1;
      assert AfterSign(tail) == input[from..end];
      DigitsComplete(input, from, end);
    }
  }

  /** A number before a place where a value may end is read whole. */
  lemma NumberComplete(input: string, pos: nat, s: nat, i: nat, f: nat, e: nat)
    requires pos <= s <= i <= f <= e <= |input| && Terminated(input, e)
    requires IsSign(input[pos..s]) && IsInteger(input[s..i]) && IsFraction(input[i..f]) && IsExponent(input[f..e])
    ensures NumberEnd(input, pos) == Some(e) && pos < e && (input[pos] == '-' || IsDigit(input[pos]))
  {
    hide IntegerEnd, FractionEnd, ExponentEnd, IsInteger, IsFraction, IsExponent;
    ExponentComplete(input, f, e);
    FractionComplete(input, i, f);
    IntegerComplete(input, s, i);
    if pos < s {
      assert input[pos] == input[pos..s][0];
    }
    assert SignEnd(input, pos) == s;
  }

  // ---- completeness ------------------------------------------------------------------------

  /** How the checker goes on from a value's first character. */
  lemma ValueBegins(input: string, pos: nat, p: nat, depth: nat)
    requires pos <= p < |input| && Spaces(input[pos..p]) && !IsWhite(input[p]) && depth < MAXIMUM_DEPTH
    ensures ValueEnd(input, pos, depth) ==
            if input[p] == '"' then StringEnd(input, p)
            else if input[p] == '{' then
              (if Expect(input, p + 1, '}').Some? then Expect(input, p + 1, '}') else MembersEnd(input, p + 1, depth))
            else if input[p] == '[' then
              (if Expect(input, p + 1, ']').Some? then Expect(input, p + 1, ']') else ItemsEnd(input, p + 1, depth))
            else if WordEnd(input, p).Some? then WordEnd(input, p) else NumberEnd(input, p)
  {
    WhiteComplete(input, pos, p);
  }

  lemma StandsFirst(input: string, p: nat, s: string)
    requires p < |input| && s != ""
    ensures Stands(input, p, s) ==> input[p] == s[0]
  {
    if Stands(input, p, s) {
      assert input[p..p + |s|][0] == input[p];
    }
  }

  lemma WordComplete(input: string, p: nat, end: nat)
    requires p <= end <= |input| && (input[p..end] == "true" || input[p..end] == "false" || input[p..end] == "null")
    ensures p < end && WordEnd(input, p) == Some(end)
    ensures !IsWhite(input[p]) && input[p] != '"' && input[p] != '{' && input[p] != '['
  {
    assert input[p] == input[p..end][0];
    StandsFirst(input, p, "true");
    StandsFirst(input, p, "false");
  }

  lemma NoWord(input: string, p: nat)
    requires p < |input| && (input[p] == '-' || IsDigit(input[p]))
    ensures WordEnd(input, p) == None
  {
    StandsFirst(input, p, "true");
    StandsFirst(input, p, "false");
    StandsFirst(input, p, "null");
  }

  lemma ScalarComplete(input: string, pos: nat, end: nat, t: Json, depth: nat)
    requires depth < MAXIMUM_DEPTH && ValueAt(input, pos, end, t, MAXIMUM_DEPTH - depth) && Terminated(input, end)
    requires t.Word? || t.Number? || t.Text?
    ensures ValueEnd(input, pos, depth) == Some(end)
  {
    hide ValueEnd, StringEnd, WordEnd, NumberEnd, Spaces, StringBody, IsInteger, IsFraction, IsExponent, IsSign, Terminated;
    match t
    case Word(pre, word) =>
      var p := SplitAt(input, pos, end, pre, word);
      WordComplete(input, p, end);
      ValueBegins(input, pos, p, depth);
    case Number(pre, sign, integer, fraction, exponent) =>
      var p := SplitAt(input, pos, end, pre, sign + (integer + (fraction + exponent)));
      var s := SplitAt(input, p, end, sign, integer + (fraction + exponent));
      var i := SplitAt(input, s, end, integer, fraction + exponent);
      var f := SplitAt(input, i, end, fraction, exponent);
      NumberComplete(input, p, s, i, f, end);
      NoWord(input, p);
      ValueBegins(input, pos, p, depth);
    case Text(pre, body) =>
      var p := SplitAt(input, pos, end, pre, Quoted(body));
      NoSpaces();
      assert "" + Quoted(body) == Quoted(body);
      StringComplete(input, p, end, "", body);
      assert input[p] == input[p..end][0];
      ValueBegins(input, pos, p, depth);
  }

  lemma NoSpaces()
    ensures Spaces("")
  {}

  /**
   * Every rendering of a value of admissible height, before a place where a value may end, is
   * accepted with the cursor exactly at its end.
   */
  lemma {:induction false} ValueComplete(input: string, pos: nat, end: nat, t: Json, depth: nat)
    requires depth < MAXIMUM_DEPTH && ValueAt(input, pos, end, t, MAXIMUM_DEPTH - depth) && Terminated(input, end)
    ensures ValueEnd(input, pos, depth) == Some(end)
    decreases t, 0
  {
    match t
    case List(pre, items) =>
      ListParts(pre, items);
      hide ValueEnd, ItemsEnd, Expect, Spaces, Render, RenderItems, WellFormed, WellFormedItems, Height, ItemsHeight, Terminated;
      var p := Open(input, pos, end, pre, '[', RenderItems(items));
      assert ItemsAt(input, p + 1, end, items, MAXIMUM_DEPTH - depth - 1);
      hide ItemsAt;
      ValueBegins(input, pos, p, depth);
      ItemsComplete(input, p + 1, end, items, depth);
    case Object(pre, members) =>
      ObjectParts(pre, members);
      hide ValueEnd, MembersEnd, Expect, Spaces, Render, RenderMembers, WellFormed, WellFormedMembers, Height, MembersHeight,
           Terminated;
      var p := Open(input, pos, end, pre, '{', RenderMembers(members));
      assert MembersAt(input, p + 1, end, members, MAXIMUM_DEPTH - depth - 1);
      hide MembersAt;
      ValueBegins(input, pos, p, depth);
      MembersComplete(input, p + 1, end, members, depth);
    case _ => ScalarComplete(input, pos, end, t, depth);
  }

  lemma Open(input: string, pos: nat, end: nat, pre: string, open: char, body: string) returns (p: nat)
    requires pos <= end <= |input| && input[pos..end] == pre + ([open] + body)
    ensures pos <= p < end && input[pos..p] == pre && input[p] == open && input[p + 1..end] == body
  {
    p := SplitAt(input, pos, end, pre, [open] + body);
    var next := SplitAt(input, p, end, [open], body);
    assert input[p] == input[p..next][0];
  }

  lemma ListParts(pre: string, items: Items)
    requires WellFormed(List(pre, items))
    ensures Spaces(pre) && WellFormedItems(items) && Height(List(pre, items)) == 1 + ItemsHeight(items)
    ensures Render(List(pre, items)) == pre + ("[" + RenderItems(items))
  {}

  lemma ObjectParts(pre: string, members: Members)
    requires WellFormed(Object(pre, members))
    ensures Spaces(pre) && WellFormedMembers(members) && Height(Object(pre, members)) == 1 + MembersHeight(members)
    ensures Render(Object(pre, members)) == pre + ("{" + RenderMembers(members))
  {}

  lemma NextItem(input: string, pos: nat, v: nat, depth: nat)
    requires pos <= v <= |input| && depth < MAXIMUM_DEPTH && ValueEnd(input, pos, depth + 1) == Some(v)
    ensures ItemsEnd(input, pos, depth) ==
            if Expect(input, v, ']').Some? then Expect(input, v, ']')
            else if Expect(input, v, ',').None? then None
            else ItemsEnd(input, Expect(input, v, ',').value, depth)
  {}

  lemma NextMember(input: string, pos: nat, name: nat, colon: nat, v: nat, depth: nat)
    requires pos <= name <= colon <= v <= |input| && depth < MAXIMUM_DEPTH && StringEnd(input, pos) == Some(name)
    requires Expect(input, name, ':') == Some(colon) && ValueEnd(input, colon, depth + 1) == Some(v)
    ensures MembersEnd(input, pos, depth) ==
            if Expect(input, v, '}').Some? then Expect(input, v, '}')
            else if Expect(input, v, ',').None? then None
            else MembersEnd(input, Expect(input, v, ',').value, depth)
  {}

  /** An array body is read to its closing bracket; a body with items does not start with one. */
  lemma {:induction false} ItemsComplete(input: string, pos: nat, end: nat, t: Items, depth: nat)
    requires depth < MAXIMUM_DEPTH && ItemsAt(input, pos, end, t, MAXIMUM_DEPTH - depth - 1)
    ensures t.NoItems? ==> Expect(input, pos, ']') == Some(end)
    ensures !t.NoItems? ==> Expect(input, pos, ']') == None && ItemsEnd(input, pos, depth) == Some(end)
    decreases t, 0
  {
    ItemsParts(t);
    hide RenderItems, WellFormedItems, ItemsHeight, Render, WellFormed, Height, ValueEnd, ItemsEnd, Expect, Spaces;
    match t
    case NoItems(gap) =>
      GapDelimits(input, pos, end, gap, ']');
      ExpectComplete(input, pos, end, ']', ']');
    case LastItem(value, gap) =>
      var v := SplitAt(input, pos, end, Render(value), gap + "]");
      GapDelimits(input, v, end, gap, ']');
      ItemRead(input, pos, v, value, depth);
      ReadItem(input, pos, v, end, value, ']', depth);
    case Item(value, gap, rest) =>
      var v := SplitAt(input, pos, end, Render(value), (gap + ",") + RenderItems(rest));
      var comma := SplitAt(input, v, end, gap + ",", RenderItems(rest));
      GapDelimits(input, v, comma, gap, ',');
      ItemRead(input, pos, v, value, depth);
      ReadItem(input, pos, v, comma, value, ',', depth);
      ItemsComplete(input, comma, end, rest, depth);
  }

  /** One item and the delimiter after it. */
  lemma {:induction false} ReadItem(input: string, pos: nat, v: nat, next: nat, value: Json, delimiter: char, depth: nat)
    requires depth + 1 < MAXIMUM_DEPTH && pos <= v <= |input|
    requires ValueAt(input, pos, v, value, MAXIMUM_DEPTH - depth - 1)
    requires Delimited(input, v, next, delimiter) && (delimiter == ']' || delimiter == ',')
    ensures ItemsEnd(input, pos, depth) == if delimiter == ']' then Some(next) else ItemsEnd(input, next, depth)
    decreases value, 1
  {
    hide ValueEnd, ItemsEnd, Expect, ValueAt, Delimited;
    assert next <= |input| by { DelimitedInside(input, v, next, delimiter); }
    DelimitedTerminates(input, v, next, delimiter);
    ExpectComplete(input, v, next, delimiter, ']');
    ExpectComplete(input, v, next, delimiter, ',');
    ValueComplete(input, pos, v, value, depth + 1);
    NextItem(input, pos, v, depth);
  }

  lemma ItemsParts(t: Items)
    requires WellFormedItems(t)
    ensures match t
            case NoItems(gap) => Spaces(gap) && RenderItems(t) == gap + "]"
            case LastItem(value, gap) =>
              && WellFormed(value) && Spaces(gap) && ItemsHeight(t) == Height(value)
              && RenderItems(t) == Render(value) + (gap + "]")
            case Item(value, gap, rest) =>
              && WellFormed(value) && Spaces(gap) && WellFormedItems(rest) && !rest.NoItems?
              && ItemsHeight(t) == Max(Height(value), ItemsHeight(rest))
              && RenderItems(t) == Render(value) + ((gap + ",") + RenderItems(rest))
  {}

  /** A value's rendering does not start with a closing bracket, and a nested one has depth to spare. */
  lemma ItemRead(input: string, pos: nat, v: nat, value: Json, depth: nat)
    requires depth < MAXIMUM_DEPTH && ValueAt(input, pos, v, value, MAXIMUM_DEPTH - depth - 1)
    ensures depth + 1 < MAXIMUM_DEPTH && Expect(input, pos, ']') == None
  {
    var core := Core(value);
    CoreStarts(value);
    hide Render, WellFormed, Core;
    var p := SplitAt(input, pos, v, value.pre, core);
    assert input[p] == input[p..v][0];
    WhiteComplete(input, pos, p);
  }

  /** A rendering without its leading whitespace. */
  function Core(t: Json): string {
    match t
    case Word(_, word) => word
    case Number(_, sign, integer, fraction, exponent) => sign + (integer + (fraction + exponent))
    case Text(_, body) => Quoted(body)
    case List(_, items) => "[" + RenderItems(items)
    case Object(_, members) => "{" + RenderMembers(members)
  }

  lemma CoreStarts(t: Json)
    requires WellFormed(t)
    ensures Render(t) == t.pre + Core(t) && Spaces(t.pre)
    ensures Core(t) != "" && !IsWhite(Core(t)[0]) && Core(t)[0] != ']' && Core(t)[0] != '}'
  {
    hide RenderItems, RenderMembers, WellFormedItems, WellFormedMembers, StringBody;
    match t
    case Number(_, sign, integer, fraction, exponent) =>
      assert integer != "" && IsDigit(integer[0]);
      assert sign == "" ==> Core(t)[0] == integer[0];
    case _ =>
  }

  /** An object body is read to its closing brace; a body with members does not start with one. */
  lemma {:induction false} MembersComplete(input: string, pos: nat, end: nat, t: Members, depth: nat)
    requires depth < MAXIMUM_DEPTH && MembersAt(input, pos, end, t, MAXIMUM_DEPTH - depth - 1)
    ensures t.NoMembers? ==> Expect(input, pos, '}') == Some(end)
    ensures !t.NoMembers? ==> Expect(input, pos, '}') == None && MembersEnd(input, pos, depth) == Some(end)
    decreases t, 0
  {
    MembersParts(t);
    hide RenderMembers, WellFormedMembers, MembersHeight, Render, WellFormed, Height, ValueEnd, MembersEnd, Expect, StringEnd, Quoted,
         Spaces, StringBody;
    match t
    case NoMembers(gap) =>
      GapDelimits(input, pos, end, gap, '}');
      ExpectComplete(input, pos, end, '}', '}');
    case LastMember(pre, name, colon, value, gap) =>
      var n, c, v := MemberSplit(input, pos, end, pre, name, colon, value, gap + "}", depth);
      GapDelimits(input, v, end, gap, '}');
      ReadMember(input, pos, n, c, v, end, value, '}', depth);
    case Member(pre, name, colon, value, gap, rest) =>
      var n, c, v := MemberSplit(input, pos, end, pre, name, colon, value, (gap + ",") + RenderMembers(rest), depth);
      var comma := SplitAt(input, v, end, gap + ",", RenderMembers(rest));
      GapDelimits(input, v, comma, gap, ',');
      ReadMember(input, pos, n, c, v, comma, value, ',', depth);
      MembersComplete(input, comma, end, rest, depth);
  }

  /** One member's value and the delimiter after it. */
  lemma {:induction false} ReadMember(input: string, pos: nat, n: nat, c: nat, v: nat, next: nat, value: Json, delimiter: char,
                                      depth: nat)
    requires depth + 1 < MAXIMUM_DEPTH && pos <= n <= c <= v <= |input|
    requires StringEnd(input, pos) == Some(n) && Expect(input, n, ':') == Some(c)
    requires ValueAt(input, c, v, value, MAXIMUM_DEPTH - depth - 1)
    requires Delimited(input, v, next, delimiter) && (delimiter == '}' || delimiter == ',')
    ensures MembersEnd(input, pos, depth) == if delimiter == '}' then Some(next) else MembersEnd(input, next, depth)
    decreases value, 1
  {
    hide ValueEnd, MembersEnd, Expect, StringEnd, ValueAt, Delimited;
    assert next <= |input| by { DelimitedInside(input, v, next, delimiter); }
    DelimitedTerminates(input, v, next, delimiter);
    ExpectComplete(input, v, next, delimiter, '}');
    ExpectComplete(input, v, next, delimiter, ',');
    ValueComplete(input, c, v, value, depth + 1);
    NextMember(input, pos, n, c, v, depth);
  }

  lemma DelimitedInside(input: string, from: nat, end: nat, c: char)
    requires Delimited(input, from, end, c)
    ensures end <= |input|
  {}

  lemma MembersParts(t: Members)
    requires WellFormedMembers(t)
    ensures match t
            case NoMembers(gap) => Spaces(gap) && RenderMembers(t) == gap + "}"
            case LastMember(pre, name, colon, value, gap) =>
              && Spaces(pre) && StringBody(name) && Spaces(colon) && WellFormed(value) && Spaces(gap)
              && MembersHeight(t) == Height(value)
              && RenderMembers(t) == (pre + Quoted(name)) + ((colon + ":") + (Render(value) + (gap + "}")))
            case Member(pre, name, colon, value, gap, rest) =>
              && Spaces(pre) && StringBody(name) && Spaces(colon) && WellFormed(value) && Spaces(gap)
              && WellFormedMembers(rest) && !rest.NoMembers?
              && MembersHeight(t) == Max(Height(value), MembersHeight(rest))
              && RenderMembers(t) ==
                 (pre + Quoted(name)) + ((colon + ":") + (Render(value) + ((gap + ",") + RenderMembers(rest))))
  {}

  /** The name, the colon and the value of one member, read in turn. */
  lemma MemberSplit(input: string, pos: nat, end: nat, pre: string, name: string, colon: string, value: Json, tail: string,
                    depth: nat)
    returns (n: nat, c: nat, v: nat)
    requires depth < MAXIMUM_DEPTH && pos <= end <= |input|
    requires Spaces(pre) && StringBody(name) && Spaces(colon) && WellFormed(value) && Height(value) + depth + 1 <= MAXIMUM_DEPTH
    requires input[pos..end] == (pre + Quoted(name)) + ((colon + ":") + (Render(value) + tail))
    ensures pos <= n <= c <= v <= end && StringEnd(input, pos) == Some(n) && Expect(input, pos, '}') == None
    ensures Expect(input, n, ':') == Some(c) && input[v..end] == tail && depth + 1 < MAXIMUM_DEPTH
    ensures ValueAt(input, c, v, value, MAXIMUM_DEPTH - depth - 1)
  {
    hide Render, WellFormed, StringBody, StringEnd, Expect, Spaces;
    n := SplitAt(input, pos, end, pre + Quoted(name), (colon + ":") + (Render(value) + tail));
    StringComplete(input, pos, n, pre, name);
    QuoteNotBrace(input, pos, n, pre, name);
    c := SplitAt(input, n, end, colon + ":", Render(value) + tail);
    GapDelimits(input, n, c, colon, ':');
    ExpectComplete(input, n, c, ':', ':');
    v := SplitAt(input, c, end, Render(value), tail);
  }

  lemma QuoteNotBrace(input: string, pos: nat, end: nat, pre: string, name: string)
    requires StringAt(input, pos, end, pre, name)
    ensures Expect(input, pos, '}') == None
  {
    var quote := SplitAt(input, pos, end, pre, Quoted(name));
    assert input[quote] == input[quote..end][0];
    WhiteComplete(input, pos, quote);
  }

  // ---- whole documents ---------------------------------------------------------------------

  /** The checker accepts the input as one value with nothing but whitespace after it. */
  predicate Accepted(input: string) {
    ValueEnd(input, 0, 0).Some? && WhiteEnd(input, ValueEnd(input, 0, 0).value) == |input|
  }

  /** The input is one JSON value of height at most 16, and whitespace. */
  ghost predicate IsDocument(input: string) {
    exists t, trailing :: Document(t, trailing, input)
  }

  ghost predicate Document(t: Json, trailing: string, input: string) {
    WellFormed(t) && Height(t) <= 16 && Spaces(trailing) && input == Render(t) + trailing
  }

  /** The accepted inputs are exactly the JSON documents of height at most 16. */
  lemma AcceptedExactly(input: string)
    ensures Accepted(input) <==> IsDocument(input)
  {
    hide ValueEnd, WhiteEnd, WellFormed, Render, Height, Spaces;
    if Accepted(input) {
      var end := ValueEnd(input, 0, 0).value;
      var t := ValueSound(input, 0, 0);
      Join(input, 0, end, |input|);
      assert input == input[0..|input|];
      assert Document(t, input[end..], input);
    }
    if IsDocument(input) {
      var t, trailing :| Document(t, trailing, input);
      assert input == input[0..|input|];
      var end := SplitAt(input, 0, |input|, Render(t), trailing);
      assert Terminated(input, end) by {
        SpacesTerminate(input, end, trailing);
      }
      ValueComplete(input, 0, end, t, 0);
      WhiteComplete(input, end, |input|);
    }
  }

  lemma SpacesTerminate(input: string, pos: nat, trailing: string)
    requires pos <= |input| && input[pos..|input|] == trailing && Spaces(trailing)
    ensures Terminated(input, pos)
  {
    if pos < |input| {
      assert input[pos] == trailing[0];
    }
  }
}
