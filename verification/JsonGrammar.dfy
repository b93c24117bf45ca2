/**
 * JSON values as RFC 8259 writes them (sections 2 to 7), with the whitespace of one rendering kept,
 * and the token rules of strings and numbers. A char stands for one input byte.
 */
module JsonGrammar {

  predicate IsWhite(c: char) {
    c == ' ' || c == '\t' || c == '\r' || c == '\n'
  }

  predicate Spaces(s: string) {
    forall k :: 0 <= k < |s| ==> IsWhite(s[k])
  }

  predicate IsDigit(c: char) {
    '0' <= c <= '9'
  }

  predicate Digits(s: string) {
    forall k :: 0 <= k < |s| ==> IsDigit(s[k])
  }

  predicate IsHexDigit(c: char) {
    IsDigit(c) || 'A' <= c <= 'F' || 'a' <= c <= 'f'
  }

  /** One-byte escape codes after a backslash. */
  predicate IsSimpleEscape(c: char) {
    c == '"' || c == '\\' || c == '/' || c == 'b' || c == 'f' || c == 'n' || c == 'r' || c == 't'
  }

  /** The character classes, as sections 2, 6 and 7 list them. */
  lemma CharacterClasses(c: char)
    ensures IsWhite(c) <==> c as int in {0x20, 0x09, 0x0A, 0x0D}
    ensures IsDigit(c) <==> c in "0123456789"
    ensures IsHexDigit(c) <==> c in "0123456789ABCDEFabcdef"
    ensures IsSimpleEscape(c) <==> c in "\"\\/bfnrt"
  {
    if IsDigit(c) {
      var k := c as int - '0' as int;
      assert "0123456789"[k] == c;
    }
    if IsHexDigit(c) {
      var k := if IsDigit(c) then c as int - '0' as int
               else if 'A' <= c <= 'F' then 10 + c as int - 'A' as int else 16 + c as int - 'a' as int;
      assert "0123456789ABCDEFabcdef"[k] == c;
    }
  }

  /** The characters between the quotes of a string (section 7). */
  predicate StringBody(s: string) {
    if s == "" then true
    else if s[0] == '"' || s[0] < ' ' then false
    else if s[0] != '\\' then StringBody(s[1..])
    else if |s| < 2 then false
    else if s[1] == 'u' then |s| >= 6 && (forall k :: 2 <= k < 6 ==> IsHexDigit(s[k])) && StringBody(s[6..])
    else IsSimpleEscape(s[1]) && StringBody(s[2..])
  }

  /** The parts of a number (section 6). */
  predicate IsSign(s: string) {
    s == "" || s == "-"
  }

  predicate IsInteger(s: string) {
    s == "0" || (s != "" && Digits(s) && s[0] != '0')
  }

  predicate IsFraction(s: string) {
    s == "" || (|s| > 1 && s[0] == '.' && Digits(s[1..]))
  }

  function AfterSign(s: string): string {
    if s != "" && (s[0] == '+' || s[0] == '-') then s[1..] else s
  }

  predicate IsExponent(s: string) {
    s == "" || ((s[0] == 'e' || s[0] == 'E') && AfterSign(s[1..]) != "" && Digits(AfterSign(s[1..])))
  }

  /** One value, with the whitespace before it. */
  datatype Json =
    | Word(pre: string, word: string)
    | Number(pre: string, sign: string, integer: string, fraction: string, exponent: string)
    | Text(pre: string, body: string)
    | List(pre: string, items: Items)
    | Object(pre: string, members: Members)

  /** What follows the opening bracket of an array; gap is the whitespace before a delimiter. */
  datatype Items =
    | NoItems(gap: string)
    | LastItem(value: Json, gap: string)
    | Item(value: Json, gap: string, rest: Items)

  /** What follows the opening brace of an object. */
  datatype Members =
    | NoMembers(gap: string)
    | LastMember(pre: string, name: string, colon: string, value: Json, gap: string)
    | Member(pre: string, name: string, colon: string, value: Json, gap: string, rest: Members)

  predicate WellFormed(t: Json) {
    Spaces(t.pre)
    && match t
       case Word(_, word) => word == "true" || word == "false" || word == "null"
       case Number(_, sign, integer, fraction, exponent) =>
         IsSign(sign) && IsInteger(integer) && IsFraction(fraction) && IsExponent(exponent)
       case Text(_, body) => StringBody(body)
       case List(_, items) => WellFormedItems(items)
       case Object(_, members) => WellFormedMembers(members)
  }

  predicate WellFormedItems(t: Items) {
    Spaces(t.gap)
    && match t
       case NoItems(_) => true
       case LastItem(value, _) => WellFormed(value)
       case Item(value, _, rest) => WellFormed(value) && !rest.NoItems? && WellFormedItems(rest)
  }

  predicate WellFormedMembers(t: Members) {
    Spaces(t.gap)
    && match t
       case NoMembers(_) => true
       case LastMember(pre, name, colon, value, _) =>
         Spaces(pre) && StringBody(name) && Spaces(colon) && WellFormed(value)
       case Member(pre, name, colon, value, _, rest) =>
         Spaces(pre) && StringBody(name) && Spaces(colon) && WellFormed(value)
         && !rest.NoMembers? && WellFormedMembers(rest)
  }

  function Max(a: nat, b: nat): nat { if a < b then b else a }

  /** Nesting height: one for a scalar or an empty container. */
  function Height(t: Json): (h: nat)
    ensures h > 0
  {
    match t
    case List(_, items) => 1 + ItemsHeight(items)
    case Object(_, members) => 1 + MembersHeight(members)
    case _ => 1
  }

  function ItemsHeight(t: Items): nat {
    match t
    case NoItems(_) => 0
    case LastItem(value, _) => Height(value)
    case Item(value, _, rest) => Max(Height(value), ItemsHeight(rest))
  }

  function MembersHeight(t: Members): nat {
    match t
    case NoMembers(_) => 0
    case LastMember(_, _, _, value, _) => Height(value)
    case Member(_, _, _, value, _, rest) => Max(Height(value), MembersHeight(rest))
  }

  function Quoted(body: string): string { "\"" + body + "\"" }

  function Render(t: Json): string {
    t.pre
    + match t
      case Word(_, word) => word
      case Number(_, sign, integer, fraction, exponent) => sign + (integer + (fraction + exponent))
      case Text(_, body) => Quoted(body)
      case List(_, items) => "[" + RenderItems(items)
      case Object(_, members) => "{" + RenderMembers(members)
  }

  function RenderItems(t: Items): string {
    match t
    case NoItems(gap) => gap + "]"
    case LastItem(value, gap) => Render(value) + (gap + "]")
    case Item(value, gap, rest) => Render(value) + ((gap + ",") + RenderItems(rest))
  }

  function RenderMembers(t: Members): string {
    match t
    case NoMembers(gap) => gap + "}"
    case LastMember(pre, name, colon, value, gap) =>
      (pre + Quoted(name)) + ((colon + ":") + (Render(value) + (gap + "}")))
    case Member(pre, name, colon, value, gap, rest) =>
      (pre + Quoted(name)) + ((colon + ":") + (Render(value) + ((gap + ",") + RenderMembers(rest))))
  }
}
