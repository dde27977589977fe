/** JSON values (numbers restricted to integers) and `JSON.stringify` as
    ECMA-262 section 25.5.2 defines it, both without a gap (compact) and
    with a gap of spaces (pretty). The printed text follows the grammar of
    RFC 8259. */
module Json {
  import opened Strings

  datatype Json =
    | Null
    | Bool(b: bool)
    | Num(n: int)
    | Str(s: string)
    | Arr(items: seq<Json>)
    | Obj(members: seq<Member>)

  /** One property of an object, in the order the object holds them. */
  datatype Member = Member(key: string, value: Json)

  function DigitChar(d: nat): (c: char)
    requires d < 10
    ensures '0' <= c <= '9'
  {
    ('0' as int + d) as char
  }

  /** The decimal digits of `n`, most significant first, without leading zeros. */
  function NatToString(n: nat): (s: string)
    ensures |s| >= 1 && forall k :: 0 <= k < |s| ==> '0' <= s[k] <= '9'
    ensures |s| > 1 ==> s[0] != '0'
  {
    if n < 10 then [DigitChar(n)] else NatToString(n / 10) + [DigitChar(n % 10)]
  }

  /** The value a string of decimal digits denotes. */
  function DigitsValue(s: string): nat
    requires forall k :: 0 <= k < |s| ==> '0' <= s[k] <= '9'
  {
    if s == [] then 0 else DigitsValue(s[..|s| - 1]) * 10 + (s[|s| - 1] as int - '0' as int)
  }

  /** The digits denote the number they were printed from. */
  lemma {:induction false} NatToStringValue(n: nat)
    ensures DigitsValue(NatToString(n)) == n
  {
    if n >= 10 {
      NatToStringValue(n / 10);
      var s := NatToString(n);
      assert s[..|s| - 1] == NatToString(n / 10);
    }
  }

  /** Number::toString for an integer: an optional `-`, then the digits. */
  function IntToString(n: int): (s: string)
    ensures |s| >= 1 && '0' <= s[|s| - 1] <= '9'
    ensures s[0] == '-' || '0' <= s[0] <= '9'
    ensures '\n' !in s
  {
    if n < 0 then "-" + NatToString(-n) else NatToString(n)
  }

  function HexDigit(d: nat): (c: char)
    requires d < 16
  {
    if d < 10 then DigitChar(d) else ('a' as int + (d - 10)) as char
  }

  /** The escape QuoteJSONString uses for one code unit: the short forms
      for backspace, tab, line feed, form feed, carriage return, quote and
      backslash, `\u00XX` in lower-case hex for the other control characters,
      and the character itself otherwise. */
  function EscapeChar(c: char): (e: string)
    ensures |e| >= 1 && '\n' !in e
    ensures (c as int >= 0x20 && c != '"' && c != '\\') ==> e == [c]
  {
    if c == '\U{0008}' then "\\b"
    else if c == '\t' then "\\t"
    else if c == '\n' then "\\n"
    else if c == '\U{000C}' then "\\f"
    else if c == '\r' then "\\r"
    else if c == '"' then "\\\""
    else if c == '\\' then "\\\\"
    else if c as int < 0x20 then "\\u00" + [HexDigit(c as int / 16), HexDigit(c as int % 16)]
    else [c]
  }

  function EscapeString(s: string): (r: string)
    ensures '\n' !in r
  {
    if s == [] then "" else EscapeChar(s[0]) + EscapeString(s[1..])
  }

  /** QuoteJSONString: the escaped characters between double quotes. */
  function Quote(s: string): (r: string)
    ensures |r| >= 2 && r[0] == '"' && r[|r| - 1] == '"'
    ensures '\n' !in r
  {
    "\"" + EscapeString(s) + "\""
  }

  /** SerializeJSONProperty for a value, with the given gap and the current
      indent: `null`, `true`, `false`, the number, the quoted string, or the
      array or object of SerializeJSONArray and SerializeJSONObject. With an
      empty gap nothing is put between the tokens; otherwise every element
      goes on its own line, indented by one more gap, the closing bracket
      back at the current indent, and a space follows each colon. */
  function Serialize(j: Json, gap: string, indent: string): string
    decreases j
  {
    match j
    case Null => "null"
    case Bool(b) => if b then "true" else "false"
    case Num(n) => IntToString(n)
    case Str(s) => Quote(s)
    case Arr(items) =>
      if |items| == 0 then "[]"
      else Wrap("[", SerializeElements(items, gap, indent + gap), "]", gap, indent)
    case Obj(members) =>
      if |members| == 0 then "{}"
      else Wrap("{", SerializeMembers(members, gap, indent + gap), "}", gap, indent)
  }

  /** The serialised array elements, each at the inner indent. */
  function SerializeElements(items: seq<Json>, gap: string, inner: string): (parts: seq<string>)
    ensures |parts| == |items|
    decreases items
  {
    if items == [] then [] else [Serialize(items[0], gap, inner)] + SerializeElements(items[1..], gap, inner)
  }

  /** The serialised object properties: quoted key, colon (and a space when
      there is a gap), serialised value. */
  function SerializeMembers(members: seq<Member>, gap: string, inner: string): (parts: seq<string>)
    ensures |parts| == |members|
    decreases members
  {
    if members == [] then []
    else
      [Quote(members[0].key) + ":" + (if gap == "" then "" else " ") + Serialize(members[0].value, gap, inner)]
      + SerializeMembers(members[1..], gap, inner)
  }

  /** The bracketed, comma-separated list of the serialised elements. */
  function Wrap(open: string, parts: seq<string>, close: string, gap: string, indent: string): string
  {
    if gap == "" then open + Join(parts, ",") + close
    else open + "\n" + indent + gap + Join(parts, ",\n" + indent + gap) + "\n" + indent + close
  }

  /** `JSON.stringify(j)` */
  function Compact(j: Json): string
  {
    Serialize(j, "", "")
  }

  /** `JSON.stringify(j, null, 4)` */
  function Pretty(j: Json): string
  {
    Serialize(j, "    ", "")
  }

  /** Serialised text starts and ends with a token character, never with
      whitespace, so trimming it changes nothing. */
  lemma SerializeEnds(j: Json, gap: string, indent: string)
    ensures var s := Serialize(j, gap, indent);
      |s| >= 1 && IsVisibleAscii(s[0]) && IsVisibleAscii(s[|s| - 1])
  {
    match j
    case Arr(items) =>
      if |items| > 0 {
        WrapEnds("[", SerializeElements(items, gap, indent + gap), "]", gap, indent);
      }
    case Obj(members) =>
      if |members| > 0 {
        WrapEnds("{", SerializeMembers(members, gap, indent + gap), "}", gap, indent);
      }
    case _ =>
  }

  lemma WrapEnds(open: string, parts: seq<string>, close: string, gap: string, indent: string)
    requires |open| == 1 && |close| == 1
    ensures var s := Wrap(open, parts, close, gap, indent);
      |s| >= 2 && s[0] == open[0] && s[|s| - 1] == close[0]
  {
  }

  lemma TrimSerialized(j: Json, gap: string, indent: string)
    ensures Trim(Serialize(j, gap, indent)) == Serialize(j, gap, indent)
  {
    SerializeEnds(j, gap, indent);
    var s := Serialize(j, gap, indent);
    VisibleIsNotWhitespace(s[0]);
    VisibleIsNotWhitespace(s[|s| - 1]);
    TrimOfTrimmed(s);
  }

  /** Compact output has no line break: the only line feeds a value could
      contribute sit inside strings, where they are escaped as `\n`. */
  lemma {:induction false} CompactHasNoNewline(j: Json, indent: string)
    ensures '\n' !in Serialize(j, "", indent)
    decreases j
  {
    match j
    case Arr(items) =>
      if |items| > 0 {
        ElementsHaveNoNewline(items, indent + "");
        JoinAbsent(SerializeElements(items, "", indent + ""), ",", '\n');
      }
    case Obj(members) =>
      if |members| > 0 {
        MembersHaveNoNewline(members, indent + "");
        JoinAbsent(SerializeMembers(members, "", indent + ""), ",", '\n');
      }
    case _ =>
  }

  lemma {:induction false} ElementsHaveNoNewline(items: seq<Json>, inner: string)
    ensures forall k :: 0 <= k < |items| ==> '\n' !in SerializeElements(items, "", inner)[k]
    decreases items
  {
    if items != [] {
      CompactHasNoNewline(items[0], inner);
      ElementsHaveNoNewline(items[1..], inner);
    }
  }

  lemma {:induction false} MembersHaveNoNewline(members: seq<Member>, inner: string)
    ensures forall k :: 0 <= k < |members| ==> '\n' !in SerializeMembers(members, "", inner)[k]
    decreases members
  {
    if members != [] {
      CompactHasNoNewline(members[0].value, inner);
      MembersHaveNoNewline(members[1..], inner);
    }
  }
}
