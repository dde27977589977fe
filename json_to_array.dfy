/** components/JsonFormat/JsonToArrayVertical.tsx: JSON text printed as a
    PHP array literal. `JSON.parse` and the page's regular-expression
    pre-check are parameters. A value of `Obj(members)` stands for the
    object `JSON.parse` builds: its own properties in property order. */
module JsonToArrayVertical {
  import opened Wrappers
  import opened Strings
  import opened Json
  import opened JsonDispatch

  /** One element handed to `arrayToPhpFormat`: its `key` and `value`
      properties, None where the property is undefined. */
  datatype PhpItem = PhpItem(key: Option<Json>, value: Option<Json>)

  /** `JSON.stringify` of a property inside a template literal: the compact
      text, or `undefined` for an undefined property. */
  function Stringified(v: Option<Json>): (s: string)
    ensures '\n' !in s
  {
    match v
    case Some(j) =>
      CompactHasNoNewline(j, "");
      Compact(j)
    case None => "undefined"
  }

  /** One printed entry: four spaces, the key, ` => `, the value. */
  function ItemLine(item: PhpItem): (line: string)
    ensures '\n' !in line
  {
    "    " + Stringified(item.key) + " => " + Stringified(item.value)
  }

  function ItemLines(items: seq<PhpItem>): (lines: seq<string>)
    ensures |lines| == |items| && forall k :: 0 <= k < |items| ==> lines[k] == ItemLine(items[k])
  {
    seq(|items|, k requires 0 <= k < |items| => ItemLine(items[k]))
  }

  const OpenLine := "<?php"

  const ArrayLine := "$arrayVar = ["

  const CloseLine := "];"

  /** `<?php`, a line break, `$arrayVar = [`, a line break. */
  const Header := OpenLine + "\n" + ArrayLine + "\n"

  /** A line break and `];`. */
  const Footer := "\n" + CloseLine

  /** `arrayToPhpFormat`: the entries joined by `,` and a line break,
      between the opening `<?php` lines and the closing `];`. */
  function ArrayToPhpFormat(items: seq<PhpItem>): (r: string)
    ensures |r| >= |Header| + |Footer| && r[..|Header|] == Header && r[|r| - |Footer|..] == Footer
  {
    Header + Join(ItemLines(items), ",\n") + Footer
  }

  /** Every entry line but the last carries the separating comma. */
  function WithCommas(lines: seq<string>): (r: seq<string>)
    requires |lines| >= 1
    ensures |r| == |lines| && r[|r| - 1] == lines[|lines| - 1]
    ensures forall k :: 0 <= k < |lines| - 1 ==> r[k] == lines[k] + ","
  {
    if |lines| == 1 then lines else [lines[0] + ","] + WithCommas(lines[1..])
  }

  lemma {:induction false} SplitJoinedLines(lines: seq<string>)
    requires |lines| >= 1
    requires forall k :: 0 <= k < |lines| ==> '\n' !in lines[k]
    ensures Split(Join(lines, ",\n") + Footer, '\n') == WithCommas(lines) + [CloseLine]
  {
    LineConstants();
    if |lines| == 1 {
      assert Join(lines, ",\n") + Footer == lines[0] + ['\n'] + CloseLine;
      SplitPrefix(lines[0], CloseLine, '\n');
      SplitNoSeparator(CloseLine, '\n');
    } else {
      var rest := Join(lines[1..], ",\n") + Footer;
      assert Join(lines, ",\n") + Footer == (lines[0] + ",") + ['\n'] + rest;
      assert '\n' !in lines[0] + "," by {
        assert forall k :: 0 <= k < |lines[0]| ==> (lines[0] + ",")[k] == lines[0][k];
      }
      SplitPrefix(lines[0] + ",", rest, '\n');
      SplitJoinedLines(lines[1..]);
    }
  }

  lemma LineConstants()
    ensures '\n' !in OpenLine && '\n' !in ArrayLine && '\n' !in CloseLine
  {
  }

  /** The printed array line by line: `<?php`, `$arrayVar = [`, one line
      per entry with a comma on all but the last, and `];`. So n >= 1
      entries give exactly n + 3 lines, since no compact JSON text holds
      a raw line break; no entries leave one empty line between. */
  lemma PhpFormatLines(items: seq<PhpItem>)
    ensures |items| >= 1 ==>
      Split(ArrayToPhpFormat(items), '\n') == [OpenLine, ArrayLine] + WithCommas(ItemLines(items)) + [CloseLine]
    ensures |items| >= 1 ==> |Split(ArrayToPhpFormat(items), '\n')| == |items| + 3
    ensures |items| == 0 ==> Split(ArrayToPhpFormat(items), '\n') == [OpenLine, ArrayLine, "", CloseLine]
  {
    PhpFormatSplit(items);
    if |items| >= 1 {
      SplitJoinedLines(ItemLines(items));
    } else {
      EmptyBody();
    }
  }

  /** The two opening lines come off first. */
  lemma PhpFormatSplit(items: seq<PhpItem>)
    ensures Split(ArrayToPhpFormat(items), '\n') == [OpenLine, ArrayLine] + Split(Join(ItemLines(items), ",\n") + Footer, '\n')
  {
    LineConstants();
    var body := Join(ItemLines(items), ",\n") + Footer;
    assert ArrayToPhpFormat(items) == OpenLine + ['\n'] + (ArrayLine + ['\n'] + body);
    SplitPrefix(OpenLine, ArrayLine + ['\n'] + body, '\n');
    SplitPrefix(ArrayLine, body, '\n');
  }

  lemma EmptyBody()
    ensures Split(Join([], ",\n") + Footer, '\n') == ["", CloseLine]
  {
    LineConstants();
    assert Join([], ",\n") + Footer == "" + ['\n'] + CloseLine;
    SplitPrefix("", CloseLine, '\n');
    SplitNoSeparator(CloseLine, '\n');
  }

  /** `item.key` / `item.value` of an array element: an object's property of
      that name, undefined for any other non-null value. */
  function Property(item: Json, name: string): (r: Option<Json>)
    requires !item.Null?
    ensures r.Some? ==> item.Obj? && exists k :: 0 <= k < |item.members| && item.members[k] == Member(name, r.value)
    ensures item.Obj? && (exists k :: 0 <= k < |item.members| && item.members[k].key == name) ==> r.Some?
  {
    if item.Obj? then Lookup(item.members, name) else None
  }

  /** The first member called `name`. */
  function Lookup(members: seq<Member>, name: string): (r: Option<Json>)
    ensures r.Some? ==> exists k :: 0 <= k < |members| && members[k] == Member(name, r.value)
    ensures r.None? ==> forall k :: 0 <= k < |members| ==> members[k].key != name
  {
    if members == [] then None
    else if members[0].key == name then Some(members[0].value)
    else
      var r := Lookup(members[1..], name);
      assert r.Some? ==> members[1..][0..] == members[1..];
      r
  }

  /** The elements of an array as `arrayToPhpFormat` sees them; None when
      one is null, whose `.key` throws a TypeError. */
  function ArrayItems(items: seq<Json>): (r: Option<seq<PhpItem>>)
    ensures r.Some? <==> forall k :: 0 <= k < |items| ==> !items[k].Null?
    ensures r.Some? ==> (|r.value| == |items| &&
      forall k :: 0 <= k < |items| ==> r.value[k] == PhpItem(Property(items[k], "key"), Property(items[k], "value")))
  {
    if items == [] then Some([])
    else if items[0].Null? then None
    else
      match ArrayItems(items[1..])
      case None => None
      case Some(rest) => Some([PhpItem(Property(items[0], "key"), Property(items[0], "value"))] + rest)
  }

  /** `Object.entries` as `{key, value}` pairs: an object's properties in
      order, a string's characters under the keys `"0"`, `"1"`, ...,
      nothing for a number or a boolean. */
  function Entries(v: Json): (r: seq<PhpItem>)
    requires !v.Null? && !v.Arr?
    ensures v.Obj? ==> (|r| == |v.members| &&
      forall k :: 0 <= k < |r| ==> r[k] == PhpItem(Some(Str(v.members[k].key)), Some(v.members[k].value)))
    ensures v.Str? ==> (|r| == |v.s| &&
      forall k :: 0 <= k < |r| ==> r[k] == PhpItem(Some(Str(NatToString(k))), Some(Str([v.s[k]]))))
    ensures v.Num? || v.Bool? ==> r == []
  {
    if v.Obj? then MemberItems(v.members)
    else if v.Str? then CharItems(v.s)
    else []
  }

  function MemberItems(members: seq<Member>): (r: seq<PhpItem>)
    ensures |r| == |members|
  {
    seq(|members|, k requires 0 <= k < |members| => PhpItem(Some(Str(members[k].key)), Some(members[k].value)))
  }

  function CharItems(s: string): (r: seq<PhpItem>)
    ensures |r| == |s|
  {
    seq(|s|, k requires 0 <= k < |s| => PhpItem(Some(Str(NatToString(k))), Some(Str([s[k]]))))
  }

  /** The text of an error shown in the output. */
  function ErrorText(message: string): (r: string)
    ensures |r| >= 7 && StartsWith(r, "Error: ") && r[7..] == message
  {
    "Error: " + message
  }

  const InvalidJsonData := "Error: Invalid JSON data"

  const NullData := "Error: Parsed data is null or undefined"

  /** What `processData` shows for a parsed value: the null error, the
      printed array elements (or the TypeError of a null element), or the
      printed entries. */
  function ShowParsed(v: Json, nullItemMessage: string): (output: string)
    ensures output == NullData || output == ErrorText(nullItemMessage) || StartsWith(output, Header)
  {
    if v.Null? then NullData
    else if v.Arr? then
      match ArrayItems(v.items)
      case Some(items) => ArrayToPhpFormat(items)
      case None => ErrorText(nullItemMessage)
    else ArrayToPhpFormat(Entries(v))
  }

  /** `processData` on the input `jsonData` when the output was `previous`.
      `precheck` is the regular-expression test; `nullItemMessage` is the
      message of the TypeError a null array element raises. The output is
      cleared, kept, one of the error texts, or a printed array. */
  function Process(jsonData: string, previous: string, precheck: string -> bool,
                   parse: string -> Result<Json, string>, nullItemMessage: string): (output: string)
    ensures output == "" || output == previous || output == InvalidJsonData || output == NullData
         || output == ErrorText(nullItemMessage) || StartsWith(output, Header)
  {
    if Trim(jsonData) == "" then ""
    else if !precheck(jsonData) then previous
    else
      match parse(jsonData)
      case Failure(_) => InvalidJsonData
      case Success(v) => ShowParsed(v, nullItemMessage)
  }

  /** Blank input clears the output; input with something else in it
      clears it only when refused by the pre-check while already empty. */
  lemma BlankClears(jsonData: string, previous: string, precheck: string -> bool,
                    parse: string -> Result<Json, string>, nullItemMessage: string)
    ensures Process(jsonData, previous, precheck, parse, nullItemMessage) == "" <==>
      AllWhitespace(jsonData) || (!precheck(jsonData) && previous == "")
  {
    TrimEmptyIffBlank(jsonData);
    if Trim(jsonData) != "" && precheck(jsonData) {
      NonEmptyOutputs(parse(jsonData), nullItemMessage);
    }
  }

  /** None of the texts a parse result produces is empty. */
  lemma NonEmptyOutputs(parsed: Result<Json, string>, nullItemMessage: string)
    ensures parsed.Success? ==> ShowParsed(parsed.value, nullItemMessage) != ""
    ensures InvalidJsonData != ""
  {
    if parsed.Success? {
      var out := ShowParsed(parsed.value, nullItemMessage);
      assert |out| >= 7 by {
        assert |NullData| >= 7 && |Header| >= 7;
      }
    }
  }

  /** Input refused by the pre-check keeps the output, whatever it was. */
  lemma PrecheckKeeps(jsonData: string, previous: string, precheck: string -> bool,
                      parse: string -> Result<Json, string>, nullItemMessage: string)
    requires Trim(jsonData) != "" && !precheck(jsonData)
    ensures Process(jsonData, previous, precheck, parse, nullItemMessage) == previous
  {
  }

  /** Input that passes the pre-check is shown as `JSON.parse` reads it:
      the invalid-data text when it throws, and otherwise what the parsed
      value shows, whatever the previous output was. */
  lemma ParsedInput(jsonData: string, previous: string, precheck: string -> bool,
                    parse: string -> Result<Json, string>, nullItemMessage: string)
    requires Trim(jsonData) != "" && precheck(jsonData)
    ensures parse(jsonData).Failure? ==>
      Process(jsonData, previous, precheck, parse, nullItemMessage) == InvalidJsonData
    ensures parse(jsonData).Success? ==>
      Process(jsonData, previous, precheck, parse, nullItemMessage) == ShowParsed(parse(jsonData).value, nullItemMessage)
  {
  }

  /** A null value gives its own fixed text. */
  lemma NullShown(nullItemMessage: string)
    ensures ShowParsed(Null, nullItemMessage) == NullData
  {
  }

  /** An object becomes its entries in order, each line showing the quoted
      key and the compact value. */
  lemma ObjectPrinted(members: seq<Member>, nullItemMessage: string)
    ensures ShowParsed(Obj(members), nullItemMessage) == ArrayToPhpFormat(Entries(Obj(members)))
    ensures var lines := ItemLines(Entries(Obj(members)));
      |lines| == |members| &&
      forall k :: 0 <= k < |members| ==> lines[k] == "    " + Quote(members[k].key) + " => " + Compact(members[k].value)
  {
    var lines := ItemLines(Entries(Obj(members)));
    forall k | 0 <= k < |members|
      ensures lines[k] == "    " + Quote(members[k].key) + " => " + Compact(members[k].value)
    {
      assert Stringified(Some(Str(members[k].key))) == Quote(members[k].key);
    }
  }

  /** An array with a null element gives the TypeError's message; one
      without gives its elements' `key` and `value` properties. */
  lemma ArrayPrinted(items: seq<Json>, nullItemMessage: string)
    ensures (exists k :: 0 <= k < |items| && items[k].Null?) ==>
      ShowParsed(Arr(items), nullItemMessage) == ErrorText(nullItemMessage)
    ensures (forall k :: 0 <= k < |items| ==> !items[k].Null?) ==>
      ShowParsed(Arr(items), nullItemMessage) == ArrayToPhpFormat(ArrayItems(items).value)
  {
  }

  /** Processing the same input twice gives what processing it once gave:
      the output a run leaves is the output the next run keeps or makes. */
  lemma ProcessTwice(jsonData: string, previous: string, precheck: string -> bool,
                     parse: string -> Result<Json, string>, nullItemMessage: string)
    ensures var once := Process(jsonData, previous, precheck, parse, nullItemMessage);
      Process(jsonData, once, precheck, parse, nullItemMessage) == once
  {
  }

  class JsonToArrayVertical {
    var jsonData: string
    var phpArrayData: string

    /** Both start empty; the first run on mounting sees blank input. */
    constructor()
      ensures jsonData == "" && phpArrayData == ""
    {
      jsonData := "";
      phpArrayData := "";
    }

    /** `processData`, run by the effect on `jsonData` and by the Convert button. */
    method ProcessData(precheck: string -> bool, parse: string -> Result<Json, string>, nullItemMessage: string)
      modifies this
      ensures jsonData == old(jsonData)
      ensures phpArrayData == Process(jsonData, old(phpArrayData), precheck, parse, nullItemMessage)
    {
      phpArrayData := Process(jsonData, phpArrayData, precheck, parse, nullItemMessage);
    }

    /** The input's change handler: it runs `processData` at once, on the
        input as it was before the change, then sets the input, and the
        effect runs `processData` again when the input changed. */
    method OnInputChange(value: string, precheck: string -> bool, parse: string -> Result<Json, string>, nullItemMessage: string)
      modifies this
      ensures jsonData == value
      ensures var stale := Process(old(jsonData), old(phpArrayData), precheck, parse, nullItemMessage);
        phpArrayData == if value == old(jsonData) then stale else Process(value, stale, precheck, parse, nullItemMessage)
    {
      ProcessData(precheck, parse, nullItemMessage);
      if value != jsonData {
        jsonData := value;
        ProcessData(precheck, parse, nullItemMessage);
      }
    }

    /** `copyToClipboard`: a blank output is refused. */
    method CopyToClipboard() returns (r: Copy)
      ensures r.Refused? <==> AllWhitespace(phpArrayData)
      ensures r.Refused? ==> r.alert == "Output is empty"
      ensures r.Wrote? ==> r.text == phpArrayData
    {
      r := GuardedCopy(phpArrayData);
    }
  }
}
