/** The formatting rule shared by the three JSON / PHP-serialized formatter
    pages: JSON first, then PHP serialized data recognised by its type sigil,
    otherwise the output stays as it is; and the guards of their copy
    buttons. `JSON.parse`, php-serialize's `unserialize` and `serialize` are
    parameters: `parse` and `unserialize` give a value or the message of the
    error they throw. */
module JsonDispatch {
  import opened Wrappers
  import opened Strings
  import opened Json

  /** `isJSON`: `JSON.parse` accepts the text as it is. */
  predicate IsJson(data: string, parse: string -> Result<Json, string>)
  {
    parse(data).Success?
  }

  /** `isPHPSerialized`: the text starts with one of six type sigils. */
  predicate IsPhpSerialized(data: string)
  {
    StartsWith(data, "a:") || StartsWith(data, "O:") || StartsWith(data, "s:")
    || StartsWith(data, "i:") || StartsWith(data, "b:") || StartsWith(data, "d:")
  }

  /** Recognised exactly when the second character is a colon and the first
      one of `a`, `O`, `s`, `i`, `b`, `d` (case matters; no trimming). */
  lemma IsPhpSerializedIff(data: string)
    ensures IsPhpSerialized(data) <==> |data| >= 2 && data[1] == ':' && data[0] in "aOsibd"
  {
    if |data| >= 2 {
      assert data[..2] == [data[0], data[1]];
    }
  }

  /** How a page writes the message of an `unserialize` error: with
      `Unknown error occurred` in place of an empty message, or raw. */
  datatype ErrorStyle = MessageOrFallback | RawMessage

  /** The text that stands in for an empty error message. */
  const UnknownError: string := "Unknown error occurred"

  /** The text every `unserialize` error starts with. */
  const UnserializeErrorPrefix: string := "Error: Invalid PHP serialized data! "

  /** The output shown when `unserialize` throws with message `msg`. */
  function UnserializeErrorText(style: ErrorStyle, msg: string): (r: string)
    ensures var prefix := UnserializeErrorPrefix;
      |r| >= |prefix| && r[..|prefix|] == prefix &&
      (style == RawMessage || msg != "" ==> r[|prefix|..] == msg) &&
      (style == MessageOrFallback && msg == "" ==> r[|prefix|..] == UnknownError) &&
      (style == MessageOrFallback ==> r[|prefix|..] != "")
  {
    var shown := if style == MessageOrFallback && msg == "" then UnknownError else msg;
    UnserializeErrorPrefix + shown
  }

  /** `processData`: the new output for input `input` when the output was
      `previous`. JSON input is parsed again after trimming and pretty
      printed with four spaces; input with a PHP sigil is unserialized
      after trimming and pretty printed, or gives the error text; anything
      else keeps the output. Should the second, trimmed parse throw, the
      exception leaves `processData` and the output is kept too. */
  function Dispatch(input: string, previous: string, parse: string -> Result<Json, string>,
                    unserialize: string -> Result<Json, string>, style: ErrorStyle): (output: string)
  {
    if IsJson(input, parse) then
      match parse(Trim(input))
      case Success(j) => Pretty(j)
      case Failure(_) => previous
    else if IsPhpSerialized(input) then
      match unserialize(Trim(input))
      case Success(v) => Pretty(v)
      case Failure(msg) => UnserializeErrorText(style, msg)
    else previous
  }

  /** JSON wins over everything: input `JSON.parse` accepts gives the pretty
      form of the trimmed input's value, sigil or not, and `unserialize` is
      never consulted. */
  lemma JsonFirst(input: string, previous: string, parse: string -> Result<Json, string>,
                  unserialize: string -> Result<Json, string>, style: ErrorStyle, j: Json)
    requires IsJson(input, parse) && parse(Trim(input)) == Success(j)
    ensures forall other: string -> Result<Json, string>, p: string ::
      Dispatch(input, p, parse, other, style) == Pretty(j)
  {
  }

  /** Since `JSON.parse` skips surrounding whitespace, a parser for which the
      trimmed text reads the same makes the output the pretty form of the
      input's own value. */
  lemma JsonBranch(input: string, previous: string, parse: string -> Result<Json, string>,
                   unserialize: string -> Result<Json, string>, style: ErrorStyle)
    requires IsJson(input, parse) && parse(Trim(input)) == parse(input)
    ensures Dispatch(input, previous, parse, unserialize, style) == Pretty(parse(input).value)
  {
  }

  /** `unserialize` decides the output exactly when the input is not JSON
      but carries a sigil: the pretty form of its value, or the error text. */
  lemma PhpBranch(input: string, previous: string, parse: string -> Result<Json, string>,
                  unserialize: string -> Result<Json, string>, style: ErrorStyle)
    requires !IsJson(input, parse) && IsPhpSerialized(input)
    ensures unserialize(Trim(input)).Success? ==>
      Dispatch(input, previous, parse, unserialize, style) == Pretty(unserialize(Trim(input)).value)
    ensures unserialize(Trim(input)).Failure? ==>
      Dispatch(input, previous, parse, unserialize, style) == UnserializeErrorText(style, unserialize(Trim(input)).error)
  {
  }

  /** Input that is neither JSON nor sigil-prefixed leaves the output alone. */
  lemma NeitherKeepsOutput(input: string, previous: string, parse: string -> Result<Json, string>,
                           unserialize: string -> Result<Json, string>, style: ErrorStyle)
    requires !IsJson(input, parse) && !IsPhpSerialized(input)
    ensures Dispatch(input, previous, parse, unserialize, style) == previous
  {
  }

  /** The output changes to something other than a pretty form or the error
      text only by staying what it was. */
  lemma DispatchOutcomes(input: string, previous: string, parse: string -> Result<Json, string>,
                         unserialize: string -> Result<Json, string>, style: ErrorStyle)
    ensures var out := Dispatch(input, previous, parse, unserialize, style);
      out == previous || (exists j :: out == Pretty(j)) || (exists m :: out == UnserializeErrorText(style, m))
  {
    var out := Dispatch(input, previous, parse, unserialize, style);
    if IsJson(input, parse) {
      if parse(Trim(input)).Success? {
        assert out == Pretty(parse(Trim(input)).value);
      }
    } else if IsPhpSerialized(input) {
      match unserialize(Trim(input))
      case Success(v) => assert out == Pretty(v);
      case Failure(m) => assert out == UnserializeErrorText(style, m);
    }
  }

  /** Formatting is idempotent: processing the pretty form of a value gives
      that pretty form again, for a parser that reads a pretty form back. */
  lemma DispatchIdempotent(j: Json, previous: string, parse: string -> Result<Json, string>,
                           unserialize: string -> Result<Json, string>, style: ErrorStyle)
    requires parse(Pretty(j)) == Success(j)
    ensures Dispatch(Pretty(j), previous, parse, unserialize, style) == Pretty(j)
  {
    TrimSerialized(j, "    ", "");
  }

  /** The inline copy of `copyToInlineClipboard`: the compact form of the
      output's value, a single line; nothing when the output is not JSON. */
  function InlineCopy(output: string, parse: string -> Result<Json, string>): (r: Option<string>)
    ensures r.Some? <==> parse(output).Success?
    ensures r.Some? ==> r.value == Compact(parse(output).value) && '\n' !in r.value
  {
    match parse(output)
    case Success(j) =>
      CompactHasNoNewline(j, "");
      Some(Compact(j))
    case Failure(_) => None
  }

  /** The inline copy of a pretty output is the compact form of the same value. */
  lemma InlineCopyOfPretty(j: Json, parse: string -> Result<Json, string>)
    requires parse(Pretty(j)) == Success(j)
    ensures InlineCopy(Pretty(j), parse) == Some(Compact(j))
  {
  }

  /** What a guarded copy button does: writes `text` to the clipboard and
      shows the `notice` toast, or writes nothing and shows `alert`. */
  datatype Copy = Wrote(text: string, notice: string) | Refused(alert: string)

  /** The guarded `copyToClipboard`: a blank output is refused. */
  function GuardedCopy(output: string): (r: Copy)
    ensures r.Refused? <==> AllWhitespace(output)
    ensures r.Refused? ==> r.alert == "Output is empty"
    ensures r.Wrote? ==> r.text == output && r.notice == "Copied to clipboard!"
  {
    TrimEmptyIffBlank(output);
    if Trim(output) == "" then Refused("Output is empty") else Wrote(output, "Copied to clipboard!")
  }

  /** The guarded `copyToInlineClipboard`: a blank output is refused, an
      output `JSON.parse` refuses is reported, anything else is copied in its
      compact form. */
  function GuardedInlineCopy(output: string, parse: string -> Result<Json, string>): (r: Copy)
    ensures AllWhitespace(output) ==> r == Refused("Output is empty")
    ensures !AllWhitespace(output) && parse(output).Failure? ==> r == Refused("Invalid JSON format.")
    ensures !AllWhitespace(output) && parse(output).Success? ==>
      r == Wrote(InlineCopy(output, parse).value, "Copied inline to clipboard!")
  {
    TrimEmptyIffBlank(output);
    if Trim(output) == "" then Refused("Output is empty")
    else
      match InlineCopy(output, parse)
      case Some(inline) => Wrote(inline, "Copied inline to clipboard!")
      case None => Refused("Invalid JSON format.")
  }

  /** `copySerializedOutput`: a blank output is refused; otherwise the
      output's value in PHP serialized form, and one alert for a parse or
      serialize failure alike. */
  function SerializedCopy(output: string, parse: string -> Result<Json, string>,
                          serialize: Json -> Result<string, string>): (r: Copy)
    ensures AllWhitespace(output) ==> r == Refused("Output is empty")
    ensures r.Wrote? <==> !AllWhitespace(output) && parse(output).Success? && serialize(parse(output).value).Success?
    ensures r.Wrote? ==> r == Wrote(serialize(parse(output).value).value, "Serialized output copied to clipboard!")
    ensures r.Refused? && !AllWhitespace(output) ==> r.alert == "Failed to serialize output!"
  {
    TrimEmptyIffBlank(output);
    if Trim(output) == "" then Refused("Output is empty")
    else
      match parse(output)
      case Failure(_) => Refused("Failed to serialize output!")
      case Success(j) =>
        match serialize(j)
        case Success(s) => Wrote(s, "Serialized output copied to clipboard!")
        case Failure(_) => Refused("Failed to serialize output!")
  }

  /** No guarded copy writes a blank output anywhere. */
  lemma GuardsRefuseBlank(output: string, parse: string -> Result<Json, string>,
                          serialize: Json -> Result<string, string>)
    requires AllWhitespace(output)
    ensures GuardedCopy(output).Refused? && GuardedInlineCopy(output, parse).Refused?
    ensures SerializedCopy(output, parse, serialize).Refused?
  {
  }
}

/** components/JsonFormat/JsonFormat.tsx: the formatter page with an
    unguarded copy button and an inline copy that fails silently. */
module JsonFormat {
  import opened Wrappers
  import opened Json
  import opened JsonDispatch

  class HomePage {
    var inputData: string
    var outputData: string

    /** Both texts start empty. The first `processData` on mounting keeps
        the empty output: `JSON.parse("")` throws and `""` has no sigil. */
    constructor()
      ensures inputData == "" && outputData == ""
    {
      inputData := "";
      outputData := "";
    }

    /** `processData`, run by the effect on `inputData` and by the Process button. */
    method ProcessData(parse: string -> Result<Json, string>, unserialize: string -> Result<Json, string>)
      modifies this
      ensures inputData == old(inputData)
      ensures outputData == Dispatch(inputData, old(outputData), parse, unserialize, MessageOrFallback)
    {
      outputData := Dispatch(inputData, outputData, parse, unserialize, MessageOrFallback);
    }

    /** Typing into the input: the state changes, and when it changed the
        effect runs `processData`. */
    method SetInputData(value: string, parse: string -> Result<Json, string>, unserialize: string -> Result<Json, string>)
      modifies this
      ensures inputData == value
      ensures outputData == if value == old(inputData) then old(outputData)
                            else Dispatch(value, old(outputData), parse, unserialize, MessageOrFallback)
    {
      if value != inputData {
        inputData := value;
        ProcessData(parse, unserialize);
      }
    }

    /** `handleEditorChange`: the output editor sets the output directly. */
    method HandleEditorChange(value: string)
      modifies this
      ensures outputData == value && inputData == old(inputData)
    {
      outputData := value;
    }

    /** `copyToClipboard` writes the output as it is, even when blank. */
    method CopyToClipboard() returns (written: string)
      ensures written == outputData
    {
      written := outputData;
    }

    /** `copyToInlineClipboard`: the compact form of the output's value;
        nothing is written when the output is not JSON. */
    method CopyToInlineClipboard(parse: string -> Result<Json, string>) returns (written: Option<string>)
      ensures written.Some? <==> parse(outputData).Success?
      ensures written.Some? ==> written.value == Compact(parse(outputData).value)
    {
      written := InlineCopy(outputData, parse);
    }
  }
}

/** components/JsonFormat/JsonFormatVertical.tsx: the formatter page whose
    copy buttons refuse a blank output and which can copy the output back
    in PHP serialized form. */
module JsonFormatVertical {
  import opened Wrappers
  import opened Json
  import opened JsonDispatch

  class HomePage {
    var inputData: string
    var outputData: string

    constructor()
      ensures inputData == "" && outputData == ""
    {
      inputData := "";
      outputData := "";
    }

    /** `processData`: the same rule, with no else branch. */
    method ProcessData(parse: string -> Result<Json, string>, unserialize: string -> Result<Json, string>)
      modifies this
      ensures inputData == old(inputData)
      ensures outputData == Dispatch(inputData, old(outputData), parse, unserialize, MessageOrFallback)
    {
      outputData := Dispatch(inputData, outputData, parse, unserialize, MessageOrFallback);
    }

    method SetInputData(value: string, parse: string -> Result<Json, string>, unserialize: string -> Result<Json, string>)
      modifies this
      ensures inputData == value
      ensures outputData == if value == old(inputData) then old(outputData)
                            else Dispatch(value, old(outputData), parse, unserialize, MessageOrFallback)
    {
      if value != inputData {
        inputData := value;
        ProcessData(parse, unserialize);
      }
    }

    /** `handleEditorChange`: an undefined editor value is ignored. */
    method HandleEditorChange(value: Option<string>)
      modifies this
      ensures outputData == (if value.Some? then value.value else old(outputData))
      ensures inputData == old(inputData)
    {
      if value.Some? {
        outputData := value.value;
      }
    }

    method CopyToClipboard() returns (r: Copy)
      ensures r.Refused? <==> Strings.AllWhitespace(outputData)
      ensures r.Refused? ==> r.alert == "Output is empty"
      ensures r.Wrote? ==> r.text == outputData
    {
      r := GuardedCopy(outputData);
    }

    method CopyToInlineClipboard(parse: string -> Result<Json, string>) returns (r: Copy)
      ensures Strings.AllWhitespace(outputData) ==> r == Refused("Output is empty")
      ensures r.Wrote? <==> !Strings.AllWhitespace(outputData) && parse(outputData).Success?
      ensures r.Wrote? ==> r.text == Compact(parse(outputData).value)
      ensures r.Refused? && !Strings.AllWhitespace(outputData) ==> r.alert == "Invalid JSON format."
    {
      r := GuardedInlineCopy(outputData, parse);
    }

    method CopySerializedOutput(parse: string -> Result<Json, string>, serialize: Json -> Result<string, string>) returns (r: Copy)
      ensures r == SerializedCopy(outputData, parse, serialize)
    {
      r := SerializedCopy(outputData, parse, serialize);
    }
  }
}

/** src/app/page.tsx: the formatter page that shows an `unserialize` error
    message raw and copies without a guard. */
module AppPage {
  import opened Wrappers
  import opened Json
  import opened JsonDispatch

  class HomePage {
    var inputData: string
    var outputData: string

    constructor()
      ensures inputData == "" && outputData == ""
    {
      inputData := "";
      outputData := "";
    }

    method ProcessData(parse: string -> Result<Json, string>, unserialize: string -> Result<Json, string>)
      modifies this
      ensures inputData == old(inputData)
      ensures outputData == Dispatch(inputData, old(outputData), parse, unserialize, RawMessage)
    {
      outputData := Dispatch(inputData, outputData, parse, unserialize, RawMessage);
    }

    method SetInputData(value: string, parse: string -> Result<Json, string>, unserialize: string -> Result<Json, string>)
      modifies this
      ensures inputData == value
      ensures outputData == if value == old(inputData) then old(outputData)
                            else Dispatch(value, old(outputData), parse, unserialize, RawMessage)
    {
      if value != inputData {
        inputData := value;
        ProcessData(parse, unserialize);
      }
    }

    method CopyToClipboard() returns (written: string)
      ensures written == outputData
    {
      written := outputData;
    }
  }
}
