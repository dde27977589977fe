/** components/base64.tsx: the Base64 page. The trimmed input goes through
    `btoa` in encode mode and `atob` in decode mode; whatever either throws
    becomes one fixed error text. */
module Base64Page {
  import opened Wrappers
  import opened Strings
  import opened Base64
  import opened JsonDispatch

  datatype Mode = Encode | Decode

  const InvalidInput := "Error: Invalid Base64 input!"

  /** The `btoa` or `atob` of the trimmed input, or the error text. */
  function Transform(mode: Mode, input: string): (output: string)
    ensures mode == Encode ==> output == (if IsLatin1(Trim(input)) then Btoa(Trim(input)).value else InvalidInput)
    ensures mode == Decode ==> output == (if Atob(Trim(input)).Some? then Atob(Trim(input)).value else InvalidInput)
  {
    var result := if mode == Decode then Atob(Trim(input)) else Btoa(Trim(input));
    match result
    case Some(text) => text
    case None => InvalidInput
  }

  /** Only the trimmed input matters, in either mode. */
  lemma TransformTrims(mode: Mode, input: string)
    ensures Transform(mode, input) == Transform(mode, Trim(input))
  {
    TrimIdempotent(input);
  }

  /** In encode mode the output is the RFC 4648 encoding of the trimmed
      input: 4 * ceil(n / 3) characters of the standard alphabet with `=`
      only as final padding. */
  lemma EncodeOutputShape(input: string)
    requires IsLatin1(Trim(input))
    ensures PaddedShape(Transform(Encode, input))
    ensures |Transform(Encode, input)| == 4 * ((|Trim(input)| + 2) / 3)
  {
  }

  /** Encoded text has no surrounding whitespace for `trim` to remove. */
  lemma TrimPadded(s: string)
    requires PaddedShape(s)
    ensures Trim(s) == s
  {
    if s != [] {
      assert IsAlphabetChar(s[0]) || s[0] == '=';
      assert IsAlphabetChar(s[|s| - 1]) || s[|s| - 1] == '=';
      VisibleIsNotWhitespace(s[0]);
      VisibleIsNotWhitespace(s[|s| - 1]);
    }
    TrimOfTrimmed(s);
  }

  /** Decoding what encode mode printed gives the trimmed input back. */
  lemma DecodeEncodeOutput(input: string)
    requires IsLatin1(Trim(input))
    ensures Transform(Decode, Transform(Encode, input)) == Trim(input)
  {
    var e := Transform(Encode, input);
    TrimPadded(e);
    AtobBtoa(Trim(input));
  }

  /** Every failure shows exactly the fixed error text: a character above
      U+00FF when encoding, a malformed encoding when decoding. */
  lemma FailureText(mode: Mode, input: string)
    ensures mode == Encode && !IsLatin1(Trim(input)) ==> Transform(mode, input) == InvalidInput
    ensures mode == Decode && Atob(Trim(input)).None? ==> Transform(mode, input) == InvalidInput
  {
  }

  /** A text with a character above U+00FF fails in encode mode. */
  lemma EncodeRefusesWideChar(input: string, k: nat)
    requires k < |Trim(input)| && Trim(input)[k] as int > 0xFF
    ensures Transform(Encode, input) == InvalidInput
  {
  }

  class Base64Page {
    var inputData: string
    var outputData: string
    var mode: Mode

    constructor()
      ensures inputData == "" && outputData == "" && mode == Encode
    {
      inputData := "";
      outputData := "";
      mode := Encode;
    }

    /** Typing into the input only stores it; the page converts on the
        button or on a mode switch. */
    method SetInputData(value: string)
      modifies this
      ensures inputData == value && outputData == old(outputData) && mode == old(mode)
    {
      inputData := value;
    }

    /** `processData(newMode?)`: the given mode, or the stored one. */
    method ProcessData(newMode: Option<Mode>)
      modifies this
      ensures inputData == old(inputData) && mode == old(mode)
      ensures outputData == Transform(if newMode.Some? then newMode.value else mode, inputData)
    {
      var currentMode := if newMode.Some? then newMode.value else mode;
      outputData := Transform(currentMode, inputData);
    }

    /** `switchMode`: stores the new mode and converts with it, not with
        the mode stored before. */
    method SwitchMode(newMode: Mode)
      modifies this
      ensures mode == newMode && inputData == old(inputData)
      ensures outputData == Transform(newMode, inputData)
    {
      mode := newMode;
      ProcessData(Some(newMode));
    }

    /** `handleEditorChange`: an undefined editor value is ignored. */
    method HandleEditorChange(value: Option<string>)
      modifies this
      ensures outputData == (if value.Some? then value.value else old(outputData))
      ensures inputData == old(inputData) && mode == old(mode)
    {
      if value.Some? {
        outputData := value.value;
      }
    }

    /** `copyToClipboard`: a blank output is refused. */
    method CopyToClipboard() returns (r: Copy)
      ensures r.Refused? <==> AllWhitespace(outputData)
      ensures r.Refused? ==> r.alert == "Output is empty"
      ensures r.Wrote? ==> r.text == outputData
    {
      r := GuardedCopy(outputData);
    }
  }
}
