/** The Morse code tool: a fixed table for A-Z and 0-9, an encoder that
    upper-cases the text and joins the codes of its characters with single
    spaces, and a decoder that maps each space-separated token back through
    the reversed table. */
module MorseCode {
  import opened Wrappers
  import opened Strings
  import opened MorseTable

  /** `morseMap[ch]`: the code of `ch`, or undefined when the table has no entry. */
  function CodeOf(c: char): (r: Option<string>)
    ensures r.Some? <==> InAlphabet(c)
    ensures r.Some? ==> r.value == Table[TableIndex(c)].1
  {
    if InAlphabet(c) then Some(Table[TableIndex(c)].1) else None
  }

  /** `reverseMap[code]`: the letter of a table entry whose code is `code`.
      The codes are distinct (`CodesDistinct`), so which entry the search
      meets first, and the order in which the reversed map is built, do not
      matter. */
  function LetterOf(code: string): (r: Option<char>)
  {
    FindCode(code, 0)
  }

  function FindCode(code: string, from: nat): (r: Option<char>)
    requires from <= |Table|
    ensures r.Some? ==> exists i :: from <= i < |Table| && Table[i] == (r.value, code)
    ensures r.None? ==> forall i :: from <= i < |Table| ==> Table[i].1 != code
    decreases |Table| - from
  {
    if from == |Table| then None
    else if Table[from].1 == code then Some(Table[from].0)
    else FindCode(code, from + 1)
  }

  /** The reversed table is a true inverse of the forward table. */
  lemma ReverseIsInverse(c: char, code: string)
    ensures LetterOf(code) == Some(c) <==> CodeOf(c) == Some(code)
  {
    CodesDistinct();
    LettersInOrder();
    if CodeOf(c) == Some(code) {
      var i := TableIndex(c);
      assert Table[i] == (c, code);
      match LetterOf(code)
      case None =>
      case Some(d) =>
        var j :| 0 <= j < |Table| && Table[j] == (d, code);
        assert i == j;
    }
    if LetterOf(code) == Some(c) {
      var j :| 0 <= j < |Table| && Table[j] == (c, code);
      assert TableIndex(c) == j;
    }
  }

  /** One input character as the encoder maps it: the code of the
      upper-cased character, or the upper-cased character itself. */
  function EncodeChar(c: char): (t: string)
    ensures CodeOf(UpperChar(c)) == Some(t) <==> InAlphabet(UpperChar(c))
    ensures !InAlphabet(UpperChar(c)) ==> t == [UpperChar(c)]
  {
    match CodeOf(UpperChar(c))
    case Some(code) => code
    case None => [UpperChar(c)]
  }

  /** The token of every character of `s`, in order. */
  function EncodeChars(s: string): (ts: seq<string>)
    ensures |ts| == |s| && forall k :: 0 <= k < |s| ==> ts[k] == EncodeChar(s[k])
  {
    if s == [] then [] else [EncodeChar(s[0])] + EncodeChars(s[1..])
  }

  /** The encode branch of `process`: upper-case, map each character
      through `morseMap` (keeping it when there is no entry), join with spaces. */
  function Encode(text: string): (r: string)
  {
    Join(EncodeChars(ToUpper(text)), " ")
  }

  /** One space-separated token as the decoder maps it: the letter whose
      code it is, or the token itself. */
  function DecodeToken(token: string): (r: string)
    ensures r == token || (|r| == 1 && CodeOf(r[0]) == Some(token))
  {
    match LetterOf(token)
    case Some(c) =>
      ReverseIsInverse(c, token);
      [c]
    case None => token
  }

  /** The decoded tokens, concatenated. */
  function DecodeTokens(tokens: seq<string>): (r: string)
  {
    if tokens == [] then "" else DecodeToken(tokens[0]) + DecodeTokens(tokens[1..])
  }

  /** The decode branch of `process`: split on single spaces, map each
      token back through the reversed table, concatenate. */
  function Decode(text: string): (r: string)
  {
    DecodeTokens(Split(text, ' '))
  }

  /** Codes are made of dots and dashes only. */
  lemma CodeHasNoSpace(c: char)
    requires CodeOf(c).Some?
    ensures ' ' !in CodeOf(c).value
  {
    CodesAreDotDash();
    var code := Table[TableIndex(c)].1;
    assert forall k :: 0 <= k < |code| ==> code[k] != ' ';
  }

  /** A character other than a space encodes to a token without a space. */
  lemma EncodeCharHasNoSpace(c: char)
    requires c != ' '
    ensures ' ' !in EncodeChar(c)
  {
    if CodeOf(UpperChar(c)).Some? {
      CodeHasNoSpace(UpperChar(c));
    }
  }

  /** Text without spaces encodes to one space-separated token per
      character, each the code of the upper-cased character or that
      character itself. */
  lemma EncodeTokens(text: string)
    requires |text| >= 1 && ' ' !in text
    ensures Split(Encode(text), ' ') == EncodeChars(ToUpper(text))
    ensures |Split(Encode(text), ' ')| == |text|
  {
    var parts := EncodeChars(ToUpper(text));
    forall k | 0 <= k < |parts|
      ensures ' ' !in parts[k]
    {
      assert text[k] != ' ';
      EncodeCharHasNoSpace(ToUpper(text)[k]);
    }
    SplitJoin(parts, ' ');
  }

  /** Lower- and upper-case letters encode identically. */
  lemma EncodeIgnoresCase(text: string)
    ensures Encode(text) == Encode(ToUpper(text))
  {
    ToUpperIdempotent(text);
  }

  /** A character without an entry, once upper-cased, passes through the encoder. */
  lemma EncodeCharPassesThrough(c: char)
    requires !InAlphabet(UpperChar(c))
    ensures EncodeChar(c) == [UpperChar(c)]
  {
  }

  /** A token that is no code passes through the decoder. */
  lemma DecodeTokenPassesThrough(token: string)
    requires forall c :: CodeOf(c) != Some(token)
    ensures DecodeToken(token) == token
  {
    match LetterOf(token)
    case None =>
    case Some(c) =>
      ReverseIsInverse(c, token);
  }

  /** The letters and digits of either case. */
  predicate IsAlphanumeric(c: char)
  {
    'A' <= c <= 'Z' || 'a' <= c <= 'z' || '0' <= c <= '9'
  }

  /** The code of a letter or digit decodes back to its upper case. */
  lemma DecodeCodeOf(ch: char)
    requires IsAlphanumeric(ch)
    ensures DecodeToken(EncodeChar(ch)) == [UpperChar(ch)]
  {
    var c := UpperChar(ch);
    assert InAlphabet(c);
    ReverseIsInverse(c, CodeOf(c).value);
  }

  /** Tokens each decoding to one character decode to those characters. */
  lemma {:induction false} DecodeTokensPointwise(ts: seq<string>, u: string)
    requires |ts| == |u| && forall k :: 0 <= k < |ts| ==> DecodeToken(ts[k]) == [u[k]]
    ensures DecodeTokens(ts) == u
  {
    if ts != [] {
      DecodeTokensPointwise(ts[1..], u[1..]);
      assert u == [u[0]] + u[1..];
    }
  }

  lemma DecodeEncodedChars(text: string)
    requires forall k :: 0 <= k < |text| ==> IsAlphanumeric(text[k])
    ensures DecodeTokens(EncodeChars(ToUpper(text))) == ToUpper(text)
  {
    var u := ToUpper(text);
    var ts := EncodeChars(u);
    forall k | 0 <= k < |ts| ensures DecodeToken(ts[k]) == [u[k]] {
      DecodeCodeOf(text[k]);
      assert EncodeChar(UpperChar(text[k])) == EncodeChar(text[k]);
    }
    DecodeTokensPointwise(ts, u);
  }

  /** The empty text decodes to itself: no code is empty. */
  lemma DecodeEmpty()
    ensures Decode("") == ""
  {
    CodesAreDotDash();
    forall c | CodeOf(c).Some? ensures CodeOf(c).value != "" {
      assert |Table[TableIndex(c)].1| >= 1;
    }
    DecodeTokenPassesThrough("");
    assert Split("", ' ') == [""];
    assert DecodeTokens([""]) == DecodeToken("") + DecodeTokens([]);
  }

  /** Decoding the encoding of a string of letters and digits gives the
      string upper-cased. */
  lemma DecodeEncode(text: string)
    requires forall k :: 0 <= k < |text| ==> IsAlphanumeric(text[k])
    ensures Decode(Encode(text)) == ToUpper(text)
  {
    if text == [] {
      assert Encode(text) == "";
      DecodeEmpty();
    } else {
      assert ' ' !in text by {
        forall k | 0 <= k < |text| ensures text[k] != ' ' { assert IsAlphanumeric(text[k]); }
      }
      EncodeTokens(text);
      DecodeEncodedChars(text);
    }
  }

  /** The two modes of the page; it starts in `DecodeMode`. */
  datatype Mode = EncodeMode | DecodeMode

  /** The mode toggle button. */
  function Toggle(m: Mode): (r: Mode)
    ensures r != m
  {
    match m
    case EncodeMode => DecodeMode
    case DecodeMode => EncodeMode
  }

  /** What `process` does with the text box: a warning that leaves the
      text as it is, or the converted text. */
  datatype Outcome = Warned | Converted(text: string)

  /** `process`: blank text (empty once trimmed) is refused; otherwise
      the text is encoded or decoded according to the mode. */
  function Process(mode: Mode, text: string): (r: Outcome)
  {
    if Trim(text) == "" then Warned
    else if mode == EncodeMode then Converted(Encode(text))
    else Converted(Decode(text))
  }

  /** Empty or whitespace-only text is refused, and any other text is converted. */
  lemma ProcessRefusesBlank(mode: Mode, text: string)
    ensures Process(mode, text) == Warned <==> AllWhitespace(text)
    ensures mode == EncodeMode && !AllWhitespace(text) ==> Process(mode, text) == Converted(Encode(text))
    ensures mode == DecodeMode && !AllWhitespace(text) ==> Process(mode, text) == Converted(Decode(text))
  {
    TrimEmptyIffBlank(text);
  }
}
