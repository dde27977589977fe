/** The JWT decoder page: it splits a token into its three dot-separated
    segments, decodes the header and payload segments and parses them as
    JSON, and, when a secret key is given, checks the HMAC-SHA256
    signature. JSON.parse and the HMAC are parameters: `parse` maps text
    to a JSON value or an error message, and `hmac(key, data)` is the
    standard Base64 text of the HMAC-SHA256 digest of `data` under `key`. */
module Jwtdecode {
  import opened Wrappers
  import opened Strings
  import opened Json
  import opened Base64

  /** `base64UrlEncode`: `+` becomes `-`, `/` becomes `_`, and the trailing
      `=` are removed. */
  function Base64UrlEncode(s: string): (r: string)
    ensures '+' !in r && '/' !in r
    ensures r == [] || r[|r| - 1] != '='
    ensures |r| <= |s|
    ensures forall k :: 0 <= k < |r| ==> r[k] == UrlChar(s[k])
    ensures forall k :: |r| <= k < |s| ==> s[k] == '='
  {
    var t := ToUrlAlphabet(s);
    var r := DropTrailing(t, '=');
    assert forall k :: 0 <= k < |r| ==> r[k] == t[k];
    r
  }

  /** The base64url character for a standard Base64 character. */
  function UrlChar(c: char): char
  {
    if c == '+' then '-' else if c == '/' then '_' else c
  }

  /** The two global replacements of `base64UrlEncode`. */
  function ToUrlAlphabet(s: string): (r: string)
    ensures |r| == |s| && forall k :: 0 <= k < |s| ==> r[k] == UrlChar(s[k])
  {
    ReplaceAll(ReplaceAll(s, '+', '-'), '/', '_')
  }

  lemma ReplaceAbsent(s: string, x: char, y: char)
    requires x !in s
    ensures ReplaceAll(s, x, y) == s
  {
    assert forall k :: 0 <= k < |s| ==> s[k] != x;
  }

  /** Encoding twice changes nothing more. */
  lemma Base64UrlEncodeIdempotent(s: string)
    ensures Base64UrlEncode(Base64UrlEncode(s)) == Base64UrlEncode(s)
  {
    var r := Base64UrlEncode(s);
    ReplaceAbsent(r, '+', '-');
    ReplaceAbsent(r, '/', '_');
  }

  /** `isJWT`: the token splits on `.` into exactly three parts. */
  predicate IsJwt(token: string)
  {
    |Split(token, '.')| == 3
  }

  /** A token is a JWT exactly when it has two dots, and then its three
      parts joined with dots give the token back. */
  lemma IsJwtIff(token: string)
    ensures IsJwt(token) <==> Count(token, '.') == 2
    ensures IsJwt(token) ==>
      var parts := Split(token, '.');
      parts[0] + "." + parts[1] + "." + parts[2] == token
  {
    if IsJwt(token) {
      var parts := Split(token, '.');
      JoinSplit(token, '.');
      assert Join(parts, ".") == parts[0] + "." + Join(parts[1..], ".");
      assert Join(parts[1..], ".") == parts[1] + "." + Join(parts[2..], ".");
    }
  }

  /** `calculateSignature`: the base64url form of the HMAC-SHA256 of `data`. */
  function CalculateSignature(data: string, secretKey: string, hmac: (string, string) -> string): (r: string)
    ensures '+' !in r && '/' !in r && (r == [] || r[|r| - 1] != '=')
  {
    Base64UrlEncode(hmac(secretKey, data))
  }

  /** `verifyJWTSignature`: a three-part token whose third part is the
      signature of the first two joined with a dot. */
  function VerifyJwtSignature(token: string, secretKey: string, hmac: (string, string) -> string): bool
  {
    var parts := Split(token, '.');
    if |parts| != 3 then false
    else CalculateSignature(parts[0] + "." + parts[1], secretKey, hmac) == parts[2]
  }

  /** The token a signer produces from a header and a payload segment. */
  function Sign(header: string, payload: string, secretKey: string, hmac: (string, string) -> string): (t: string)
  {
    header + "." + payload + "." + CalculateSignature(header + "." + payload, secretKey, hmac)
  }

  /** A token that does not split into three parts never verifies. */
  lemma VerifyNeedsThreeParts(token: string, secretKey: string, hmac: (string, string) -> string)
    requires !IsJwt(token)
    ensures !VerifyJwtSignature(token, secretKey, hmac)
  {
  }

  /** A token verifies exactly when it is a JWT that its own first two parts sign. */
  lemma VerifyIff(token: string, secretKey: string, hmac: (string, string) -> string)
    ensures VerifyJwtSignature(token, secretKey, hmac) <==>
      IsJwt(token) && token == Sign(Split(token, '.')[0], Split(token, '.')[1], secretKey, hmac)
  {
    IsJwtIff(token);
    if IsJwt(token) {
      var parts := Split(token, '.');
      var sig := CalculateSignature(parts[0] + "." + parts[1], secretKey, hmac);
      if token == Sign(parts[0], parts[1], secretKey, hmac) {
        assert parts[0] + "." + parts[1] + "." + parts[2] == parts[0] + "." + parts[1] + "." + sig;
        assert |parts[0] + "." + parts[1] + "."| == |parts[0]| + |parts[1]| + 2;
        assert parts[2] == (parts[0] + "." + parts[1] + "." + parts[2])[|parts[0]| + |parts[1]| + 2..];
      }
    }
  }

  /** Signing segments that contain no dot, with an HMAC whose text has no
      dot, gives a token that verifies under the same key. */
  lemma SignThenVerify(header: string, payload: string, secretKey: string, hmac: (string, string) -> string)
    requires '.' !in header && '.' !in payload && '.' !in hmac(secretKey, header + "." + payload)
    ensures IsJwt(Sign(header, payload, secretKey, hmac))
    ensures VerifyJwtSignature(Sign(header, payload, secretKey, hmac), secretKey, hmac)
  {
    var sig := CalculateSignature(header + "." + payload, secretKey, hmac);
    assert '.' !in sig by {
      var h := hmac(secretKey, header + "." + payload);
      forall k | 0 <= k < |sig| ensures sig[k] != '.' {
        assert sig[k] == UrlChar(h[k]);
      }
    }
    var token := Sign(header, payload, secretKey, hmac);
    assert token == header + ['.'] + (payload + ['.'] + sig);
    SplitPrefix(header, payload + ['.'] + sig, '.');
    SplitPrefix(payload, sig, '.');
    SplitNoSeparator(sig, '.');
    assert Split(token, '.') == [header, payload, sig];
  }

  /** How the page reads the header and payload segments: `atob`. It
      accepts only the standard alphabet, so a base64url segment with a
      `-` or `_` is refused. */
  function DecodeSegmentAsWritten(segment: string): (r: Option<string>)
    ensures r.Some? ==> IsLatin1(r.value)
  {
    Atob(segment)
  }

  /** `atob` refuses every segment that uses a base64url-only character. */
  lemma AsWrittenRefusesUrlAlphabet(segment: string)
    requires '-' in segment || '_' in segment
    ensures DecodeSegmentAsWritten(segment).None?
  {
    var t := StripPadding(segment);
    var k :| 0 <= k < |segment| && (segment[k] == '-' || segment[k] == '_');
    assert k < |t|;
    assert t[k] == segment[k] && !IsAlphabetChar(t[k]);
  }

  lemma ExampleBytes()
    ensures IsLatin1("[\">\"]") && ToBytes("[\">\"]") == [91, 34, 62, 34, 93]
  {
  }

  lemma ExampleSextets()
    ensures Sextets([91, 34, 62, 34, 93]) == [22, 50, 8, 62, 8, 37, 52]
  {
    assert Sextets([91, 34, 62, 34, 93][3..]) == [8, 37, 52] by {
      assert [91, 34, 62, 34, 93][3..] == [34, 93];
    }
  }

  lemma ExampleChars()
    ensures ToChars([22, 50, 8, 62, 8, 37, 52]) == "WyI+Il0"
  {
    assert SextetChar(22) == 'W' && SextetChar(50) == 'y' && SextetChar(8) == 'I' && SextetChar(62) == '+';
    assert SextetChar(37) == 'l' && SextetChar(52) == '0';
  }

  /** The standard Base64 of the payload `[">"]` is `WyI+Il0=`. */
  lemma PayloadExampleBase64()
    ensures Btoa("[\">\"]") == Some("WyI+Il0=")
  {
    ExampleBytes();
    ExampleSextets();
    ExampleChars();
    var b: seq<Byte> := [91, 34, 62, 34, 93];
    assert Encode(b) == ToChars(Sextets(b)) + Padding(5);
    assert Padding(5) == "=";
    assert "WyI+Il0" + "=" == "WyI+Il0=";
  }

  lemma ExampleUrlAlphabet()
    ensures ToUrlAlphabet("WyI+Il0") == "WyI-Il0"
  {
    var t := ToUrlAlphabet("WyI+Il0");
    assert t[3] == UrlChar('+');
  }

  /** A signer therefore writes the payload segment `WyI-Il0`. */
  lemma PayloadExampleSegment()
    ensures Base64UrlEncode("WyI+Il0=") == "WyI-Il0"
  {
    assert AllAlphabet("WyI+Il0");
    assert "WyI+Il0=" == "WyI+Il0" + "=";
    UrlEncodePadded("WyI+Il0", "=");
    ExampleUrlAlphabet();
  }

  /** The payload `[">"]`: its standard Base64 is `WyI+Il0=`, so a signer
      writes the segment `WyI-Il0`, which `atob` refuses. */
  lemma AsWrittenRefusesPayloadExample()
    ensures Btoa("[\">\"]").Some?
    ensures DecodeSegmentAsWritten(Base64UrlEncode(Btoa("[\">\"]").value)).None?
  {
    PayloadExampleBase64();
    PayloadExampleSegment();
    assert "WyI-Il0"[3] == '-';
    AsWrittenRefusesUrlAlphabet("WyI-Il0");
  }

  /** Decoding a base64url segment: map `-` and `_` back to `+` and `/`,
      then `atob`, whose forgiving decode does without the padding. */
  function DecodeSegment(segment: string): (r: Option<string>)
    ensures r.Some? ==> IsLatin1(r.value)
  {
    Atob(FromUrlAlphabet(segment))
  }

  /** The standard Base64 character for a base64url character. */
  function StandardChar(c: char): char
  {
    if c == '-' then '+' else if c == '_' then '/' else c
  }

  function FromUrlAlphabet(s: string): (r: string)
    ensures |r| == |s| && forall k :: 0 <= k < |s| ==> r[k] == StandardChar(s[k])
  {
    ReplaceAll(ReplaceAll(s, '-', '+'), '_', '/')
  }

  lemma ToUrlAlphabetAppend(a: string, b: string)
    ensures ToUrlAlphabet(a + b) == ToUrlAlphabet(a) + ToUrlAlphabet(b)
  {
    var l, r := ToUrlAlphabet(a + b), ToUrlAlphabet(a) + ToUrlAlphabet(b);
    forall k | 0 <= k < |l| ensures l[k] == r[k] {
      if k < |a| {
        assert (a + b)[k] == a[k];
      } else {
        assert (a + b)[k] == b[k - |a|];
      }
    }
  }

  /** Base64url encoding of a padded encoding keeps just its alphabet
      characters, mapped to the URL alphabet. */
  lemma UrlEncodePadded(u: string, pad: string)
    requires AllAlphabet(u)
    requires pad == "" || pad == "=" || pad == "=="
    ensures Base64UrlEncode(u + pad) == ToUrlAlphabet(u)
  {
    ToUrlAlphabetAppend(u, pad);
    assert ToUrlAlphabet(pad) == pad;
    var m := ToUrlAlphabet(u);
    assert m == [] || m[|m| - 1] != '=' by {
      if m != [] {
        assert IsAlphabetChar(u[|u| - 1]);
      }
    }
    DropTrailingAppend(m, pad, '=');
  }

  /** The URL alphabet maps back to the standard one. */
  lemma FromToUrlAlphabet(u: string)
    requires AllAlphabet(u)
    ensures FromUrlAlphabet(ToUrlAlphabet(u)) == u
  {
    forall k | 0 <= k < |u| ensures FromUrlAlphabet(ToUrlAlphabet(u))[k] == u[k] {
      assert IsAlphabetChar(u[k]);
    }
  }

  /** Every Latin-1 text comes back from the base64url form of its Base64. */
  lemma DecodeSegmentRoundTrip(s: string)
    requires IsLatin1(s)
    ensures DecodeSegment(Base64UrlEncode(Btoa(s).value)) == Some(s)
  {
    var b := ToBytes(s);
    var u := ToChars(Sextets(b));
    assert Btoa(s).value == u + Padding(|b|);
    UrlEncodePadded(u, Padding(|b|));
    FromToUrlAlphabet(u);
    DecodeUnpadded(b);
    assert FromBytes(b) == s;
  }

  /** How a segment is decoded: with `atob` alone, as the page does, or
      with the base64url decoding the page evidently intends. */
  datatype Decoding = AsWritten | Intended

  function DecodeWith(decoding: Decoding, segment: string): (r: Option<string>)
    ensures r.Some? ==> IsLatin1(r.value)
    ensures decoding == AsWritten && ('-' in segment || '_' in segment) ==> r.None?
  {
    match decoding
    case AsWritten =>
      if '-' in segment || '_' in segment then
        AsWrittenRefusesUrlAlphabet(segment);
        DecodeSegmentAsWritten(segment)
      else DecodeSegmentAsWritten(segment)
    case Intended => DecodeSegment(segment)
  }

  /** Without `-` and `_` the URL alphabet is the standard one, so both
      decodings agree. */
  lemma DecodingsAgree(segment: string)
    requires '-' !in segment && '_' !in segment
    ensures DecodeWith(AsWritten, segment) == DecodeWith(Intended, segment)
  {
    assert FromUrlAlphabet(segment) == segment by {
      forall k | 0 <= k < |segment| ensures FromUrlAlphabet(segment)[k] == segment[k] {
        assert segment[k] != '-' && segment[k] != '_';
      }
    }
  }

  /** The header, the payload and the signature segment of a token, once
      both first segments decode and parse; None where the try block of
      `processData` throws (a failed decode or parse) or the token is not
      a JWT. The page decodes with `AsWritten`. */
  function DecodeParts(token: string, parse: string -> Result<Json, string>, decoding: Decoding): (r: Option<(Json, Json, string)>)
    ensures r.Some? ==> IsJwt(token) && r.value.2 == Split(token, '.')[2]
  {
    if !IsJwt(token) then None
    else
      var parts := Split(token, '.');
      match DecodeWith(decoding, parts[0])
      case None => None
      case Some(h) =>
        match parse(h)
        case Failure(_) => None
        case Success(header) =>
          match DecodeWith(decoding, parts[1])
          case None => None
          case Some(p) =>
            match parse(p)
            case Failure(_) => None
            case Success(payload) => Some((header, payload, parts[2]))
  }

  /** The segment a signer writes for a JSON value: the base64url form
      of the Base64 of its compact text. */
  function EncodeSegment(j: Json): (s: string)
    requires IsLatin1(Compact(j))
    ensures '.' !in s
  {
    SegmentHasNoDot(Compact(j));
    Base64UrlEncode(Btoa(Compact(j)).value)
  }

  /** A token signed over the encoded header and payload decodes to that
      header, that payload and its signature segment, whenever `parse`
      reads the compact text of each back: always with the intended
      decoding, and with the page's `atob` when neither segment uses a
      base64url-only character. */
  lemma DecodeSigned(header: Json, payload: Json, secretKey: string, hmac: (string, string) -> string, parse: string -> Result<Json, string>)
    requires IsLatin1(Compact(header)) && IsLatin1(Compact(payload))
    requires parse(Compact(header)) == Success(header) && parse(Compact(payload)) == Success(payload)
    requires '.' !in hmac(secretKey, EncodeSegment(header) + "." + EncodeSegment(payload))
    ensures var h, p := EncodeSegment(header), EncodeSegment(payload);
      DecodeParts(Sign(h, p, secretKey, hmac), parse, Intended) == Some((header, payload, CalculateSignature(h + "." + p, secretKey, hmac)))
    ensures var h, p := EncodeSegment(header), EncodeSegment(payload);
      '-' !in h && '_' !in h && '-' !in p && '_' !in p ==>
      DecodeParts(Sign(h, p, secretKey, hmac), parse, AsWritten) == Some((header, payload, CalculateSignature(h + "." + p, secretKey, hmac)))
  {
    var h, p := EncodeSegment(header), EncodeSegment(payload);
    EncodeSegmentDecodes(header);
    EncodeSegmentDecodes(payload);
    var sig := CalculateSignature(h + "." + p, secretKey, hmac);
    UrlEncodeKeepsOut(hmac(secretKey, h + "." + p), '.');
    SplitOfSigned(h, p, sig);
    DecodePartsOf(h, p, sig, parse, Intended);
    if '-' !in h && '_' !in h && '-' !in p && '_' !in p {
      PartsDecodingsAgree(h, p, sig, parse);
    }
  }

  /** On segments without base64url-only characters the page's decoding
      and the intended one give the same parts. */
  lemma PartsDecodingsAgree(h: string, p: string, sig: string, parse: string -> Result<Json, string>)
    requires Split(h + "." + p + "." + sig, '.') == [h, p, sig]
    requires '-' !in h && '_' !in h && '-' !in p && '_' !in p
    ensures DecodeParts(h + "." + p + "." + sig, parse, AsWritten) == DecodeParts(h + "." + p + "." + sig, parse, Intended)
  {
    DecodingsAgree(h);
    DecodingsAgree(p);
    DecodePartsOf(h, p, sig, parse, AsWritten);
    DecodePartsOf(h, p, sig, parse, Intended);
  }

  /** As written, the page decodes nothing of a token whose payload
      segment uses a base64url-only character. */
  lemma AsWrittenRefusesUrlPayload(h: string, p: string, sig: string, parse: string -> Result<Json, string>)
    requires '.' !in h && '.' !in p
    requires '-' in p || '_' in p
    ensures DecodeParts(h + "." + p + "." + sig, parse, AsWritten).None?
  {
    var token := h + "." + p + "." + sig;
    assert token == h + ['.'] + (p + ['.'] + sig);
    SplitPrefix(h, p + ['.'] + sig, '.');
    SplitPrefix(p, sig, '.');
    assert Split(token, '.')[1] == p;
    AsWrittenRefusesUrlAlphabet(p);
  }

  /** A character outside both alphabets' special characters and `=` is in
      the base64url form exactly when it is in the input. */
  lemma UrlEncodeKeepsOut(s: string, c: char)
    requires c != '+' && c != '/' && c != '-' && c != '_' && c != '='
    ensures c in Base64UrlEncode(s) <==> c in s
  {
    var r := Base64UrlEncode(s);
    if c in s {
      var k :| 0 <= k < |s| && s[k] == c;
      assert k < |r| && r[k] == c;
    }
    if c in r {
      var k :| 0 <= k < |r| && r[k] == c;
      assert UrlChar(s[k]) == c;
    }
  }

  /** A segment a signer writes has no `.` and decodes to the compact text. */
  lemma EncodeSegmentDecodes(j: Json)
    requires IsLatin1(Compact(j))
    ensures '.' !in EncodeSegment(j)
    ensures DecodeSegment(EncodeSegment(j)) == Some(Compact(j))
  {
    SegmentHasNoDot(Compact(j));
    DecodeSegmentRoundTrip(Compact(j));
  }

  /** `DecodeParts` on a token made of three dot-free segments, with
      either decoding. */
  lemma DecodePartsOf(h: string, p: string, sig: string, parse: string -> Result<Json, string>, decoding: Decoding)
    requires Split(h + "." + p + "." + sig, '.') == [h, p, sig]
    ensures var ht, pt := DecodeWith(decoding, h), DecodeWith(decoding, p);
      DecodeParts(h + "." + p + "." + sig, parse, decoding) ==
        if ht.Some? && pt.Some? && parse(ht.value).Success? && parse(pt.value).Success?
        then Some((parse(ht.value).value, parse(pt.value).value, sig))
        else None
  {
  }

  lemma SegmentHasNoDot(s: string)
    requires IsLatin1(s)
    ensures '.' !in Base64UrlEncode(Btoa(s).value)
  {
    var e := Btoa(s).value;
    var r := Base64UrlEncode(e);
    forall k | 0 <= k < |r| ensures r[k] != '.' {
      assert r[k] == UrlChar(e[k]);
      assert IsAlphabetChar(e[k]) || e[k] == '=';
    }
  }

  lemma SplitOfSigned(h: string, p: string, sig: string)
    requires '.' !in h && '.' !in p && '.' !in sig
    ensures Split(h + "." + p + "." + sig, '.') == [h, p, sig]
  {
    assert h + "." + p + "." + sig == h + ['.'] + (p + ['.'] + sig);
    SplitPrefix(h, p + ['.'] + sig, '.');
    SplitPrefix(p, sig, '.');
    SplitNoSeparator(sig, '.');
  }

  /** What the page shows: the decoded header and payload, the signature
      segment, and the verification result (None until one is made). */
  datatype View = View(header: Json, payload: Json, signature: string, isVerified: Option<bool>)

  /** The page before any token is processed. */
  const InitialView := View(Obj([]), Obj([]), "", None)

  /** `processData` on a token and key: a token that decodes replaces the
      header, the payload and the signature together and, when the key is
      not empty, the verification result; otherwise nothing changes. The
      page is `Process` with the `AsWritten` decoding. */
  function Process(token: string, secretKey: string, v: View, parse: string -> Result<Json, string>, hmac: (string, string) -> string, decoding: Decoding): (r: View)
  {
    match DecodeParts(token, parse, decoding)
    case None => v
    case Some(d) =>
      View(d.0, d.1, d.2, if secretKey != "" then Some(VerifyJwtSignature(token, secretKey, hmac)) else v.isVerified)
  }

  /** Header, payload and signature change together, only when both first
      segments decode and parse; otherwise all four fields keep their values. */
  lemma ProcessUpdatesTogether(token: string, secretKey: string, v: View, parse: string -> Result<Json, string>, hmac: (string, string) -> string, decoding: Decoding)
    ensures DecodeParts(token, parse, decoding).None? ==> Process(token, secretKey, v, parse, hmac, decoding) == v
    ensures DecodeParts(token, parse, decoding).Some? ==>
      var r := Process(token, secretKey, v, parse, hmac, decoding);
      (r.header, r.payload, r.signature) == DecodeParts(token, parse, decoding).value && r.signature == Split(token, '.')[2]
    ensures !IsJwt(token) ==> Process(token, secretKey, v, parse, hmac, decoding) == v
  {
  }

  /** The verification result is recomputed only when the key is not empty,
      and is then the signature check of the whole token. */
  lemma ProcessVerifiesOnlyWithKey(token: string, secretKey: string, v: View, parse: string -> Result<Json, string>, hmac: (string, string) -> string, decoding: Decoding)
    ensures secretKey == "" ==> Process(token, secretKey, v, parse, hmac, decoding).isVerified == v.isVerified
    ensures secretKey != "" && DecodeParts(token, parse, decoding).Some? ==>
      Process(token, secretKey, v, parse, hmac, decoding).isVerified == Some(VerifyJwtSignature(token, secretKey, hmac))
  {
  }

  /** As written, the page shows nothing new for a signed token whose
      payload is `[">"]` (the segment `WyI-Il0`), whatever the header. */
  lemma PageRefusesPayloadExample(h: string, secretKey: string, v: View, parse: string -> Result<Json, string>, hmac: (string, string) -> string)
    requires '.' !in h
    ensures Process(Sign(h, "WyI-Il0", secretKey, hmac), secretKey, v, parse, hmac, AsWritten) == v
  {
    var p := "WyI-Il0";
    assert p[3] == '-';
    assert '.' !in p by {
      forall k | 0 <= k < |p| ensures p[k] != '.' {}
    }
    AsWrittenRefusesUrlPayload(h, p, CalculateSignature(h + "." + p, secretKey, hmac), parse);
  }

  /** The page's state: the two inputs and what it shows. The effect that
      watches the token and the key runs `processData` whenever either of
      them is not empty. */
  class JwtDecoder {
    var inputData: string
    var secretKey: string
    var header: Json
    var payload: Json
    var signature: string
    var isVerified: Option<bool>

    function Shown(): View
      reads this
    {
      View(header, payload, signature, isVerified)
    }

    constructor()
      ensures inputData == "" && secretKey == "" && Shown() == InitialView
    {
      inputData := "";
      secretKey := "";
      header := Obj([]);
      payload := Obj([]);
      signature := "";
      isVerified := None;
    }

    /** `processData` */
    method ProcessData(parse: string -> Result<Json, string>, hmac: (string, string) -> string)
      modifies this
      ensures inputData == old(inputData) && secretKey == old(secretKey)
      ensures Shown() == Process(inputData, secretKey, old(Shown()), parse, hmac, AsWritten)
    {
      match DecodeParts(inputData, parse, AsWritten) {
        case None =>
        case Some(d) =>
          header := d.0;
          payload := d.1;
          signature := d.2;
          if secretKey != "" {
            isVerified := Some(VerifyJwtSignature(inputData, secretKey, hmac));
          }
      }
    }

    /** Typing a token, followed by the effect, which runs only when the
        token actually changed. */
    method SetInputData(token: string, parse: string -> Result<Json, string>, hmac: (string, string) -> string)
      modifies this
      ensures inputData == token && secretKey == old(secretKey)
      ensures Shown() ==
        if token != old(inputData) && (token != "" || secretKey != "") then Process(token, secretKey, old(Shown()), parse, hmac, AsWritten)
        else old(Shown())
    {
      var changed := token != inputData;
      inputData := token;
      if changed && (inputData != "" || secretKey != "") {
        ProcessData(parse, hmac);
      }
    }

    /** Typing a secret key, followed by the effect, which runs only when
        the key actually changed. */
    method SetSecretKey(key: string, parse: string -> Result<Json, string>, hmac: (string, string) -> string)
      modifies this
      ensures secretKey == key && inputData == old(inputData)
      ensures Shown() ==
        if key != old(secretKey) && (inputData != "" || key != "") then Process(inputData, key, old(Shown()), parse, hmac, AsWritten)
        else old(Shown())
    {
      var changed := key != secretKey;
      secretKey := key;
      if changed && (inputData != "" || secretKey != "") {
        ProcessData(parse, hmac);
      }
    }
  }
}
