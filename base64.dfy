/** Base64 as the browser's `btoa` and `atob` apply it: the encoding of
    section 4 of RFC 4648 over Latin-1 text (one byte per character), and
    the HTML standard's "forgiving-base64 decode" (padding optional,
    leftover bits discarded). */
module Base64 {
  import opened Wrappers

  type Byte = b: int | 0 <= b < 256

  type Sextet = v: int | 0 <= v < 64

  /** The 64 characters of the standard alphabet (Table 1 of RFC 4648). */
  predicate IsAlphabetChar(c: char)
  {
    'A' <= c <= 'Z' || 'a' <= c <= 'z' || '0' <= c <= '9' || c == '+' || c == '/'
  }

  predicate AllAlphabet(s: string)
  {
    forall k :: 0 <= k < |s| ==> IsAlphabetChar(s[k])
  }

  function SextetChar(v: Sextet): (c: char)
    ensures IsAlphabetChar(c)
  {
    if v < 26 then ('A' as int + v) as char
    else if v < 52 then ('a' as int + (v - 26)) as char
    else if v < 62 then ('0' as int + (v - 52)) as char
    else if v == 62 then '+'
    else '/'
  }

  function SextetValue(c: char): (v: Sextet)
    requires IsAlphabetChar(c)
    ensures SextetChar(v) == c
  {
    if 'A' <= c <= 'Z' then c as int - 'A' as int
    else if 'a' <= c <= 'z' then c as int - 'a' as int + 26
    else if '0' <= c <= '9' then c as int - '0' as int + 52
    else if c == '+' then 62
    else 63
  }

  /** The alphabet is a bijection between values and characters. */
  lemma SextetValueOfChar(v: Sextet)
    ensures SextetValue(SextetChar(v)) == v
  {
  }

  /** The bytes cut into six-bit values, most significant bits first: three
      bytes give four values, one or two final bytes give two or three values
      whose spare low bits are zero. */
  function Sextets(b: seq<Byte>): (v: seq<Sextet>)
  {
    if |b| == 0 then []
    else if |b| == 1 then [b[0] / 4, (b[0] % 4) * 16]
    else if |b| == 2 then [b[0] / 4, (b[0] % 4) * 16 + b[1] / 16, (b[1] % 16) * 4]
    else [b[0] / 4, (b[0] % 4) * 16 + b[1] / 16, (b[1] % 16) * 4 + b[2] / 64, b[2] % 64] + Sextets(b[3..])
  }

  /** Four values per three bytes, two or three for the final one or two. */
  lemma {:induction false} SextetsLength(b: seq<Byte>)
    ensures |Sextets(b)| == 4 * (|b| / 3) + (if |b| % 3 == 0 then 0 else |b| % 3 + 1)
    ensures |Sextets(b)| % 4 == (if |b| % 3 == 0 then 0 else |b| % 3 + 1)
  {
    if |b| >= 3 {
      SextetsLength(b[3..]);
    }
  }

  /** Six-bit values put back together into bytes; a final two or three
      values give their top 8 or 16 bits, the rest is discarded. */
  function Unsextets(v: seq<Sextet>): (b: seq<Byte>)
    requires |v| % 4 != 1
  {
    if |v| == 0 then []
    else if |v| == 2 then [v[0] as int * 4 + v[1] / 16]
    else if |v| == 3 then [v[0] as int * 4 + v[1] / 16, (v[1] as int % 16) * 16 + v[2] / 4]
    else [v[0] as int * 4 + v[1] / 16, (v[1] as int % 16) * 16 + v[2] / 4, (v[2] as int % 4) * 64 + v[3]] + Unsextets(v[4..])
  }

  lemma GroupRoundTrip(b0: Byte, b1: Byte, b2: Byte)
    ensures (b0 / 4) * 4 + ((b0 % 4) * 16 + b1 / 16) / 16 == b0
    ensures (((b0 % 4) * 16 + b1 / 16) % 16) * 16 + ((b1 % 16) * 4 + b2 / 64) / 4 == b1
    ensures (((b1 % 16) * 4 + b2 / 64) % 4) * 64 + b2 % 64 == b2
  {
  }

  /** The first three bytes come back from the first four values. */
  lemma FirstGroupRoundTrip(b: seq<Byte>)
    requires |b| >= 3
    ensures var v := Sextets(b);
      |v| >= 4 && v[4..] == Sextets(b[3..]) &&
      [v[0] as int * 4 + v[1] / 16, (v[1] as int % 16) * 16 + v[2] / 4, (v[2] as int % 4) * 64 + v[3]] == b[..3]
  {
    GroupRoundTrip(b[0], b[1], b[2]);
  }

  /** Putting the six-bit values back together gives the bytes. */
  lemma {:induction false} SextetsRoundTrip(b: seq<Byte>)
    ensures |Sextets(b)| % 4 != 1
    ensures Unsextets(Sextets(b)) == b
  {
    SextetsLength(b);
    if |b| == 0 {
    } else if |b| == 1 {
      GroupRoundTrip(b[0], 0, 0);
    } else if |b| == 2 {
      GroupRoundTrip(b[0], b[1], 0);
    } else {
      var v := Sextets(b);
      FirstGroupRoundTrip(b);
      SextetsRoundTrip(b[3..]);
      assert Unsextets(v) == b[..3] + Unsextets(v[4..]);
      assert b == b[..3] + b[3..];
    }
  }

  function ToChars(v: seq<Sextet>): (s: string)
    ensures |s| == |v| && AllAlphabet(s)
  {
    seq(|v|, k requires 0 <= k < |v| => SextetChar(v[k]))
  }

  function ToSextets(s: string): (v: seq<Sextet>)
    requires AllAlphabet(s)
    ensures |v| == |s|
  {
    seq(|s|, k requires 0 <= k < |s| => SextetValue(s[k]))
  }

  lemma CharsRoundTrip(v: seq<Sextet>)
    ensures ToSextets(ToChars(v)) == v
  {
    forall k | 0 <= k < |v|
      ensures ToSextets(ToChars(v))[k] == v[k]
    {
      SextetValueOfChar(v[k]);
    }
  }

  /** `=` characters completing the last group for `n` bytes. */
  function Padding(n: nat): (p: string)
    ensures p == "" || p == "=" || p == "=="
  {
    if n % 3 == 1 then "==" else if n % 3 == 2 then "=" else ""
  }

  /** RFC 4648 section 4: the alphabet characters of the six-bit values,
      then `=` up to a multiple of four characters. */
  function Encode(b: seq<Byte>): (s: string)
  {
    ToChars(Sextets(b)) + Padding(|b|)
  }

  /** The shape RFC 4648 gives an encoding: a length that is a multiple of
      four, alphabet characters, and `=` only as one or two final characters. */
  predicate PaddedShape(s: string)
  {
    && |s| % 4 == 0
    && (forall k :: 0 <= k < |s| ==> IsAlphabetChar(s[k]) || s[k] == '=')
    && (forall k :: 0 <= k < |s| && s[k] == '=' ==> k >= |s| - 2 && forall m :: k <= m < |s| ==> s[m] == '=')
  }

  /** An encoding has 4 * ceil(n / 3) characters and the padded shape. */
  lemma EncodeShape(b: seq<Byte>)
    ensures |Encode(b)| == 4 * ((|b| + 2) / 3)
    ensures PaddedShape(Encode(b))
  {
    SextetsLength(b);
    PaddedShapeOf(ToChars(Sextets(b)), Padding(|b|));
  }

  /** Alphabet text followed by at most two `=` to a multiple of four has the padded shape. */
  lemma PaddedShapeOf(u: string, pad: string)
    requires AllAlphabet(u)
    requires pad == "" || pad == "=" || pad == "=="
    requires (|u| + |pad|) % 4 == 0
    ensures PaddedShape(u + pad)
  {
    var s := u + pad;
    assert forall k :: 0 <= k < |u| ==> s[k] == u[k];
    assert forall k :: |u| <= k < |s| ==> s[k] == '=';
  }

  /** Step 2 of forgiving-base64 decode: when the length is a multiple of
      four, one or two final `=` are removed. */
  function StripPadding(s: string): (t: string)
    ensures |s| - 2 <= |t| <= |s| && t == s[..|t|]
    ensures forall k :: |t| <= k < |s| ==> s[k] == '='
  {
    if |s| % 4 == 0 && |s| >= 2 && s[|s| - 1] == '=' && s[|s| - 2] == '=' then s[..|s| - 2]
    else if |s| % 4 == 0 && |s| >= 1 && s[|s| - 1] == '=' then s[..|s| - 1]
    else s
  }

  /** Forgiving-base64 decode (without its removal of ASCII whitespace):
      fails on a length of 1 modulo 4 once padding is stripped and on any
      character outside the alphabet, a misplaced `=` included. */
  function Decode(s: string): (r: Option<seq<Byte>>)
  {
    var t := StripPadding(s);
    if |t| % 4 == 1 || !AllAlphabet(t) then None
    else Some(Unsextets(ToSextets(t)))
  }

  /** Step 2 of forgiving decode removes exactly the padding an encoder adds. */
  lemma StripPaddingOf(u: string, pad: string)
    requires AllAlphabet(u)
    requires (pad == "" && |u| % 4 == 0) || (pad == "=" && |u| % 4 == 3) || (pad == "==" && |u| % 4 == 2)
    ensures StripPadding(u + pad) == u
  {
    var s := u + pad;
    if pad == "==" {
      assert s[..|s| - 2] == u;
    } else if pad == "=" {
      assert s[|s| - 2] == u[|u| - 1] != '=';
      assert s[..|s| - 1] == u;
    } else {
      assert s == u;
      assert u != [] ==> u[|u| - 1] != '=';
    }
  }

  /** Decoding inverts encoding for every byte sequence. */
  lemma DecodeEncode(b: seq<Byte>)
    ensures Decode(Encode(b)) == Some(b)
  {
    var v := Sextets(b);
    SextetsLength(b);
    StripPaddingOf(ToChars(v), Padding(|b|));
    CharsRoundTrip(v);
    SextetsRoundTrip(b);
  }

  /** Forgiving decode also accepts an encoding whose padding was removed. */
  lemma DecodeUnpadded(b: seq<Byte>)
    ensures Decode(ToChars(Sextets(b))) == Some(b)
  {
    var v := Sextets(b);
    var u := ToChars(v);
    SextetsLength(b);
    assert u != [] ==> u[|u| - 1] != '=';
    assert StripPadding(u) == u;
    CharsRoundTrip(v);
    SextetsRoundTrip(b);
  }

  /** Latin-1 text: every character is at most U+00FF. */
  predicate IsLatin1(s: string)
  {
    forall k :: 0 <= k < |s| ==> s[k] as int < 256
  }

  function ToBytes(s: string): (b: seq<Byte>)
    requires IsLatin1(s)
    ensures |b| == |s| && forall k :: 0 <= k < |s| ==> b[k] == s[k] as int
  {
    seq(|s|, k requires 0 <= k < |s| => s[k] as int)
  }

  function FromBytes(b: seq<Byte>): (s: string)
    ensures IsLatin1(s) && ToBytes(s) == b
  {
    seq(|b|, k requires 0 <= k < |b| => b[k] as char)
  }

  /** `btoa(s)`: fails (an InvalidCharacterError) on a character above U+00FF. */
  function Btoa(s: string): (r: Option<string>)
    ensures r.Some? <==> IsLatin1(s)
    ensures r.Some? ==> PaddedShape(r.value) && |r.value| == 4 * ((|s| + 2) / 3)
  {
    if IsLatin1(s) then
      EncodeShape(ToBytes(s));
      Some(Encode(ToBytes(s)))
    else None
  }

  /** `atob(s)`: the decoded bytes as a string of characters U+0000 to U+00FF. */
  function Atob(s: string): (r: Option<string>)
    ensures r.Some? ==> IsLatin1(r.value)
  {
    match Decode(s)
    case Some(b) => Some(FromBytes(b))
    case None => None
  }

  /** `atob(btoa(s)) == s` for Latin-1 text. */
  lemma AtobBtoa(s: string)
    requires IsLatin1(s)
    ensures Btoa(s).Some? && Atob(Btoa(s).value) == Some(s)
  {
    DecodeEncode(ToBytes(s));
    assert FromBytes(ToBytes(s)) == s;
  }
}
