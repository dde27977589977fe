# devtoolshub text tools, modelled in Dafny

devtoolshub is a set of browser utilities built with React. This project
models the few of them that do real text processing, and proves what
their code promises:

- **Morse code** (`components/MorseCode.tsx`). A fixed 36-entry table for
  A–Z and 0–9.
  - The encoder upper-cases the text, maps each character through the
    table (keeping characters that have no entry) and joins with single
    spaces.
  - The decoder splits on single spaces, maps each token back through the
    reversed table (keeping unknown tokens) and concatenates.
  - Blank text is refused with a warning.
- **JWT decoder** (`components/Jwt/Jwtdecode.tsx`).
  - A token is a JWT when it splits on `.` into three parts.
  - `base64UrlEncode` turns standard Base64 into the base64url alphabet
    (section 5 of RFC 4648).
  - A signature is checked by comparing the base64url HMAC-SHA256 of
    `header.payload` with the third part.
  - `processData` replaces the shown header, payload and signature together,
    and only when both first segments decode and parse.
  - The page decodes each segment with `atob` alone. A separate, intended
    decoding maps the base64url alphabet back first; both are modelled.
- **JSON / PHP-serialized formatters** (`components/JsonFormat/JsonFormat.tsx`,
  `components/JsonFormat/JsonFormatVertical.tsx`, `src/app/page.tsx`).
  - The rule shared by all three: input `JSON.parse` accepts is pretty
    printed with four spaces; otherwise input starting with a PHP type
    sigil is unserialized and pretty printed, or gives a fixed error text;
    anything else leaves the output alone.
  - The copy buttons, with and without their guards against a blank output.
- **JSON to PHP array** (`components/JsonFormat/JsonToArrayVertical.tsx`).
  JSON text is printed as a `<?php $arrayVar = [...]` literal, one
  `key => value` line per entry, with fixed texts for blank, invalid and
  null input.
- **Base64 tool** (`components/base64.tsx`). The trimmed input goes through
  `btoa` or `atob` according to the mode, and any failure gives one fixed
  error text.

Pure code becomes functions and lemmas. Each React component whose state
its handlers update becomes a class: its state variables are fields, and
its handlers are methods whose `ensures` give the whole new state as
functions of the old one.

Some operations are the browser's or a library's, and are parameters of
the model:

- `JSON.parse` (`parse: string -> Result<Json, string>`, giving a value
  or the message of the exception);
- php-serialize's `unserialize` and `serialize`;
- HMAC-SHA256 (`hmac(key, data)`, the standard Base64 text of the
  digest);
- the regular-expression pre-check of `JsonToArrayVertical`;
- the message of the TypeError raised by `null.key`.

`JSON.stringify` is modelled in full, following section 25.5.2 of
ECMA-262, over a JSON value whose numbers are integers. `btoa` is
section 4 of RFC 4648 over Latin-1 text. `atob` is the HTML standard's
forgiving-base64 decode: padding is optional and leftover bits are
discarded.

Modules: `Wrappers` (Option, Result); `Strings` (JavaScript `trim`,
`split`, `join`, `startsWith`, `replace`, ASCII `toUpperCase`); `Json`;
`Base64`; `MorseTable`; `MorseCode`; `Jwtdecode`; `JsonDispatch`;
`JsonFormat`; `JsonFormatVertical`; `AppPage` (`src/app/page.tsx`);
`JsonToArrayVertical`; `Base64Page`.

## Model

| member | source | states |
|---|---|---|
| `MorseTable.TableIndex` | components/MorseCode.tsx:5-13 | every letter A–Z and digit 0–9 has an entry in the table, at its alphabetical position |
| `MorseTable.LettersInOrder` | components/MorseCode.tsx:5-13 | the 36 entries are A–Z then 0–9, each where `TableIndex` puts it |
| `MorseTable.CodesAreDotDash` | components/MorseCode.tsx:5-13 | every code is one to five characters, each a dot or a dash |
| `MorseTable.TableEntries` | components/MorseCode.tsx:5-13 | every code leads through the Morse tree (dot left, dash right) to its own letter |
| `MorseTable.CodesDistinct` | components/MorseCode.tsx:5-13 | the 36 codes are pairwise distinct |
| `MorseCode.CodeOf` | components/MorseCode.tsx:29 | `morseMap[ch]` is defined exactly for A–Z and 0–9, and is then that entry's code |
| `MorseCode.FindCode` | components/MorseCode.tsx:33 | the reversed lookup gives a letter only when some entry pairs it with the code, and gives nothing when no entry has the code |
| `MorseCode.LetterOf` | components/MorseCode.tsx:33 | no contract of its own: `reverseMap[code]`; `ReverseIsInverse` proves it gives `c` for `code` exactly when the table maps `c` to `code` |
| `MorseCode.ReverseIsInverse` | components/MorseCode.tsx:33 | the reversed table maps `code` to `c` exactly when the table maps `c` to `code` |
| `MorseCode.EncodeChar` | components/MorseCode.tsx:27-29 | the token of a character is a table code exactly when its upper-cased form has an entry, and is that upper-cased character otherwise |
| `MorseCode.EncodeChars` | components/MorseCode.tsx:28-29 | one token per character, in order, each that character's mapping |
| `MorseCode.Encode` | components/MorseCode.tsx:26-30 | no contract of its own: the encode branch; `EncodeTokens` proves one space-separated token per character, and `DecodeEncode` that decoding inverts it on alphanumeric text |
| `MorseCode.DecodeToken` | components/MorseCode.tsx:36 | a token decodes either to itself or to the single character whose code it is |
| `MorseCode.DecodeTokens` | components/MorseCode.tsx:34-37 | no contract of its own: the decoded tokens concatenated; `DecodeTokensPointwise` proves tokens that each decode to one character give those characters in order |
| `MorseCode.Decode` | components/MorseCode.tsx:34-37 | no contract of its own: the decode branch; `DecodeEncode` proves it inverts the encoder on alphanumeric text, and `DecodeEmpty` that empty text stays empty |
| `MorseCode.CodeHasNoSpace` | components/MorseCode.tsx:5-13 | no code contains a space |
| `MorseCode.EncodeCharHasNoSpace` | components/MorseCode.tsx:29 | a character other than a space maps to a token without a space |
| `MorseCode.EncodeTokens` | components/MorseCode.tsx:26-30 | text without spaces encodes to one space-separated token per character, each the code of the upper-cased character or that character itself |
| `MorseCode.EncodeIgnoresCase` | components/MorseCode.tsx:27 | lower- and upper-case text encode identically |
| `MorseCode.EncodeCharPassesThrough` | components/MorseCode.tsx:29 | a character with no entry passes through the encoder (upper-cased) |
| `MorseCode.DecodeTokenPassesThrough` | components/MorseCode.tsx:36 | a token that is no code passes through the decoder unchanged |
| `MorseCode.DecodeCodeOf` | components/MorseCode.tsx:29-36 | the code of a letter or digit decodes to the upper-cased character |
| `MorseCode.DecodeTokensPointwise` | components/MorseCode.tsx:34-37 | tokens that each decode to one character decode to those characters in order |
| `MorseCode.DecodeEncodedChars` | components/MorseCode.tsx:26-37 | decoding the tokens of an alphanumeric text gives the text upper-cased |
| `MorseCode.DecodeEmpty` | components/MorseCode.tsx:34-37 | the empty string decodes to itself, because no code is empty |
| `MorseCode.DecodeEncode` | components/MorseCode.tsx:26-37 | for every string over A–Z, a–z and 0–9, decoding its encoding gives the string upper-cased |
| `MorseCode.Toggle` | components/MorseCode.tsx:50 | the mode button always switches to the other mode |
| `MorseCode.Process` | components/MorseCode.tsx:19-40 | no contract of its own: `process`; `ProcessRefusesBlank` proves blank text is refused and any other text is encoded or decoded according to the mode |
| `MorseCode.ProcessRefusesBlank` | components/MorseCode.tsx:19-40 | empty or whitespace-only text is refused and left unchanged; any other text is replaced by its encoding or decoding according to the mode |
| `Strings.Trim` | components/base64.tsx:32 | no contract of its own: JavaScript `trim`; `TrimIsSlice`, `TrimEmptyIffBlank` and `TrimIdempotent` state it |
| `Strings.TrimIsSlice` | components/base64.tsx:31-34 | `trim` leaves a slice of the text, cuts only whitespace, and leaves no whitespace at either end |
| `Strings.TrimEmptyIffBlank` | components/MorseCode.tsx:20 | the text trims to empty exactly when it is empty or whitespace only |
| `Strings.TrimOfTrimmed` | components/JsonFormat/JsonFormat.tsx:38 | trimming text that neither starts nor ends with whitespace changes nothing |
| `Strings.TrimIdempotent` | components/base64.tsx:31-34 | trimming twice is trimming once |
| `Strings.Split` | components/Jwt/Jwtdecode.tsx:55 | `split` on one character gives one more piece than there are occurrences, and no piece contains the separator |
| `Strings.Join` | components/MorseCode.tsx:30 | no contract of its own: `join`; `JoinSplit` and `SplitJoin` prove it inverse to `split` |
| `Strings.JoinSplit` | components/Jwt/Jwtdecode.tsx:55 | joining the pieces of a split with the separator gives the text back |
| `Strings.SplitJoin` | components/MorseCode.tsx:30-35 | splitting pieces joined with a separator none of them holds gives the pieces back |
| `Strings.SplitNoSeparator` | components/Jwt/Jwtdecode.tsx:55 | text without the separator splits into itself alone |
| `Strings.SplitPrefix` | components/Jwt/Jwtdecode.tsx:55 | splitting `p` + separator + `t`, where `p` has no separator, gives `p` followed by the pieces of `t` |
| `Strings.CountAppend` | components/Jwt/Jwtdecode.tsx:55-56 | occurrences of a character in a concatenation add up |
| `Strings.CountJoin` | components/JsonFormat/JsonToArrayVertical.tsx:96-98 | joining newline-free pieces adds exactly the newlines of the separators |
| `Strings.JoinAbsent` | components/JsonFormat/JsonToArrayVertical.tsx:96 | pieces and a separator free of a character join to text free of it |
| `Strings.DropTrailing` | components/Jwt/Jwtdecode.tsx:29 | `replace(/=+$/, "")` keeps the longest prefix that does not end in `=`, and drops only `=` |
| `Strings.DropTrailingAppend` | components/Jwt/Jwtdecode.tsx:29 | removing a trailing run of `=` from text that does not itself end in `=` gives that text back |
| `Strings.ReplaceAll` | components/Jwt/Jwtdecode.tsx:29 | a global one-character replacement keeps the length and replaces exactly the occurrences of that character |
| `Strings.UpperChar` | components/MorseCode.tsx:27 | `toUpperCase` on an ASCII character raises only the lower-case letters, by 32 |
| `Strings.ToUpper` | components/MorseCode.tsx:27 | `toUpperCase` keeps the length and upper-cases each character |
| `Strings.ToUpperIdempotent` | components/MorseCode.tsx:27 | upper-casing twice is upper-casing once |
| `Json.NatToString` | components/JsonFormat/JsonToArrayVertical.tsx:71 | a non-negative integer prints as decimal digits with no leading zero (the property keys of a string's characters) |
| `Json.NatToStringValue` | components/JsonFormat/JsonToArrayVertical.tsx:71 | the printed digits denote the number they came from |
| `Json.IntToString` | components/JsonFormat/JsonFormat.tsx:39 | an integer prints as an optional `-` and digits, with no line break |
| `Json.EscapeChar` | components/JsonFormat/JsonFormat.tsx:39 | a character at or above U+0020, other than `"` and `\`, is printed as itself; every escape is free of raw line breaks |
| `Json.EscapeString` | components/JsonFormat/JsonFormat.tsx:39 | an escaped string has no raw line break |
| `Json.Quote` | components/JsonFormat/JsonToArrayVertical.tsx:92 | a quoted string starts and ends with `"` and has no raw line break |
| `Json.Serialize` | components/JsonFormat/JsonFormat.tsx:39 | no contract of its own: `JSON.stringify` with a gap; `SerializeEnds` and `TrimSerialized` state its ends |
| `Json.SerializeElements` | components/JsonFormat/JsonFormat.tsx:39 | one serialised text per array element |
| `Json.SerializeMembers` | components/JsonFormat/JsonFormat.tsx:39 | one serialised `key: value` text per object member |
| `Json.Compact` | components/JsonFormat/JsonToArrayVertical.tsx:92-93 | no contract of its own: `JSON.stringify` without a gap; `CompactHasNoNewline` proves it is a single line |
| `Json.Pretty` | components/JsonFormat/JsonFormat.tsx:39 | no contract of its own: `JSON.stringify(value, null, 4)`; `TrimSerialized` proves trimming it changes nothing, and `DispatchIdempotent` that the pages map it to itself |
| `Json.SerializeEnds` | components/JsonFormat/JsonFormat.tsx:39 | serialised text starts and ends with a printable non-space ASCII character |
| `Json.TrimSerialized` | components/JsonFormat/JsonFormat.tsx:37-39 | trimming serialised text changes nothing |
| `Json.CompactHasNoNewline` | components/JsonFormat/JsonToArrayVertical.tsx:92-93 | `JSON.stringify` without a gap never produces a raw line break |
| `Base64.SextetValueOfChar` | components/base64.tsx:31-34 | the 64 alphabet characters and the six-bit values are in bijection |
| `Base64.ToBytes` | components/base64.tsx:34 | Latin-1 text gives one byte per character, each the character's code |
| `Base64.FromBytes` | components/base64.tsx:32 | bytes give Latin-1 text that `ToBytes` maps back to them |
| `Base64.Sextets` | components/base64.tsx:34 | no contract of its own: bytes to six-bit values; stated by `SextetsLength` and `SextetsRoundTrip` |
| `Base64.Unsextets` | components/base64.tsx:32 | no contract of its own: six-bit values back to bytes; `SextetsRoundTrip` proves it inverts `Sextets` |
| `Base64.Padding` | components/base64.tsx:34 | the padding an encoder adds is empty, `=` or `==` |
| `Base64.SextetsLength` | components/base64.tsx:33-34 | three bytes give four six-bit values, and a final one or two bytes give two or three |
| `Base64.SextetsRoundTrip` | components/base64.tsx:31-34 | putting the six-bit values back together gives the bytes |
| `Base64.CharsRoundTrip` | components/base64.tsx:31-34 | reading back the alphabet characters gives the six-bit values |
| `Base64.EncodeShape` | components/base64.tsx:33-34 | an encoding has 4·⌈n/3⌉ characters of the alphabet, with `=` only as one or two final characters |
| `Base64.Encode` | components/base64.tsx:34 | no contract of its own: section 4 of RFC 4648; `EncodeShape` states its shape and `DecodeEncode` that decoding inverts it |
| `Base64.Decode` | components/base64.tsx:32 | no contract of its own: the forgiving decode over the alphabet; `DecodeEncode` and `DecodeUnpadded` state what it reads back |
| `Base64.StripPadding` | components/base64.tsx:31-32 | the forgiving decoder removes at most two final characters, all `=` |
| `Base64.StripPaddingOf` | components/base64.tsx:31-32 | the forgiving decoder removes exactly the padding an encoder adds |
| `Base64.DecodeEncode` | components/base64.tsx:31-34 | decoding an encoding gives the bytes back, for every byte sequence |
| `Base64.DecodeUnpadded` | components/Jwt/Jwtdecode.tsx:63-64 | the forgiving decoder also reads an encoding whose padding was removed |
| `Base64.Btoa` | components/base64.tsx:33-34 | `btoa` succeeds exactly on Latin-1 text, and then gives a padded encoding of 4·⌈n/3⌉ characters |
| `Base64.Atob` | components/base64.tsx:31-32 | what `atob` returns is Latin-1 text |
| `Base64.AtobBtoa` | components/base64.tsx:31-34 | `atob(btoa(s)) == s` for all Latin-1 text |
| `Jwtdecode.Base64UrlEncode` | components/Jwt/Jwtdecode.tsx:28-30 | the output has no `+` or `/`, does not end in `=`, and is never longer than the input; each kept character is the input's character in the URL alphabet, and everything cut off is `=` |
| `Jwtdecode.UrlChar` | components/Jwt/Jwtdecode.tsx:29 | no contract of its own: `+` becomes `-`, `/` becomes `_`, anything else is kept; stated per character by `ToUrlAlphabet` and `Base64UrlEncode` |
| `Jwtdecode.ToUrlAlphabet` | components/Jwt/Jwtdecode.tsx:29 | the two global replacements keep the length and map each character to the URL alphabet |
| `Jwtdecode.Base64UrlEncodeIdempotent` | components/Jwt/Jwtdecode.tsx:28-30 | applying `base64UrlEncode` twice changes nothing more |
| `Jwtdecode.IsJwt` | components/Jwt/Jwtdecode.tsx:54-57 | no contract of its own: `isJWT`; `IsJwtIff` proves it holds exactly when the token has two dots |
| `Jwtdecode.IsJwtIff` | components/Jwt/Jwtdecode.tsx:54-57 | a token is a JWT exactly when it holds two dots, and then its three parts joined with dots give the token back |
| `Jwtdecode.CalculateSignature` | components/Jwt/Jwtdecode.tsx:33-38 | a computed signature has no `+`, no `/` and no trailing `=` |
| `Jwtdecode.VerifyJwtSignature` | components/Jwt/Jwtdecode.tsx:41-50 | no contract of its own: `verifyJWTSignature`; `VerifyIff` proves it holds exactly when the token is a JWT equal to `Sign` of its own first two parts |
| `Jwtdecode.Sign` | components/Jwt/Jwtdecode.tsx:46-47 | no contract of its own: the token a signer writes, `header.payload` and its computed signature; `SignThenVerify` proves such a token verifies |
| `Jwtdecode.VerifyNeedsThreeParts` | components/Jwt/Jwtdecode.tsx:42-44 | a token that does not split into three parts never verifies |
| `Jwtdecode.VerifyIff` | components/Jwt/Jwtdecode.tsx:41-50 | a token verifies exactly when it is a JWT equal to the signer's output for its own first two parts |
| `Jwtdecode.SignThenVerify` | components/Jwt/Jwtdecode.tsx:41-50 | a token signed over dot-free segments, with a dot-free HMAC text, is a JWT and verifies under the same key |
| `Jwtdecode.AsWrittenRefusesUrlAlphabet` | components/Jwt/Jwtdecode.tsx:63-64 | `atob` refuses every segment that contains `-` or `_` |
| `Jwtdecode.DecodeSegmentAsWritten` | components/Jwt/Jwtdecode.tsx:63-64 | what the page's `atob` of a segment returns is Latin-1 text; `AsWrittenRefusesUrlAlphabet` proves it refuses `-` and `_` |
| `Jwtdecode.PayloadExampleBase64` | components/Jwt/Jwtdecode.tsx:63-64 | the standard Base64 of the payload `[">"]` is `WyI+Il0=` |
| `Jwtdecode.PayloadExampleSegment` | components/Jwt/Jwtdecode.tsx:28-30 | the base64url segment of `WyI+Il0=` is `WyI-Il0` |
| `Jwtdecode.AsWrittenRefusesPayloadExample` | components/Jwt/Jwtdecode.tsx:63-64 | as written, the page cannot decode the base64url payload segment of `[">"]` |
| `Jwtdecode.DecodeSegment` | components/Jwt/Jwtdecode.tsx:63-64 | the intended decoding returns Latin-1 text; `DecodeSegmentRoundTrip` proves it reads back every segment a signer writes |
| `Jwtdecode.FromUrlAlphabet` | components/Jwt/Jwtdecode.tsx:63-64 | mapping back from the URL alphabet keeps the length and maps each character to the standard alphabet |
| `Jwtdecode.UrlEncodePadded` | components/Jwt/Jwtdecode.tsx:28-30 | the base64url form of a padded encoding is its alphabet characters in the URL alphabet |
| `Jwtdecode.FromToUrlAlphabet` | components/Jwt/Jwtdecode.tsx:28-30 | standard Base64 text survives the trip to the URL alphabet and back |
| `Jwtdecode.DecodeSegmentRoundTrip` | components/Jwt/Jwtdecode.tsx:63-64 | every Latin-1 text comes back from the base64url form of its Base64 |
| `Jwtdecode.DecodeWith` | components/Jwt/Jwtdecode.tsx:63-64 | both decodings return Latin-1 text, and the page's one refuses every segment with `-` or `_` |
| `Jwtdecode.DecodingsAgree` | components/Jwt/Jwtdecode.tsx:63-64 | on a segment without `-` and `_` the page's decoding and the intended one give the same result |
| `Jwtdecode.DecodeParts` | components/Jwt/Jwtdecode.tsx:59-69 | decoding succeeds only on a JWT, and its signature part is the token's third segment, with either decoding; the page uses `atob` alone |
| `Jwtdecode.DecodeSigned` | components/Jwt/Jwtdecode.tsx:59-69 | a token signed over encoded JSON header and payload decodes to that header, that payload and its signature segment with the intended decoding, and on the page whenever neither segment holds `-` or `_` |
| `Jwtdecode.PartsDecodingsAgree` | components/Jwt/Jwtdecode.tsx:59-64 | on a token whose first two segments hold no `-` or `_`, the page and the intended decoding give the same parts |
| `Jwtdecode.AsWrittenRefusesUrlPayload` | components/Jwt/Jwtdecode.tsx:59-64 | on the page, a token whose payload segment holds `-` or `_` never decodes, whatever `JSON.parse` does |
| `Jwtdecode.UrlEncodeKeepsOut` | components/Jwt/Jwtdecode.tsx:29 | a character other than `+`, `/`, `-`, `_` and `=` is in the base64url form exactly when it is in the input |
| `Jwtdecode.EncodeSegmentDecodes` | components/Jwt/Jwtdecode.tsx:63-64 | a segment a signer writes has no dot and decodes to the compact JSON text |
| `Jwtdecode.EncodeSegment` | components/Jwt/Jwtdecode.tsx:28-30 | a segment a signer writes for a JSON value never contains a dot |
| `Jwtdecode.DecodePartsOf` | components/Jwt/Jwtdecode.tsx:59-69 | on a token of three dot-free segments, decoding succeeds, with either decoding, exactly when both first segments decode and parse, and then gives the parsed values and the third segment |
| `Jwtdecode.SegmentHasNoDot` | components/Jwt/Jwtdecode.tsx:28-30 | the base64url form of an encoding has no dot |
| `Jwtdecode.SplitOfSigned` | components/Jwt/Jwtdecode.tsx:60 | three dot-free segments joined with dots split back into those segments |
| `Jwtdecode.Process` | components/Jwt/Jwtdecode.tsx:59-96 | no contract of its own: `processData` on the shown state; stated by `ProcessUpdatesTogether`, `ProcessVerifiesOnlyWithKey` and `PageRefusesPayloadExample` |
| `Jwtdecode.ProcessUpdatesTogether` | components/Jwt/Jwtdecode.tsx:59-96 | header, payload and signature change together, only when both first segments decode and parse; otherwise nothing shown changes |
| `Jwtdecode.ProcessVerifiesOnlyWithKey` | components/Jwt/Jwtdecode.tsx:70-72 | the verified flag is recomputed, as the signature check of the whole token, only when the key is not empty |
| `Jwtdecode.PageRefusesPayloadExample` | components/Jwt/Jwtdecode.tsx:59-96 | on the page, a token with the payload segment `WyI-Il0` (the base64url form of `[">"]`) leaves header, payload, signature and verification result unchanged |
| `Jwtdecode.JwtDecoder.constructor` | components/Jwt/Jwtdecode.tsx:12-17 | the page starts with empty inputs, empty header and payload objects, no signature and no verification result |
| `Jwtdecode.JwtDecoder.ProcessData` | components/Jwt/Jwtdecode.tsx:53-109 | `processData` leaves the inputs alone and changes the shown state as `Process` with `atob` alone gives it |
| `Jwtdecode.JwtDecoder.SetInputData` | components/Jwt/Jwtdecode.tsx:21-25 | a changed token is stored and processed when it or the key is not empty; otherwise only stored |
| `Jwtdecode.JwtDecoder.SetSecretKey` | components/Jwt/Jwtdecode.tsx:21-25 | a changed key is stored and the token processed when either is not empty; otherwise only stored |
| `JsonDispatch.IsJson` | components/JsonFormat/JsonFormat.tsx:17-24 | no contract of its own: `isJSON`, whether `JSON.parse` accepts the untrimmed input; `JsonFirst` proves it decides the first branch |
| `JsonDispatch.IsPhpSerialized` | components/JsonFormat/JsonFormat.tsx:26-35 | no contract of its own: `isPHPSerialized`; `IsPhpSerializedIff` states exactly which inputs it accepts |
| `JsonDispatch.IsPhpSerializedIff` | components/JsonFormat/JsonFormat.tsx:26-35 | input is recognised as PHP serialized exactly when its second character is `:` and its first one of `a O s i b d`, case-sensitive and untrimmed |
| `JsonDispatch.UnserializeErrorText` | components/JsonFormat/JsonFormat.tsx:46-50 | the error text is `Error: Invalid PHP serialized data! ` followed by the message, or by `Unknown error occurred` for an empty message when the page uses the fallback |
| `JsonDispatch.Dispatch` | components/JsonFormat/JsonFormat.tsx:37-54 | no contract of its own: the rule shared by the three pages; `JsonFirst`, `PhpBranch`, `NeitherKeepsOutput`, `DispatchOutcomes` and `DispatchIdempotent` state its branches |
| `JsonDispatch.JsonFirst` | components/JsonFormat/JsonFormat.tsx:37-40 | JSON input gives the pretty form of the trimmed input's value, whatever else is true of the input and whatever `unserialize` does |
| `JsonDispatch.JsonBranch` | components/JsonFormat/JsonFormat.tsx:37-40 | when the trimmed input parses as the input does, JSON input gives the pretty form of its own value |
| `JsonDispatch.PhpBranch` | components/JsonFormat/JsonFormat.tsx:41-50 | non-JSON input with a sigil gives the pretty form of the unserialized value, or the error text with the message |
| `JsonDispatch.NeitherKeepsOutput` | components/JsonFormat/JsonFormat.tsx:52-54 | input that is neither JSON nor sigil-prefixed leaves the output unchanged |
| `JsonDispatch.DispatchOutcomes` | components/JsonFormat/JsonFormat.tsx:37-54 | the new output is the old one, a pretty form, or an unserialize error text |
| `JsonDispatch.DispatchIdempotent` | components/JsonFormat/JsonFormat.tsx:37-40 | processing a pretty-printed output gives the same output again |
| `JsonDispatch.InlineCopy` | components/JsonFormat/JsonFormat.tsx:63-78 | the inline copy exists exactly when the output parses, and is then the compact form of its value, on a single line |
| `JsonDispatch.InlineCopyOfPretty` | components/JsonFormat/JsonFormat.tsx:63-78 | the inline copy of a pretty output is the compact form of the same value |
| `JsonDispatch.GuardedCopy` | components/JsonFormat/JsonFormatVertical.tsx:83-94 | a blank output is refused with `Output is empty`; anything else is written as it is |
| `JsonDispatch.GuardedInlineCopy` | components/JsonFormat/JsonFormatVertical.tsx:96-119 | a blank output is refused, an output that does not parse gives `Invalid JSON format.`, any other is written in compact form |
| `JsonDispatch.SerializedCopy` | components/JsonFormat/JsonFormatVertical.tsx:121-137 | a blank output is refused; the PHP serialized form of the output's value is written exactly when parse and serialize both succeed; either failure gives `Failed to serialize output!` |
| `JsonDispatch.GuardsRefuseBlank` | components/JsonFormat/JsonFormatVertical.tsx:83-137 | none of the three guarded copies writes a blank output |
| `JsonFormat.HomePage.constructor` | components/JsonFormat/JsonFormat.tsx:7-8 | input and output start empty |
| `JsonFormat.HomePage.ProcessData` | components/JsonFormat/JsonFormat.tsx:14-55 | `processData` keeps the input and sets the output by the dispatch rule, with the fallback message |
| `JsonFormat.HomePage.SetInputData` | components/JsonFormat/JsonFormat.tsx:10-12 | a changed input is stored and processed; an unchanged one changes nothing |
| `JsonFormat.HomePage.HandleEditorChange` | components/JsonFormat/JsonFormat.tsx:81-83 | the output editor sets the output |
| `JsonFormat.HomePage.CopyToClipboard` | components/JsonFormat/JsonFormat.tsx:57-61 | the output is copied as it is, even when blank |
| `JsonFormat.HomePage.CopyToInlineClipboard` | components/JsonFormat/JsonFormat.tsx:63-78 | the compact form of the output's value is copied when the output parses; nothing otherwise |
| `JsonFormatVertical.HomePage.constructor` | components/JsonFormat/JsonFormatVertical.tsx:15-16 | input and output start empty |
| `JsonFormatVertical.HomePage.ProcessData` | components/JsonFormat/JsonFormatVertical.tsx:42-81 | `processData` keeps the input and sets the output by the same rule, with the fallback message |
| `JsonFormatVertical.HomePage.SetInputData` | components/JsonFormat/JsonFormatVertical.tsx:38-40 | a changed input is stored and processed; an unchanged one changes nothing |
| `JsonFormatVertical.HomePage.HandleEditorChange` | components/JsonFormat/JsonFormatVertical.tsx:140-144 | a defined editor value sets the output; an undefined one is ignored |
| `JsonFormatVertical.HomePage.CopyToClipboard` | components/JsonFormat/JsonFormatVertical.tsx:83-94 | a blank output is refused with `Output is empty`; any other is copied as it is |
| `JsonFormatVertical.HomePage.CopyToInlineClipboard` | components/JsonFormat/JsonFormatVertical.tsx:96-119 | a blank output is refused; a parsing output is copied in compact form; any other gives `Invalid JSON format.` |
| `JsonFormatVertical.HomePage.CopySerializedOutput` | components/JsonFormat/JsonFormatVertical.tsx:121-137 | the serialized copy of the current output, as `SerializedCopy` states it |
| `AppPage.HomePage.constructor` | src/app/page.tsx:18-19 | input and output start empty |
| `AppPage.HomePage.ProcessData` | src/app/page.tsx:25-58 | `processData` keeps the input and sets the output by the same rule, with the raw error message and no fallback |
| `AppPage.HomePage.SetInputData` | src/app/page.tsx:21-23 | a changed input is stored and processed; an unchanged one changes nothing |
| `AppPage.HomePage.CopyToClipboard` | src/app/page.tsx:60-64 | the output is copied as it is, without a guard |
| `JsonToArrayVertical.Stringified` | components/JsonFormat/JsonToArrayVertical.tsx:92-93 | a stringified key or value, `undefined` included, has no raw line break |
| `JsonToArrayVertical.ItemLine` | components/JsonFormat/JsonToArrayVertical.tsx:91-95 | one printed entry is a single line |
| `JsonToArrayVertical.ItemLines` | components/JsonFormat/JsonToArrayVertical.tsx:90-95 | one printed line per entry, in order |
| `JsonToArrayVertical.ArrayToPhpFormat` | components/JsonFormat/JsonToArrayVertical.tsx:98 | the result always starts with `<?php`, a line break, `$arrayVar = [`, a line break, and ends with a line break and `];` |
| `JsonToArrayVertical.WithCommas` | components/JsonFormat/JsonToArrayVertical.tsx:96 | every entry line but the last carries the separating comma |
| `JsonToArrayVertical.SplitJoinedLines` | components/JsonFormat/JsonToArrayVertical.tsx:96-98 | single-line entries joined with `,` and a line break, then closed, split into the comma-ended lines and `];` |
| `JsonToArrayVertical.PhpFormatLines` | components/JsonFormat/JsonToArrayVertical.tsx:89-99 | the printed array, line by line: `<?php`, `$arrayVar = [`, one line per entry (commas on all but the last), `];`; so n ≥ 1 entries give exactly n + 3 lines, and none an empty line between |
| `JsonToArrayVertical.PhpFormatSplit` | components/JsonFormat/JsonToArrayVertical.tsx:98 | the two opening lines come off the printed array first |
| `JsonToArrayVertical.Property` | components/JsonFormat/JsonToArrayVertical.tsx:92-93 | `item.key` / `item.value` is a property of an object element, and is defined whenever the object has that property |
| `JsonToArrayVertical.Lookup` | components/JsonFormat/JsonToArrayVertical.tsx:92-93 | a property lookup finds a member of that name, and finds nothing only when there is none |
| `JsonToArrayVertical.ArrayItems` | components/JsonFormat/JsonToArrayVertical.tsx:69-70 | an array is printed element by element exactly when no element is null, each as its `key` and `value` properties |
| `JsonToArrayVertical.MemberItems` | components/JsonFormat/JsonToArrayVertical.tsx:71-74 | one `{key, value}` item per object member |
| `JsonToArrayVertical.CharItems` | components/JsonFormat/JsonToArrayVertical.tsx:71-74 | one `{key, value}` item per character of a string |
| `JsonToArrayVertical.Entries` | components/JsonFormat/JsonToArrayVertical.tsx:71-74 | `Object.entries` gives an object's properties in order, a string's characters under `"0"`, `"1"`, …, and nothing for a number or a boolean |
| `JsonToArrayVertical.ErrorText` | components/JsonFormat/JsonToArrayVertical.tsx:82 | a caught error shows as `Error: ` followed by its message |
| `JsonToArrayVertical.ShowParsed` | components/JsonFormat/JsonToArrayVertical.tsx:64-86 | a parsed value shows as the null text, a caught TypeError, or a printed array |
| `JsonToArrayVertical.Process` | components/JsonFormat/JsonToArrayVertical.tsx:40-87 | the new output is empty, the old one, one of the fixed error texts, or a printed array |
| `JsonToArrayVertical.BlankClears` | components/JsonFormat/JsonToArrayVertical.tsx:41-57 | the output becomes empty exactly when the input is blank, or is refused by the pre-check while the output was already empty |
| `JsonToArrayVertical.NonEmptyOutputs` | components/JsonFormat/JsonToArrayVertical.tsx:58-77 | no text a parse result produces is empty |
| `JsonToArrayVertical.PrecheckKeeps` | components/JsonFormat/JsonToArrayVertical.tsx:50-57 | input refused by the pre-check leaves the output unchanged |
| `JsonToArrayVertical.ParsedInput` | components/JsonFormat/JsonToArrayVertical.tsx:53-62 | a parse failure gives exactly `Error: Invalid JSON data`; a success shows the parsed value, whatever the old output |
| `JsonToArrayVertical.NullShown` | components/JsonFormat/JsonToArrayVertical.tsx:64-67 | `null` gives exactly `Error: Parsed data is null or undefined` |
| `JsonToArrayVertical.ObjectPrinted` | components/JsonFormat/JsonToArrayVertical.tsx:69-74 | an object becomes its entries in order, each printed as four spaces, the quoted key, ` => ` and the compact value |
| `JsonToArrayVertical.ArrayPrinted` | components/JsonFormat/JsonToArrayVertical.tsx:69-86 | an array with a null element shows the TypeError's message; one without is printed from its elements' `key` and `value` |
| `JsonToArrayVertical.ProcessTwice` | components/JsonFormat/JsonToArrayVertical.tsx:40-87 | processing the same input again leaves the output as the first run left it |
| `JsonToArrayVertical.JsonToArrayVertical.constructor` | components/JsonFormat/JsonToArrayVertical.tsx:14-15 | input and output start empty |
| `JsonToArrayVertical.JsonToArrayVertical.ProcessData` | components/JsonFormat/JsonToArrayVertical.tsx:40-87 | `processData` keeps the input and sets the output as the process function gives it |
| `JsonToArrayVertical.JsonToArrayVertical.OnInputChange` | components/JsonFormat/JsonToArrayVertical.tsx:193-196 | typing processes the old input at once, stores the new input, and processes it again when it changed |
| `JsonToArrayVertical.JsonToArrayVertical.CopyToClipboard` | components/JsonFormat/JsonToArrayVertical.tsx:101-112 | a blank output is refused with `Output is empty`; any other is copied as it is |
| `Base64Page.Transform` | components/base64.tsx:27-41 | encode mode gives `btoa` of the trimmed input, decode mode gives `atob` of it, and a failure gives `Error: Invalid Base64 input!` |
| `Base64Page.TransformTrims` | components/base64.tsx:31-34 | only the trimmed input matters, in either mode |
| `Base64Page.EncodeOutputShape` | components/base64.tsx:33-34 | encode mode gives 4·⌈n/3⌉ characters of the standard alphabet, with `=` only as final padding |
| `Base64Page.TrimPadded` | components/base64.tsx:31-32 | encoded text has no surrounding whitespace for `trim` to remove |
| `Base64Page.DecodeEncodeOutput` | components/base64.tsx:31-34 | decoding the encode-mode output gives the trimmed input back, for Latin-1 input |
| `Base64Page.FailureText` | components/base64.tsx:37-40 | a character above U+00FF when encoding, or malformed Base64 when decoding, gives exactly the error text |
| `Base64Page.EncodeRefusesWideChar` | components/base64.tsx:33-40 | one character above U+00FF in the trimmed input makes encode mode fail |
| `Base64Page.Base64Page.constructor` | components/base64.tsx:11-15 | input and output start empty, in encode mode |
| `Base64Page.Base64Page.SetInputData` | components/base64.tsx:153 | typing stores the input and converts nothing |
| `Base64Page.Base64Page.ProcessData` | components/base64.tsx:27-41 | the output is converted with the given mode, or with the stored one when none is given; input and mode stay |
| `Base64Page.Base64Page.SwitchMode` | components/base64.tsx:43-46 | switching stores the new mode and converts with it, not with the mode stored before |
| `Base64Page.Base64Page.HandleEditorChange` | components/base64.tsx:59-61 | a defined editor value sets the output; an undefined one is ignored |
| `Base64Page.Base64Page.CopyToClipboard` | components/base64.tsx:48-57 | a blank output is refused with `Output is empty`; any other is copied as it is |

## Left out

- Side effects: clipboard writes, toasts (`Swal`), `console` output, `localStorage`, full screen and theme handling, routing.
- A clipboard write that fails asynchronously shows an extra alert. The copy members model what is written and the toast that is shown at once, not the later alert.
- `JSON.parse`, php-serialize's `unserialize` and `serialize`, and HMAC-SHA256 are library code, so they are parameters. So is the regular-expression pre-check of `JsonToArrayVertical`. Nothing is assumed of them beyond what each lemma requires.
- The message of the TypeError that `null.key` raises is a browser-dependent text, so it is a parameter (`nullItemMessage`). Other exceptions inside the printer cannot arise from parsed JSON. `Error: An unknown error occurred`, for a thrown non-Error, is therefore not modelled.
- `AppPage.HomePage.ProcessData`: for a thrown value that is not an Error, `error.message` would print `undefined`; the model always has a message string.
- JSON numbers are integers. Floating-point values and their formatting are not modelled.
- `Object.entries` lists integer-like keys in ascending numeric order first. The model keeps an object's members in the order given. An `Obj` stands for the object `JSON.parse` built, and duplicate keys are not merged.
- `JsonDispatch.Dispatch`: when the untrimmed input parses but the trimmed one does not, the page's exception leaves `processData`. The model keeps the old output in that case. With a real `JSON.parse` the two parses always agree.
- `Base64.Atob`: implements the forgiving decode of the HTML standard, except its first step (removing ASCII whitespace). The Base64 page trims its input first, so there this only matters for whitespace inside the text. The JWT page decodes the untrimmed segments, so a pasted token with a leading space or a line break inside a segment decodes in the browser but not in the model. Optional padding is kept, because JWT segments are unpadded and the browser's `atob` accepts them: a strict RFC 4648 decoder would refuse every segment whose length is not a multiple of 4.
- DecodeSigned: promises the page's decoding only for segments without `-` and `_`. As written, a segment with either character is refused (`AsWrittenRefusesUrlPayload`, `PageRefusesPayloadExample`), so a signed token decodes on the page only in that case.
- DecodePartsOf: is stated for either decoding; for the page's one, `DecodeWith` holds the refusal of `-` and `_`, so the page decodes fewer tokens than the intended decoding does.
- `Strings.UpperChar`: upper-cases ASCII letters only. Non-ASCII `toUpperCase` (`ß` → `SS`, and the other length-changing cases) is not modelled.
- `MorseCode.FindCode`: looks codes up in the table only. Prototype-chain hits of a plain object (a token such as `toString` or `__proto__`) are not modelled.
- Strings are sequences of characters. `split("")` splits UTF-16 code units, so an astral character would become two tokens; the model treats each character as one unit.
- `MorseTable.Position`: only numbers codes of one to five symbols, the lengths in the table.
- The initial `processData` each page runs on mounting is not a separate operation. On empty input it leaves the empty output, which is what the constructors state.
- `JsonFormat.HomePage.HandleEditorChange`: takes a string. An undefined editor value, which this page writes into the output, is not modelled.
- XML conversion (`JsonToXml`, `JsonToXmlVertical`), the QR code, persistence, sitemap and UI pages are outside the modelled core.
- The HMAC is abstract. That a verified token was signed with the same key is a property of HMAC-SHA256, not of this code, so it is not stated.

## Findings

| source | as written | input that shows it | evidently intended | confidence | as-written member | corrected member |
|---|---|---|---|---|---|---|
| components/Jwt/Jwtdecode.tsx:63-64 | the header and payload segments are decoded with `atob`, which accepts only the standard Base64 alphabet, while a JWT's segments are base64url (section 5 of RFC 4648) | the payload `[">"]`, whose standard Base64 is `WyI+Il0=`, is written by a signer as the segment `WyI-Il0`; `atob` refuses the `-`, so the page cannot decode the token | map `-` and `_` back to `+` and `/` before `atob`, so every segment a signer writes decodes | not executed | `Jwtdecode.PageRefusesPayloadExample` | `Jwtdecode.DecodeSegmentRoundTrip` |

The page model keeps the decoding as written: `DecodeParts`, `Process` and
the `JwtDecoder` class take a `Decoding`, and the class always uses
`AsWritten` (`atob` alone). The corrected decoding is `Intended`
(`Jwtdecode.DecodeSegment`, which maps the segment back to the standard
alphabet first), and `DecodeSigned` proves that with it every token a
signer writes decodes.
