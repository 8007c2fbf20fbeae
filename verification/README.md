# yubico-client in Dafny

A model of the `Yubico` validation client of `yubico-client.py`, which talks to
Yubico's OTP verification service (WSAPI 2.0). The model covers how the client
builds and signs a request and how it judges the service's reply:

- `_bytes`: text to UTF-8 bytes, bytes unchanged, anything else a `TypeError`.
- `__query__`: form-encodes `id`, `otp` and `nonce`, then appends `&h=` and the
  signature with every `+` escaped as `%2B`.
- `__signature__`: splits the query on `&` and each piece on its first `=`,
  sorts the pieces, joins them back, then takes HMAC-SHA1 and Base64.
- The nonce: 30 random bytes in Base64 with `x` and `z` for `+` and `/`,
  keeping the first 25 characters.
- `__verify__` and `verify`: the leftmost `status=([A-Z0-9_]+)` capture, and
  true only when it is exactly `OK`.

Every operation is a pure function. The library code the client leans on is
modelled concretely, one module each:

- `Strings`: `split`, `join` and `replace`.
- `Utf8`: UTF-8 as in RFC 3629.
- `Base64`: section 4 of RFC 4648, with the alternate-character translation.
- `FormEncoding`: `quote_plus` and `urlencode`.
- `Ordering`: Python's `<` on strings and lists, and `sorted`.
- `Status`: the one regular expression as a scanner.

Each of these comes with a partner (a decoder, an inverse, a uniqueness
lemma or an independent characterisation), and the properties of the client
are proved from them.

HMAC-SHA1, the random source and the HTTP transport are parameters:

- `Mac` is a function from key and message to digest.
- `rand` is any 30-byte sequence.
- `Transport` maps a URL and headers to a reply or an error.

A reply other than 200 makes `__request__` return `None`. `__verify__` then
calls `findall(None)`, which raises `TypeError`. `Verify` follows the code
here: that path is an error, not `false`. The reading in which such a reply
means not verified is `VerifyIntended`, and the difference is logged under
Findings.

## Model

| member | source | states |
|---|---|---|
| Yubico.ToBytes | yubico-client.py:19-26 | A `str` gives its UTF-8 bytes, which decode back to the text; `bytes` come back unchanged; any other value, and only such a value, is a `TypeError`. |
| Yubico.ToBytesIdempotent | yubico-client.py:19-26 | Coercing the result of a successful coercion again gives the same bytes. |
| Utf8.EncodeChar | yubico-client.py:22 | One to four bytes per character, one exactly for ASCII (the byte is the code point), continuation bytes after the first. |
| Utf8.Encode | yubico-client.py:22 | `encode('utf-8')` writes between one and four bytes per character; `Utf8.DecodeEncode` is its inverse. |
| Utf8.DecodeFirstEncodeChar | yubico-client.py:22 | The strict decoder reads back exactly the character and byte count the encoder wrote, whatever follows. |
| Utf8.DecodeEncode | yubico-client.py:22 | Strict UTF-8 decoding of the encoding of any text gives the text back. |
| Utf8.EncodeInjective | yubico-client.py:22 | Distinct texts have distinct UTF-8 encodings. |
| Utf8.EncodeAscii | yubico-client.py:68 | ASCII text encodes byte for byte. |
| Utf8.DecodeAscii | yubico-client.py:46 | `.decode('utf-8')` of ASCII bytes succeeds, is character for character, and encodes back to the same bytes. |
| Strings.IndexOf | yubico-client.py:41 | The position found holds the separator and no earlier position does. |
| Strings.Split | yubico-client.py:40 | `split` always yields at least one piece, and no piece holds the separator. |
| Strings.JoinSplit | yubico-client.py:40-43 | Joining the pieces of a split with the same separator gives the text back. |
| Strings.SplitJoin | yubico-client.py:40-43 | Splitting a join of pieces that do not hold the separator gives the pieces back. |
| Strings.Join | yubico-client.py:43 | Joining with a one-character separator is the general join with that one character; `Strings.SplitJoin` and `Strings.JoinSplit` make it the inverse of `Split`. |
| Strings.JoinWith | yubico-client.py:36 | The general `str.join`: the result is the parts' characters plus one separator between neighbours, and begins with the first part. |
| Strings.SplitOnce | yubico-client.py:41 | `split('=', 1)` yields two pieces exactly when there is an `=`; the first holds no `=`; joining them with `=` gives the piece back. |
| Strings.Replace | yubico-client.py:36 | Text in which the pattern never occurs is left unchanged. |
| Strings.ReplaceIsSplitJoin | yubico-client.py:36 | For a one-character pattern, `replace` equals joining the `split` pieces with the replacement: each occurrence, and nothing else, is exchanged. |
| Base64.Value | yubico-client.py:46 | A byte has a Base64 value exactly when it is a letter of the alphabet. |
| Base64.Letter | yubico-client.py:46 | Each of the 64 values maps to an alphabet letter other than `=`; 62 and 63 map to `+` and `/`, and no other value does. |
| Base64.Encode | yubico-client.py:46 | The output is `4*ceil(n/3)` characters of the alphabet or `=`, with no `=` inside the complete groups; with `Base64.EncodeDecode` it is the one text that decodes to the bytes. |
| Base64.DecodeEncode | yubico-client.py:46 | Canonical Base64 decoding of the encoding of any bytes gives the bytes back. |
| Base64.EncodeDecode | yubico-client.py:46 | Any text that decodes canonically (pad bits zero) is exactly the encoding of what it decodes to, so the encoder's output is fixed character for character, pad bits included. |
| Base64.Translate | yubico-client.py:68 | Translation keeps the length and changes characters only into an alternate; with alternates other than `+` and `/` none of those remain, and text without them is unchanged. |
| Base64.EncodeAlt | yubico-client.py:68 | With alternate characters, the output keeps its length; complete groups hold only letters, digits and the two alternates, and only the last group may hold `=`. |
| Base64.UntranslateTranslate | yubico-client.py:68 | For two distinct alternates that are neither letters, digits nor `=`, translating standard Base64 text back as `b64decode` does restores it. |
| Base64.DecodeEncodeAlt | yubico-client.py:68 | For such alternates, `b64decode(b64encode(data, alt), alt)` gives `data` back, which ties the translated output to the input bytes. |
| FormEncoding.HexDigit | yubico-client.py:34 | The digit written for a nibble is `0`-`9` or upper-case `A`-`F` and reads back as that nibble. |
| FormEncoding.QuoteByte | yubico-client.py:34 | A quoted byte consists only of unreserved characters, `+` and `%`: an unreserved byte stands for itself, a space becomes `+`, and any other byte becomes `%` and two upper-case hexadecimal digits. |
| FormEncoding.QuotePlus | yubico-client.py:34 | Quoted bytes consist only of form characters and never hold `&` or `=`. |
| FormEncoding.QuoteText | yubico-client.py:34 | A quoted text never holds `&` or `=`, so keys and values cannot break the pair structure. |
| FormEncoding.UnquoteQuoteByte | yubico-client.py:34 | One quoted byte decodes back to that byte, whatever follows it. |
| FormEncoding.UnquoteQuote | yubico-client.py:34 | Form decoding of `quote_plus` output gives the original bytes back. |
| FormEncoding.QuoteUnreserved | yubico-client.py:34 | Text made of unreserved characters is its own quoting. |
| FormEncoding.Fields | yubico-client.py:34 | One field per pair, in order, none holding `&`. |
| FormEncoding.UrlEncode | yubico-client.py:34 | Splitting the output on `&` gives back one field per pair, in order; an empty list gives the empty text. |
| Ordering.StrLessIrreflexive | yubico-client.py:42 | No string is less than itself. |
| Ordering.StrLessTransitive | yubico-client.py:42 | String `<` is transitive. |
| Ordering.StrLessTotal | yubico-client.py:42 | Any two distinct strings are ordered one way or the other. |
| Ordering.StrLessAsymmetric | yubico-client.py:42 | String `<` never holds both ways. |
| Ordering.ListLessIrreflexive | yubico-client.py:42 | No list is less than itself. |
| Ordering.ListLessTransitive | yubico-client.py:42 | List `<` is transitive. |
| Ordering.ListLessTotal | yubico-client.py:42 | Any two distinct lists are ordered one way or the other. |
| Ordering.ListLessEqTransitive | yubico-client.py:42 | List `<=` is transitive. |
| Ordering.ListLessEqAntisymmetric | yubico-client.py:42 | Two lists each at most the other are equal. |
| Ordering.PairLess | yubico-client.py:42 | `[key, value]` pairs compare by key, and by value when the keys are equal. |
| Ordering.LowerBoundOfPermutation | yubico-client.py:42 | A lower bound of a list bounds every rearrangement of its elements. |
| Ordering.Insert | yubico-client.py:42 | Inserting into a sorted list keeps it sorted and adds exactly that element. |
| Ordering.Sort | yubico-client.py:42 | `sorted` returns an ascending permutation of its input. |
| Ordering.SortedUnique | yubico-client.py:42 | Two ascending lists with the same elements are the same list, so `sorted` has exactly one possible result. |
| Ordering.SortIgnoresOrder | yubico-client.py:42 | `sorted` gives the same result for any order of the same elements. |
| Status.Token | yubico-client.py:62 | The capture is a run of `[A-Z0-9_]` characters of the text that cannot be extended. |
| Status.TokenIsMaximalRun | yubico-client.py:62 | Any run of token characters that cannot be extended is the capture: greedy matching has one answer. |
| Status.FirstMatchFrom | yubico-client.py:62-63 | The scan returns the first match at or after its start, and None only when there is none. |
| Status.Find | yubico-client.py:60-64 | None exactly when the pattern matches nowhere; otherwise the non-empty greedy capture at the leftmost match. |
| Status.TokenIsOk | yubico-client.py:62-64 | The capture is `OK` exactly when `OK` stands there and no token character follows. |
| Status.FindIsOk | yubico-client.py:62-72 | The status is `OK` if and only if the leftmost match reads `status=OK` with no token character after it. |
| Status.GreedyCapture | yubico-client.py:62-64 | `status=OKAY` captures `OKAY`, not `OK`. |
| Status.SkipsUnqualified | yubico-client.py:62-64 | One example: in `status=ok` then `status=BAD_OTP`, the lower-case match is skipped for the later one. The general case is `Status.Find`'s contract. |
| Status.NoStatus | yubico-client.py:62-64 | Two examples: `status=` with nothing after it and the empty body give None. The general case is `Status.Find`'s contract. |
| Status.OkReply | yubico-client.py:62-64 | One example: the body `t=1\r\nstatus=OK\r\n` gives `OK`. |
| Status.BadOtpReply | yubico-client.py:62-64 | `status=BAD_OTP` gives `BAD_OTP`. |
| Yubico.ParsePairs | yubico-client.py:40-41 | One entry per `&` piece, each of one or two parts: entry k rejoins to piece k and its key holds no `=`, so the piece is split at its first `=`. |
| Yubico.ParseJoinRoundTrip | yubico-client.py:40-43 | Parsing a query and joining the pairs back without sorting gives the query again. |
| Yubico.JoinPairs | yubico-client.py:43 | Parsing the joined text gives the pairs back whenever they have the form parsing produces (one or two parts, a key without `=`, no `&`). |
| Yubico.ParsePairsWellFormed | yubico-client.py:40-41 | Every entry parsing produces has that form. |
| Yubico.Canonical | yubico-client.py:40-43 | The signed string parses into the same pairs as the query, as a multiset, and in ascending order; with `Ordering.SortedUnique` this fixes it. |
| Yubico.ClientPairs | yubico-client.py:29-33 | The three pairs `id`, `otp`, `nonce` in the order listed; `Yubico.CanonicalOfFields` gives the signed string they lead to. |
| Yubico.Base64Text | yubico-client.py:46 | The signature text is all Base64 characters, as long as the Base64 output, and decodes back to the digest. |
| Yubico.DigestTextLength | yubico-client.py:45-46 | A 20-byte HMAC-SHA1 digest gives a 28-character signature. |
| Yubico.Signature | yubico-client.py:39-48 | The signature's bytes are exactly the Base64 encoding of the MAC of the UTF-8 bytes of the sorted, rejoined query; it decodes back to that MAC and has 28 characters for a 20-byte digest. |
| Yubico.SignatureHasNoPercentOrAmpersand | yubico-client.py:36-46 | A signature never holds `%` or `&`. |
| Yubico.Escape | yubico-client.py:36 | The escaped signature holds no `+`; it is unchanged when there was none; each `+` adds two characters; every character comes from the signature or from `%2B`. |
| Yubico.EscapeNoPlus | yubico-client.py:36 | Replacing `+` by `%2B` leaves no `+`. |
| Yubico.EscapeLength | yubico-client.py:36 | Each `+` replaced grows the text by two characters. |
| Yubico.EscapeChars | yubico-client.py:36 | Every character of the result comes from the input or from `%2B`. |
| Yubico.EscapeAddsNo | yubico-client.py:36 | A character outside the signature and `%2B` does not appear after escaping. |
| Yubico.EscapeCons | yubico-client.py:36 | Escaping works character by character. |
| Yubico.UnescapeEscape | yubico-client.py:36 | Replacing `%2B` by `+` recovers any text without `%`, and so every signature. |
| Yubico.AppendSignatureShape | yubico-client.py:36 | The query is kept as it is, followed by `&h=` and a tail without `+` that unescapes to the signature. |
| Yubico.Signed | yubico-client.py:35-37 | The query as built, unchanged, then `&h=`, then a value without `+` that unescapes to the signature of that query. |
| Yubico.Query | yubico-client.py:28-37 | The same for the three form-encoded fields in the order the client lists them. |
| Yubico.ParseUrlEncode | yubico-client.py:34-41 | The signer's split of a non-empty `urlencode` output gives back each quoted key and value. |
| Yubico.EncodePairsPermutation | yubico-client.py:34-42 | Encoding the pairs one by one preserves a permutation. |
| Yubico.CanonicalIgnoresOrder | yubico-client.py:29-43 | The string signed does not depend on the order in which the pairs were listed. |
| Yubico.SortedByKey | yubico-client.py:42 | The pairs keyed `id`, `nonce`, `otp` are in ascending order whatever their values. |
| Yubico.SortFields | yubico-client.py:42 | Sorting the client's three pairs puts them in key order `id`, `nonce`, `otp`. |
| Yubico.ParseFields | yubico-client.py:29-41 | The client's query parses back into `id`, `otp`, `nonce` with their quoted values. |
| Yubico.CanonicalOfFields | yubico-client.py:29-43 | For the client's query, the signed string is `id=…&nonce=…&otp=…` with the quoted values. |
| Yubico.CanonicalOfFieldsAnyOrder | yubico-client.py:29-43 | The same holds whatever order the three pairs are listed in. |
| Yubico.SplitSigningString | yubico-client.py:40-43 | The signed string splits on `&` into its three `key=value` parts. |
| Yubico.SigningStringInjective | yubico-client.py:29-43 | Equal signed strings come from equal identity, OTP and nonce. |
| Yubico.QuoteTextInjective | yubico-client.py:34 | Distinct texts quote differently. |
| Yubico.JoinSnoc | yubico-client.py:36 | Appending `&piece` to a joined query is joining one more piece. |
| Yubico.ParseSigned | yubico-client.py:36-41 | A form-encoded query with `&h=…` appended parses into the quoted pairs, then the pair `h`. |
| Yubico.QueryPairs | yubico-client.py:28-41 | The final query parses into the three quoted pairs and `h` with the escaped signature. |
| Yubico.QueryParses | yubico-client.py:28-48 | The final query has four pairs. The first three joined back are the query that was signed, and unescaping the `h` value gives that query's signature. |
| Yubico.Nonce | yubico-client.py:67-68 | The nonce is exactly 25 characters, all ASCII letters and digits. |
| Yubico.NonceFollowsEncoding | yubico-client.py:67-68 | Each nonce character is the standard Base64 character of the random bytes at that position, with `x` for `+` and `z` for `/`. |
| Yubico.NonceAlphabet | yubico-client.py:68 | Thirty bytes encode to 40 characters with no `=`, all letters or digits once `x` and `z` stand for `+` and `/`. |
| Yubico.AltBytes | yubico-client.py:68 | `_bytes('xz')` is the two bytes of `x` and `z`. |
| Yubico.NonceQuotesAsItself | yubico-client.py:34-68 | `urlencode` writes the nonce as it is. |
| Yubico.ExtractStatus | yubico-client.py:60-64 | No body is a `TypeError`. A body gives a status exactly when the pattern matches, and the status is the greedy capture at the leftmost match. |
| Yubico.Judge | yubico-client.py:60-72 | With no body the status search raises `TypeError`. With a body the answer is true if and only if the leftmost match reads `status=OK` with no token character after it. |
| Yubico.JudgeIntended | yubico-client.py:60-72 | In the reading where a missing body means not verified, no body answers false; a body is judged as by `Judge`. |
| Yubico.Verify | yubico-client.py:66-72 | A transport error propagates and a reply other than 200 raises `TypeError`. A 200 reply gives true if and only if the leftmost match reads `status=OK` with no token character after it. |
| Yubico.VerifyWithAnswer | yubico-client.py:66-72 | With a fixed reply, the answer is whether the status found is `OK`. |
| Yubico.VerifyAcceptsOk | yubico-client.py:66-72 | One example: a 200 reply with the body `t=1\r\nstatus=OK\r\n` verifies. |
| Yubico.VerifyRejectsOthers | yubico-client.py:66-72 | `BAD_OTP`, `OKAY` and an empty body give false. |
| Yubico.VerifyRaises | yubico-client.py:57-72 | A 500 reply raises instead of answering false, and a connection error propagates. |
| Yubico.VerifyIntended | yubico-client.py:57-72 | In the reading where a reply other than 200 means not verified, such a reply gives false; otherwise the same as `Verify`. |
| Yubico.VerifyIntendedAgrees | yubico-client.py:57-72 | The two readings agree except on replies other than 200, where the code raises and the intended reading gives false. |
| Yubico.VerifyIntendedOn500 | yubico-client.py:57-72 | The intended reading answers false on a 500 reply. |

## Left out

- The HTTP call (`requests.get`) is the `Transport` parameter; `Yubico.Request` models only the status check of `__request__` (lines 50-58), whose effect `Verify`'s contract states. `requests`' own re-quoting of the query string is not modelled; the URL is the endpoint, `?` and the query.
- `os.urandom(30)` is the `rand` parameter, constrained only to 30 bytes.
- HMAC-SHA1 (RFC 2104 over SHA-1) is the `Mac` parameter. The model states what is signed, not how the digest is computed. The 28-character length holds when the digest has 20 bytes.
- The constructor's `base64.b64decode` of the secret key is not modelled: the key is given as bytes.
- The `__main__` demo (lines 75-77) is interactive I/O.
- Client identities and OTPs are taken as text. `urlencode` quotes `bytes` values directly and applies `str()` to values of other types; neither path is modelled.
- Python strings holding lone surrogates cannot be represented, since Dafny characters are Unicode scalar values. `encode('utf-8')` raises on them.
- `sorted` is modelled by insertion sort, not Timsort. `Ordering.SortedUnique` shows that every correct sort gives the same result on these lists.
- `Base64.Decode` is a canonical decoder: it also rejects non-zero pad bits, as section 3.5 of RFC 4648 allows. `FormEncoding.UnquotePlus` is a strict decoder. Both are reference partners of the encoders. Python's more lenient `b64decode` and `unquote_plus` are not modelled. `Utf8.Decode` is strict, as `bytes.decode('utf-8')` on lines 46 and 68 is.
- The alternates `xz` of the nonce are themselves letters of the alphabet, so that translation loses information and cannot be undone. `Base64.DecodeEncodeAlt` covers only alternates outside the alphabet; for the nonce, `Yubico.NonceFollowsEncoding` ties each character to the standard encoding instead.
- Strings.Replace: its contract and `Strings.ReplaceIsSplitJoin` characterise replacement of a one-character pattern only, which is the one replacement the client makes (`+` by `%2B` on line 36, stated further by `Yubico.Escape`, `Yubico.EscapeCons` and `Yubico.UnescapeEscape`). Longer patterns are described only for text in which they never occur.
- `Status.Find` models only the one fixed pattern, not regular expressions in general.

## Findings

| source | as written | input that shows it | evidently intended | confidence | as-written member | corrected member |
|---|---|---|---|---|---|---|
| yubico-client.py:57-64 | A reply other than 200 makes `__request__` return `None`, and `findall(None)` then raises `TypeError` | any reply with status 500, e.g. body `status=OK` | `verify` answers false (not verified) without raising | medium, not executed | Yubico.VerifyRaises | Yubico.VerifyIntended |
