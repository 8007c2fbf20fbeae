/**
 * The `Yubico` client of `yubico-client.py`: builds the signed query of a
 * WSAPI 2.0 verification request and judges the service's reply.
 *
 * HMAC-SHA1 (RFC 2104), the random source and the HTTP transport are
 * parameters: `Mac`, the `rand` bytes and `Transport`.
 */
module Yubico {
  import opened Common
  import opened Strings
  import Utf8
  import Base64
  import opened FormEncoding
  import Ordering
  import Status

  const Endpoint: string := "https://api.yubico.com/wsapi/2.0/verify"
  const UserAgent: string := "yubico-client"
  const Headers: seq<(string, string)> := [("User-Agent", UserAgent)]

  /** The alternate Base64 characters for `+` and `/` in nonces. */
  const AltChars: string := "xz"

  /** The client identity and the shared secret, already decoded from Base64. */
  datatype Client = Client(clientId: string, secretKey: seq<byte>)

  /** The argument of `_bytes`: a `str`, a `bytes`, or any other Python value, shown by its text. */
  datatype PyValue = Str(text: string) | Bytes(data: seq<byte>) | Other(repr: string)

  /** HMAC-SHA1 of a message (second argument) under a key (first argument). */
  type Mac = (seq<byte>, seq<byte>) -> seq<byte>

  /** A reply of the service: the HTTP status code and the body text. */
  datatype Reply = Reply(statusCode: int, text: string)

  /** `requests.get`: the URL and headers of a GET to the reply, or the error it raises. */
  type Transport = (string, seq<(string, string)>) -> Result<Reply>

  // ---------------------------------------------------------------- `_bytes`

  /** `_bytes(v)`: the UTF-8 encoding of a `str`, a `bytes` unchanged, anything else a `TypeError`. */
  function ToBytes(v: PyValue): (r: Result<seq<byte>>)
    ensures r.Err? <==> v.Other?
    ensures r.Err? ==> r.error.TypeError?
    ensures v.Bytes? ==> r == Ok(v.data)
    ensures v.Str? ==> r == Ok(Utf8.Encode(v.text)) && Utf8.Decode(r.value) == Some(v.text)
  {
    match v
    case Str(t) =>
      Utf8.DecodeEncode(t);
      Ok(Utf8.Encode(t))
    case Bytes(b) => Ok(b)
    case Other(repr) => Err(TypeError("Invalid argument " + repr))
  }

  /** Coercing the result of a coercion again changes nothing. */
  lemma ToBytesIdempotent(v: PyValue)
    requires ToBytes(v).Ok?
    ensures ToBytes(Bytes(ToBytes(v).value)) == ToBytes(v)
  {
  }

  // --------------------------------------------------------- `__signature__`

  /** `query.split('&')`, then each piece `.split('=', 1)`. */
  function ParsePairs(query: string): (r: seq<seq<string>>)
    ensures |r| == |Split(query, '&')|
    ensures forall k :: 0 <= k < |r| ==> |r[k]| == 1 || |r[k]| == 2
    ensures forall k :: 0 <= k < |r| ==> Join(r[k], '=') == Split(query, '&')[k] && '=' !in r[k][0]
  {
    var pieces := Split(query, '&');
    seq(|pieces|, k requires 0 <= k < |pieces| => SplitOnce(pieces[k], '='))
  }

  /**
   * What `ParsePairs` can produce: entries of one or two parts, a key without
   * `=`, and no `&` anywhere.
   */
  predicate PairsWellFormed(pairs: seq<seq<string>>)
  {
    forall k :: 0 <= k < |pairs| ==>
      && (|pairs[k]| == 1 || |pairs[k]| == 2)
      && '=' !in pairs[k][0]
      && forall j :: 0 <= j < |pairs[k]| ==> '&' !in pairs[k][j]
  }

  /**
   * `'&'.join(['='.join(pair) for pair in pairs])`. Parsing the result gives
   * the pairs back whenever they are of the form `ParsePairs` produces.
   */
  function JoinPairs(pairs: seq<seq<string>>): (r: string)
    ensures |pairs| >= 1 && PairsWellFormed(pairs) ==> ParsePairs(r) == pairs
  {
    var pieces := seq(|pairs|, k requires 0 <= k < |pairs| => Join(pairs[k], '='));
    if |pairs| >= 1 && PairsWellFormed(pairs) then
      ParsePieces(pairs, pieces);
      Join(pieces, '&')
    else
      Join(pieces, '&')
  }

  /** One well-formed entry, joined with `=`, holds no `&` and splits back into itself. */
  lemma ParsePiece(pair: seq<string>)
    requires |pair| == 1 || |pair| == 2
    requires '=' !in pair[0]
    requires forall j :: 0 <= j < |pair| ==> '&' !in pair[j]
    ensures '&' !in Join(pair, '=')
    ensures SplitOnce(Join(pair, '='), '=') == pair
  {
    if |pair| == 2 {
      SplitAtKey(pair[0], pair[1]);
      assert Join(pair, '=') == pair[0] + "=" + pair[1];
    } else {
      assert Join(pair, '=') == pair[0];
      assert pair == [pair[0]];
    }
  }

  /** Well-formed entries joined back parse into themselves. */
  lemma ParsePieces(pairs: seq<seq<string>>, pieces: seq<string>)
    requires |pairs| >= 1 && PairsWellFormed(pairs)
    requires pieces == seq(|pairs|, k requires 0 <= k < |pairs| => Join(pairs[k], '='))
    ensures ParsePairs(Join(pieces, '&')) == pairs
  {
    forall k | 0 <= k < |pairs|
      ensures '&' !in pieces[k] && SplitOnce(pieces[k], '=') == pairs[k]
    {
      ParsePiece(pairs[k]);
    }
    ParseJoined(pieces);
  }

  /** Every entry `ParsePairs` produces is well formed. */
  lemma ParsePairsWellFormed(query: string)
    ensures PairsWellFormed(ParsePairs(query))
  {
    var pieces := Split(query, '&');
    var pairs := ParsePairs(query);
    forall k, j | 0 <= k < |pairs| && 0 <= j < |pairs[k]|
      ensures '&' !in pairs[k][j]
    {
      assert Join(pairs[k], '=') == pieces[k];
      JoinHasParts(pairs[k], j);
    }
  }

  /** Each part of an entry of one or two parts is a slice of the entry joined with `=`. */
  lemma JoinHasParts(pair: seq<string>, j: int)
    requires |pair| == 1 || |pair| == 2
    requires 0 <= j < |pair|
    ensures multiset(pair[j]) <= multiset(Join(pair, '='))
  {
    if |pair| == 2 {
      assert Join(pair, '=') == pair[0] + "=" + pair[1];
    } else {
      assert Join(pair, '=') == pair[0];
    }
  }

  /** Parsing a query and joining the pairs back without sorting gives the query again. */
  lemma ParseJoinRoundTrip(query: string)
    ensures JoinPairs(ParsePairs(query)) == query
  {
    var pieces := Split(query, '&');
    var pairs := ParsePairs(query);
    assert seq(|pairs|, k requires 0 <= k < |pairs| => Join(pairs[k], '=')) == pieces;
    JoinSplit(query, '&');
  }

  /**
   * The string that is signed: the pairs of the query, sorted, joined back.
   * It parses into the same pairs as the query, in ascending order.
   */
  function Canonical(query: string): (r: string)
    ensures Ordering.Sorted(ParsePairs(r))
    ensures multiset(ParsePairs(r)) == multiset(ParsePairs(query))
  {
    var pairs := ParsePairs(query);
    var sorted := Ordering.Sort(pairs);
    ParsePairsWellFormed(query);
    SortedWellFormed(pairs, sorted);
    JoinPairs(sorted)
  }

  /** A rearrangement of well-formed entries is well formed. */
  lemma SortedWellFormed(pairs: seq<seq<string>>, sorted: seq<seq<string>>)
    requires PairsWellFormed(pairs)
    requires multiset(sorted) == multiset(pairs)
    ensures PairsWellFormed(sorted)
    ensures |pairs| >= 1 ==> |sorted| >= 1
  {
    forall k | 0 <= k < |sorted|
      ensures sorted[k] in pairs
    {
      assert sorted[k] in multiset(sorted);
    }
    assert |multiset(sorted)| == |sorted| && |multiset(pairs)| == |pairs|;
  }

  /** Characters of a Base64 signature: the standard alphabet and `=`. */
  predicate IsSignatureChar(c: char)
  {
    c as int < 0x80 && (Base64.IsLetter(c as int) || c as int == Base64.Pad)
  }

  /**
   * `__signature__(query)`: Base64 of the HMAC of the canonical string. The
   * signature decodes to the digest of exactly that string.
   */
  function Signature(key: seq<byte>, query: string, mac: Mac): (r: string)
    ensures forall k :: 0 <= k < |r| ==> IsSignatureChar(r[k])
    ensures Utf8.Encode(r) == Base64.Encode(mac(key, Utf8.Encode(Canonical(query))))
    ensures Base64.Decode(Utf8.Encode(r)) == Some(mac(key, Utf8.Encode(Canonical(query))))
    ensures |mac(key, Utf8.Encode(Canonical(query)))| == 20 ==> |r| == 28
  {
    var message := ToBytes(Str(Canonical(query))).value;
    if |mac(key, message)| == 20 then
      DigestTextLength(mac(key, message));
      Base64Text(mac(key, message))
    else
      Base64Text(mac(key, message))
  }

  /** An HMAC-SHA1 digest of 20 bytes gives 28 characters. */
  lemma DigestTextLength(digest: seq<byte>)
    requires |digest| == 20
    ensures |Base64Text(digest)| == 28
  {
    var e := Base64.Encode(digest);
    assert |e| == 4 * ((|digest| + 2) / 3);
    assert (|digest| + 2) / 3 == 22 / 3 == 7;
  }

  /** `b64encode(digest).decode()`: the Base64 text of a digest, which decodes back to it. */
  function Base64Text(digest: seq<byte>): (r: string)
    ensures Utf8.Encode(r) == Base64.Encode(digest) && |r| == |Base64.Encode(digest)|
    ensures forall k :: 0 <= k < |r| ==> IsSignatureChar(r[k])
    ensures Base64.Decode(Utf8.Encode(r)) == Some(digest)
  {
    var encoded := Base64.Encode(digest);
    Base64.DecodeEncode(digest);
    Base64IsAscii(encoded);
    Utf8.DecodeAscii(encoded)
  }

  /** Base64 characters are ASCII. */
  lemma Base64IsAscii(encoded: seq<byte>)
    requires forall k :: 0 <= k < |encoded| ==> Base64.IsLetter(encoded[k]) || encoded[k] == Base64.Pad
    ensures forall k :: 0 <= k < |encoded| ==> encoded[k] < 0x80 && IsSignatureChar(encoded[k] as char)
  {
  }

  /** Base64 output never holds the characters the query uses as syntax or escapes with. */
  lemma SignatureHasNoPercentOrAmpersand(key: seq<byte>, query: string, mac: Mac)
    ensures '%' !in Signature(key, query, mac) && '&' !in Signature(key, query, mac)
  {
    NoSyntaxInSignatureChars(Signature(key, query, mac));
  }

  lemma NoSyntaxInSignatureChars(r: string)
    requires forall k :: 0 <= k < |r| ==> IsSignatureChar(r[k])
    ensures '%' !in r && '&' !in r
  {
    forall k | 0 <= k < |r|
      ensures r[k] != '%' && r[k] != '&'
    {
      assert IsSignatureChar(r[k]);
    }
  }

  // ------------------------------------------------------------- `__query__`

  /** The pairs of lines 29-33, in the order the client lists them. */
  function ClientPairs(clientId: string, otp: string, nonce: string): seq<(string, string)>
  {
    [("id", clientId), ("otp", otp), ("nonce", nonce)]
  }

  /** `signature.replace('+', '%2B')`. */
  function Escape(sig: string): (r: string)
    ensures '+' !in r
    ensures '+' !in sig ==> r == sig
    ensures |r| == |sig| + 2 * multiset(sig)['+']
    ensures forall k :: 0 <= k < |r| ==> r[k] in sig || r[k] in "%2B"
  {
    EscapeNoPlus(sig);
    EscapeLength(sig);
    EscapeChars(sig);
    assert '+' !in sig ==> forall k :: !OccursAt(sig, "+", k) by {
      forall k | OccursAt(sig, "+", k) ensures '+' in sig {
        assert sig[k..k + 1][0] == sig[k];
      }
    }
    Replace(sig, "+", "%2B")
  }

  /** Replacing a one-character pattern works character by character. */
  lemma ReplaceCharCons(s: string, c: char, rep: string)
    requires |s| > 0
    ensures Replace(s, [c], rep) == (if s[0] == c then rep else [s[0]]) + Replace(s[1..], [c], rep)
  {
    assert s[..1] == [s[0]];
  }

  lemma {:induction false} EscapeNoPlus(sig: string)
    ensures '+' !in Replace(sig, "+", "%2B")
    decreases |sig|
  {
    if |sig| > 0 {
      EscapeNoPlus(sig[1..]);
      ReplaceCharCons(sig, '+', "%2B");
    }
  }

  lemma {:induction false} EscapeLength(sig: string)
    ensures |Replace(sig, "+", "%2B")| == |sig| + 2 * multiset(sig)['+']
    decreases |sig|
  {
    if |sig| > 0 {
      EscapeLength(sig[1..]);
      ReplaceCharCons(sig, '+', "%2B");
      assert sig == [sig[0]] + sig[1..];
      assert multiset(sig)['+'] == multiset(sig[1..])['+'] + (if sig[0] == '+' then 1 else 0);
    }
  }

  lemma {:induction false} EscapeChars(sig: string)
    ensures var r := Replace(sig, "+", "%2B");
      forall k :: 0 <= k < |r| ==> r[k] in sig || r[k] in "%2B"
    decreases |sig|
  {
    if |sig| > 0 {
      var r := Replace(sig, "+", "%2B");
      var rest := Replace(sig[1..], "+", "%2B");
      var head := if sig[0] == '+' then "%2B" else [sig[0]];
      EscapeChars(sig[1..]);
      ReplaceCharCons(sig, '+', "%2B");
      assert r == head + rest;
      forall k | 0 <= k < |r|
        ensures r[k] in sig || r[k] in "%2B"
      {
        if k < |head| {
          assert head[k] in sig || head[k] in "%2B";
        } else {
          assert r[k] == rest[k - |head|];
          assert rest[k - |head|] in sig[1..] ==> rest[k - |head|] in sig;
        }
      }
    }
  }

  /** Escaping brings in no character other than those of `%2B`. */
  lemma EscapeAddsNo(sig: string, c: char)
    requires c !in sig && c !in "%2B"
    ensures c !in Escape(sig)
  {
    var r := Escape(sig);
    forall k | 0 <= k < |r|
      ensures r[k] != c
    {
      assert r[k] in sig || r[k] in "%2B";
    }
  }

  /** How the receiving side reads the escape back: `h.replace('%2B', '+')`. */
  function Unescape(h: string): string
  {
    Replace(h, "%2B", "+")
  }

  /** Escaping works character by character. */
  lemma EscapeCons(c: char, rest: string)
    ensures Escape([c] + rest) == (if c == '+' then "%2B" else [c]) + Escape(rest)
  {
    var s := [c] + rest;
    assert s[..1] == [c] && s[1..] == rest;
  }

  /** An escaped `+` reads back as `+`. */
  lemma UnescapeEscaped(t: string)
    ensures Unescape("%2B" + t) == "+" + Unescape(t)
  {
    var s := "%2B" + t;
    assert s[..3] == "%2B" && s[3..] == t;
  }

  /** Any character other than `%` reads back as itself. */
  lemma UnescapeOther(c: char, t: string)
    requires c != '%'
    ensures Unescape([c] + t) == [c] + Unescape(t)
  {
    var s := [c] + t;
    if |s| >= 3 {
      assert s[..3] != "%2B" by { assert s[0] == c; }
      assert s[1..] == t;
    }
  }

  /** Unescaping undoes the escape of any text without `%`, so of every signature. */
  lemma {:induction false} UnescapeEscape(sig: string)
    requires '%' !in sig
    ensures Unescape(Escape(sig)) == sig
    decreases |sig|
  {
    if |sig| > 0 {
      var rest := sig[1..];
      assert sig == [sig[0]] + rest;
      UnescapeEscape(rest);
      EscapeCons(sig[0], rest);
      if sig[0] == '+' {
        UnescapeEscaped(Escape(rest));
      } else {
        UnescapeOther(sig[0], Escape(rest));
      }
    }
  }

  /** A query with `&h=` and an escaped signature appended: the query, the separator, then the escape. */
  lemma AppendSignatureShape(q: string, sig: string)
    requires '%' !in sig
    ensures var r := q + "&h=" + Escape(sig);
      && |q| + 3 <= |r|
      && r[..|q|] == q
      && r[|q|..|q| + 3] == "&h="
      && '+' !in r[|q| + 3..]
      && Unescape(r[|q| + 3..]) == sig
  {
    var r := q + "&h=" + Escape(sig);
    assert r[|q| + 3..] == Escape(sig);
    UnescapeEscape(sig);
  }

  /**
   * `__query__(otp, nonce)`: the form-encoded pairs as built, followed by
   * `&h=` and the escaped signature of those pairs.
   */
  function Query(client: Client, otp: string, nonce: string, mac: Mac): (r: string)
    ensures var q := UrlEncode(ClientPairs(client.clientId, otp, nonce));
      && |q| + 3 <= |r|
      && r[..|q|] == q
      && r[|q|..|q| + 3] == "&h="
      && '+' !in r[|q| + 3..]
      && Unescape(r[|q| + 3..]) == Signature(client.secretKey, q, mac)
  {
    Signed(client.secretKey, UrlEncode(ClientPairs(client.clientId, otp, nonce)), mac)
  }

  /** Lines 36-37: a query with `&h=` and its escaped signature appended. */
  function Signed(key: seq<byte>, query: string, mac: Mac): (r: string)
    ensures |query| + 3 <= |r|
    ensures r[..|query|] == query
    ensures r[|query|..|query| + 3] == "&h="
    ensures '+' !in r[|query| + 3..]
    ensures Unescape(r[|query| + 3..]) == Signature(key, query, mac)
  {
    var signature := Signature(key, query, mac);
    SignatureHasNoPercentOrAmpersand(key, query, mac);
    AppendSignatureShape(query, signature);
    query + "&h=" + Escape(signature)
  }

  // ------------------------------------------------------- properties of the query

  /** A pair as `urlencode` writes it and `split` reads it back. */
  function EncodePair(pair: (string, string)): seq<string>
  {
    [QuoteText(pair.0), QuoteText(pair.1)]
  }

  function EncodePairs(data: seq<(string, string)>): (r: seq<seq<string>>)
    ensures |r| == |data|
  {
    seq(|data|, k requires 0 <= k < |data| => EncodePair(data[k]))
  }

  /** `key=value` splits at its first `=` when the key holds no `=`. */
  lemma SplitAtKey(key: string, value: string)
    requires '=' !in key
    ensures SplitOnce(key + "=" + value, '=') == [key, value]
  {
    var s := key + "=" + value;
    assert s[..|key|] == key;
    IndexOfUnique(s, '=', |key|);
    assert s[|key| + 1..] == value;
  }

  /** A query made of pieces without `&` parses piece by piece. */
  lemma ParseJoined(pieces: seq<string>)
    requires |pieces| >= 1
    requires forall k :: 0 <= k < |pieces| ==> '&' !in pieces[k]
    ensures ParsePairs(Join(pieces, '&')) == seq(|pieces|, k requires 0 <= k < |pieces| => SplitOnce(pieces[k], '='))
  {
    SplitJoin(pieces, '&');
  }

  /** Each field `urlencode` writes holds no `&` and splits back into its quoted key and value. */
  lemma FieldsSplit(data: seq<(string, string)>)
    ensures forall k :: 0 <= k < |data| ==> '&' !in Fields(data)[k]
    ensures forall k :: 0 <= k < |data| ==> SplitOnce(Fields(data)[k], '=') == EncodePair(data[k])
  {
    forall k | 0 <= k < |data|
      ensures '&' !in Fields(data)[k]
      ensures SplitOnce(Fields(data)[k], '=') == EncodePair(data[k])
    {
      SplitAtKey(QuoteText(data[k].0), QuoteText(data[k].1));
    }
  }

  /** A non-empty form-encoded list parses back into its quoted keys and values. */
  lemma ParseUrlEncode(data: seq<(string, string)>)
    requires |data| >= 1
    ensures ParsePairs(UrlEncode(data)) == EncodePairs(data)
  {
    FieldsSplit(data);
    ParseJoined(Fields(data));
  }

  lemma EncodePairsAppend(a: seq<(string, string)>, b: seq<(string, string)>)
    ensures EncodePairs(a + b) == EncodePairs(a) + EncodePairs(b)
  {
  }

  /** Encoding pairs one by one keeps a permutation a permutation. */
  lemma {:induction false} EncodePairsPermutation(xs: seq<(string, string)>, ys: seq<(string, string)>)
    requires multiset(xs) == multiset(ys)
    ensures multiset(EncodePairs(xs)) == multiset(EncodePairs(ys))
    decreases |xs|
  {
    if |xs| == 0 {
      assert |multiset(ys)| == 0;
    } else {
      var x := xs[0];
      assert x in multiset(ys);
      var j :| 0 <= j < |ys| && ys[j] == x;
      var rest := ys[..j] + ys[j + 1..];
      assert ys == ys[..j] + [x] + ys[j + 1..];
      assert xs == [x] + xs[1..];
      assert multiset(rest) == multiset(ys) - multiset{x};
      assert multiset(xs[1..]) == multiset(xs) - multiset{x};
      EncodePairsPermutation(xs[1..], rest);
      EncodePairsAppend([x], xs[1..]);
      EncodePairsAppend(ys[..j] + [x], ys[j + 1..]);
      EncodePairsAppend(ys[..j], [x]);
      EncodePairsAppend(ys[..j], ys[j + 1..]);
    }
  }

  /** The signed string does not depend on the order the pairs were listed in. */
  lemma CanonicalIgnoresOrder(xs: seq<(string, string)>, ys: seq<(string, string)>)
    requires |xs| >= 1
    requires multiset(xs) == multiset(ys)
    ensures Canonical(UrlEncode(xs)) == Canonical(UrlEncode(ys))
  {
    assert |ys| == |multiset(ys)| == |multiset(xs)| == |xs|;
    ParseUrlEncode(xs);
    ParseUrlEncode(ys);
    EncodePairsPermutation(xs, ys);
    Ordering.SortIgnoresOrder(EncodePairs(xs), EncodePairs(ys));
  }

  /** The string the client signs for an identity, an OTP and a nonce. */
  function SigningString(clientId: string, otp: string, nonce: string): string
  {
    "id=" + QuoteText(clientId) + "&nonce=" + QuoteText(nonce) + "&otp=" + QuoteText(otp)
  }

  /** The keys appear in the order `id`, `nonce`, `otp`, whatever the values. */
  lemma SortedByKey(a: string, b: string, c: string)
    ensures Ordering.Sorted([["id", a], ["nonce", c], ["otp", b]])
  {
    assert Ordering.StrLess("id", "nonce");
    assert Ordering.StrLess("nonce", "otp");
    assert Ordering.StrLess("id", "otp");
  }

  /** Three parts joined with `&`. */
  lemma JoinThree(x: string, y: string, z: string)
    ensures Join([x, y, z], '&') == x + "&" + y + "&" + z
  {
    assert [x, y, z][1..] == [y, z];
    assert [y, z][1..] == [z];
    assert Join([y, z], '&') == y + ['&'] + z;
    assert Join([x, y, z], '&') == x + ['&'] + (y + ['&'] + z);
  }

  /** The three parts of the signed string, joined, are the signed string. */
  lemma SigningStringParts(clientId: string, otp: string, nonce: string)
    ensures Join(["id=" + QuoteText(clientId), "nonce=" + QuoteText(nonce), "otp=" + QuoteText(otp)], '&')
         == SigningString(clientId, otp, nonce)
  {
    var a, b, c := QuoteText(clientId), QuoteText(otp), QuoteText(nonce);
    JoinThree("id=" + a, "nonce=" + c, "otp=" + b);
    assert "&nonce=" == "&" + "nonce=" && "&otp=" == "&" + "otp=";
    Regroup("id=", a, "&", "nonce=", c, "otp=", b);
  }

  /** Concatenation regrouped. */
  lemma Regroup(p: string, a: string, amp: string, q: string, c: string, r: string, b: string)
    ensures p + a + amp + (q + c) + amp + (r + b) == p + a + (amp + q) + c + (amp + r) + b
  {
  }

  /** Sorting the client's three pairs puts them in key order `id`, `nonce`, `otp`. */
  lemma SortFields(a: string, b: string, c: string)
    ensures Ordering.Sort([["id", a], ["otp", b], ["nonce", c]]) == [["id", a], ["nonce", c], ["otp", b]]
  {
    var parsed := [["id", a], ["otp", b], ["nonce", c]];
    var target := [["id", a], ["nonce", c], ["otp", b]];
    SortedByKey(a, b, c);
    assert multiset(parsed) == multiset(target);
    Ordering.SortedUnique(Ordering.Sort(parsed), target);
  }

  /** The client's three pairs parse back into their quoted keys and values. */
  lemma ParseFields(clientId: string, otp: string, nonce: string)
    ensures ParsePairs(UrlEncode(ClientPairs(clientId, otp, nonce)))
         == [["id", QuoteText(clientId)], ["otp", QuoteText(otp)], ["nonce", QuoteText(nonce)]]
  {
    ParseUrlEncode(ClientPairs(clientId, otp, nonce));
    EncodeFields(clientId, otp, nonce);
  }

  /** Quoting the client's three pairs leaves the keys as they are. */
  lemma EncodeFields(clientId: string, otp: string, nonce: string)
    ensures EncodePairs(ClientPairs(clientId, otp, nonce))
         == [["id", QuoteText(clientId)], ["otp", QuoteText(otp)], ["nonce", QuoteText(nonce)]]
  {
    KeysQuoteAsThemselves();
    EncodeTriple("id", "otp", "nonce", clientId, otp, nonce);
  }

  /** Three pairs whose keys quote as themselves encode to the keys and the quoted values. */
  lemma EncodeTriple(k1: string, k2: string, k3: string, a: string, b: string, c: string)
    requires QuoteText(k1) == k1 && QuoteText(k2) == k2 && QuoteText(k3) == k3
    ensures EncodePairs([(k1, a), (k2, b), (k3, c)]) == [[k1, QuoteText(a)], [k2, QuoteText(b)], [k3, QuoteText(c)]]
  {
  }


  /** The three keys need no quoting. */
  lemma KeysQuoteAsThemselves()
    ensures QuoteText("id") == "id" && QuoteText("otp") == "otp" && QuoteText("nonce") == "nonce"
  {
    var id, otp, nonce := "id", "otp", "nonce";
    assert forall k :: 0 <= k < |id| ==> IsUnreservedChar(id[k]);
    assert forall k :: 0 <= k < |otp| ==> IsUnreservedChar(otp[k]);
    assert forall k :: 0 <= k < |nonce| ==> IsUnreservedChar(nonce[k]);
    QuoteUnreserved(id);
    QuoteUnreserved(otp);
    QuoteUnreserved(nonce);
  }

  /** `'='.join([key, value])`. */
  lemma KeyValue(key: string, value: string)
    ensures Join([key, value], '=') == key + "=" + value
  {
    assert [key, value][1..] == [value];
  }

  /** The sorted pairs, joined back, are the signed string. */
  lemma JoinSortedFields(clientId: string, otp: string, nonce: string)
    ensures JoinPairs([["id", QuoteText(clientId)], ["nonce", QuoteText(nonce)], ["otp", QuoteText(otp)]])
         == SigningString(clientId, otp, nonce)
  {
    var a, b, c := QuoteText(clientId), QuoteText(otp), QuoteText(nonce);
    var target := [["id", a], ["nonce", c], ["otp", b]];
    var joined := seq(|target|, k requires 0 <= k < |target| => Join(target[k], '='));
    KeyValue("id", a);
    KeyValue("nonce", c);
    KeyValue("otp", b);
    assert joined[0] == Join(["id", a], '=') == "id=" + a;
    assert joined[1] == Join(["nonce", c], '=') == "nonce=" + c;
    assert joined[2] == Join(["otp", b], '=') == "otp=" + b;
    assert joined == ["id=" + a, "nonce=" + c, "otp=" + b];
    SigningStringParts(clientId, otp, nonce);
  }

  /** For the client's three pairs, the signed string is `id=…&nonce=…&otp=…`. */
  lemma CanonicalOfFields(clientId: string, otp: string, nonce: string)
    ensures Canonical(UrlEncode(ClientPairs(clientId, otp, nonce))) == SigningString(clientId, otp, nonce)
  {
    ParseFields(clientId, otp, nonce);
    SortFields(QuoteText(clientId), QuoteText(otp), QuoteText(nonce));
    JoinSortedFields(clientId, otp, nonce);
  }

  /** The same holds whichever order the three pairs are listed in. */
  lemma CanonicalOfFieldsAnyOrder(data: seq<(string, string)>, clientId: string, otp: string, nonce: string)
    requires multiset(data) == multiset(ClientPairs(clientId, otp, nonce))
    ensures Canonical(UrlEncode(data)) == SigningString(clientId, otp, nonce)
  {
    var fields := ClientPairs(clientId, otp, nonce);
    CanonicalIgnoresOrder(fields, data);
    CanonicalOfFields(clientId, otp, nonce);
  }

  /** The same prefix on two texts: the texts are equal. */
  lemma DropPrefix(p: string, x: string, y: string)
    requires p + x == p + y
    ensures x == y
  {
    assert x == (p + x)[|p|..];
    assert y == (p + y)[|p|..];
  }

  /** Splitting the signed string on `&` gives its three `key=value` parts. */
  lemma SplitSigningString(clientId: string, otp: string, nonce: string)
    ensures Split(SigningString(clientId, otp, nonce), '&')
         == ["id=" + QuoteText(clientId), "nonce=" + QuoteText(nonce), "otp=" + QuoteText(otp)]
  {
    var parts := ["id=" + QuoteText(clientId), "nonce=" + QuoteText(nonce), "otp=" + QuoteText(otp)];
    forall k | 0 <= k < |parts|
      ensures '&' !in parts[k]
    {
    }
    SigningStringParts(clientId, otp, nonce);
    SplitJoin(parts, '&');
  }

  /** The signed string determines the identity, the OTP and the nonce: distinct requests sign distinct strings. */
  lemma SigningStringInjective(id1: string, otp1: string, nonce1: string, id2: string, otp2: string, nonce2: string)
    requires SigningString(id1, otp1, nonce1) == SigningString(id2, otp2, nonce2)
    ensures id1 == id2 && otp1 == otp2 && nonce1 == nonce2
  {
    SplitSigningString(id1, otp1, nonce1);
    SplitSigningString(id2, otp2, nonce2);
    DropPrefix("id=", QuoteText(id1), QuoteText(id2));
    DropPrefix("nonce=", QuoteText(nonce1), QuoteText(nonce2));
    DropPrefix("otp=", QuoteText(otp1), QuoteText(otp2));
    QuoteTextInjective(id1, id2);
    QuoteTextInjective(otp1, otp2);
    QuoteTextInjective(nonce1, nonce2);
  }

  /** Distinct texts quote differently. */
  lemma QuoteTextInjective(s: string, t: string)
    requires QuoteText(s) == QuoteText(t)
    ensures s == t
  {
    UnquoteQuote(Utf8.Encode(s));
    UnquoteQuote(Utf8.Encode(t));
    Utf8.EncodeInjective(s, t);
  }

  /** `Join` of a list with one more element at the end. */
  lemma {:induction false} JoinSnoc(parts: seq<string>, last: string, sep: char)
    requires |parts| >= 1
    ensures Join(parts + [last], sep) == Join(parts, sep) + [sep] + last
    decreases |parts|
  {
    if |parts| > 1 {
      assert (parts + [last])[1..] == parts[1..] + [last];
      JoinSnoc(parts[1..], last, sep);
    } else {
      assert (parts + [last])[1..] == [last];
    }
  }

  /** The query with one more piece appended after `&` is the join of the fields and that piece. */
  lemma UrlEncodeSnoc(data: seq<(string, string)>, piece: string)
    requires |data| >= 1
    ensures UrlEncode(data) + "&" + piece == Join(Fields(data) + [piece], '&')
  {
    JoinSnoc(Fields(data), piece, '&');
  }

  /** A form-encoded list with a final `h` pair parses into the quoted pairs and that pair. */
  lemma ParseSigned(data: seq<(string, string)>, h: string)
    requires |data| >= 1
    requires '&' !in h
    ensures ParsePairs(UrlEncode(data) + "&h=" + h) == EncodePairs(data) + [["h", h]]
  {
    var key := "h";
    var piece := key + "=" + h;
    AppendKeyed(UrlEncode(data), h);
    UrlEncodeSnoc(data, piece);
    SplitAtKey(key, h);
    ParseAppended(data, piece, [key, h]);
  }

  /** Appending `&h=value` is appending `&` and the piece `h=value`. */
  lemma AppendKeyed(q: string, value: string)
    ensures q + "&h=" + value == q + "&" + ("h" + "=" + value)
  {
    assert "&h=" == "&" + "h" + "=";
  }

  /** A form-encoded list with one more piece parses into the quoted pairs and that piece's pair. */
  lemma ParseAppended(data: seq<(string, string)>, piece: string, pair: seq<string>)
    requires |data| >= 1
    requires '&' !in piece
    requires SplitOnce(piece, '=') == pair
    ensures ParsePairs(Join(Fields(data) + [piece], '&')) == EncodePairs(data) + [pair]
  {
    var fields := Fields(data);
    var all := fields + [piece];
    var expected := EncodePairs(data) + [pair];
    FieldsSplit(data);
    forall k | 0 <= k < |all|
      ensures '&' !in all[k] && SplitOnce(all[k], '=') == expected[k]
    {
      if k < |fields| {
        assert all[k] == fields[k] && expected[k] == EncodePair(data[k]);
      } else {
        assert all[k] == piece && expected[k] == pair;
      }
    }
    ParseJoinedAs(all, expected);
  }

  /** Pieces without `&` that each split into the expected pair: the joined query parses into those pairs. */
  lemma ParseJoinedAs(pieces: seq<string>, expected: seq<seq<string>>)
    requires |pieces| >= 1 && |expected| == |pieces|
    requires forall k :: 0 <= k < |pieces| ==> '&' !in pieces[k] && SplitOnce(pieces[k], '=') == expected[k]
    ensures ParsePairs(Join(pieces, '&')) == expected
  {
    ParseJoined(pieces);
  }

  /**
   * The service's view of a query: four pairs `id`, `otp`, `nonce` and `h`,
   * and unescaping `h` gives the signature of the first three joined back.
   */
  lemma QueryParses(client: Client, otp: string, nonce: string, mac: Mac)
    ensures var pairs := ParsePairs(Query(client, otp, nonce, mac));
      && |pairs| == 4
      && pairs[..3] == EncodePairs(ClientPairs(client.clientId, otp, nonce))
      && |pairs[3]| == 2 && pairs[3][0] == "h"
      && Unescape(pairs[3][1]) == Signature(client.secretKey, JoinPairs(pairs[..3]), mac)
  {
    var data := ClientPairs(client.clientId, otp, nonce);
    var q := UrlEncode(data);
    var sig := Signature(client.secretKey, q, mac);
    var e := EncodePairs(data);
    var pairs := ParsePairs(Query(client, otp, nonce, mac));
    QueryPairs(client, otp, nonce, mac);
    ParseUrlEncode(data);
    ParseJoinRoundTrip(q);
    SignatureHasNoPercentOrAmpersand(client.secretKey, q, mac);
    UnescapeEscape(sig);
    PairsShape(pairs, e, Escape(sig), q, sig);
  }

  /** Three pairs and a final `h` pair, taken apart again. */
  lemma PairsShape(pairs: seq<seq<string>>, e: seq<seq<string>>, h: string, q: string, sig: string)
    requires |e| == 3 && pairs == e + [["h", h]]
    requires JoinPairs(e) == q && Unescape(h) == sig
    ensures |pairs| == 4 && pairs[..3] == e && JoinPairs(pairs[..3]) == q
    ensures |pairs[3]| == 2 && pairs[3][0] == "h" && Unescape(pairs[3][1]) == sig
  {
    assert pairs[..3] == e;
  }

  /** The pairs of a query: the quoted fields, then `h` with the escaped signature. */
  lemma QueryPairs(client: Client, otp: string, nonce: string, mac: Mac)
    ensures var q := UrlEncode(ClientPairs(client.clientId, otp, nonce));
      ParsePairs(Query(client, otp, nonce, mac))
        == EncodePairs(ClientPairs(client.clientId, otp, nonce)) + [["h", Escape(Signature(client.secretKey, q, mac))]]
  {
    SignedPairs(client.secretKey, ClientPairs(client.clientId, otp, nonce), mac);
  }

  /** A signed query parses into the quoted pairs, then `h` with the escaped signature. */
  lemma SignedPairs(key: seq<byte>, data: seq<(string, string)>, mac: Mac)
    requires |data| >= 1
    ensures var q := UrlEncode(data);
      ParsePairs(Signed(key, q, mac)) == EncodePairs(data) + [["h", Escape(Signature(key, q, mac))]]
  {
    var q := UrlEncode(data);
    SignedIs(key, q, mac);
    ParseSigned(data, Escape(Signature(key, q, mac)));
  }

  /** A signed query is the query, `&h=` and the escaped signature, which holds no `&`. */
  lemma SignedIs(key: seq<byte>, q: string, mac: Mac)
    ensures Signed(key, q, mac) == q + "&h=" + Escape(Signature(key, q, mac))
    ensures '&' !in Escape(Signature(key, q, mac))
  {
    var sig := Signature(key, q, mac);
    SignatureHasNoPercentOrAmpersand(key, q, mac);
    EscapeAddsNo(sig, '&');
  }

  // ----------------------------------------------------------------- nonce

  /** ASCII letters and digits. */
  predicate IsAlnumChar(c: char)
  {
    c as int < 0x80 && Base64.IsAlnum(c as int)
  }

  /**
   * Line 68: the first 25 characters of the Base64 encoding, with `x` and `z`
   * for `+` and `/`, of the 30 random bytes.
   */
  function Nonce(rand: seq<byte>): (r: string)
    requires |rand| == 30
    ensures |r| == 25
    ensures forall k :: 0 <= k < |r| ==> IsAlnumChar(r[k])
  {
    var randBytes := ToBytes(Bytes(rand)).value;
    var alt := ToBytes(Str(AltChars)).value;
    AltBytes();
    var encoded := Base64.EncodeAlt(randBytes, alt);
    NonceAlphabet(randBytes, alt);
    Utf8.DecodeAscii(encoded[..25])
  }

  /**
   * Thirty bytes encode to 40 characters without `=` padding, and with `x`
   * and `z` in place of `+` and `/` every one of them is a letter or a digit.
   */
  lemma NonceAlphabet(data: seq<byte>, alt: seq<byte>)
    requires |data| == 30 && alt == [0x78, 0x7A]
    ensures var e := Base64.EncodeAlt(data, alt);
      && |e| == 40
      && forall k :: 0 <= k < 40 ==> e[k] < 0x80 && IsAlnumChar(e[k] as char) && e[k] != Base64.Pad
  {
    var e := Base64.EncodeAlt(data, alt);
    assert forall k :: 0 <= k < 40 ==> Base64.IsAlnum(e[k]) || e[k] == 0x78 || e[k] == 0x7A;
  }

  /** `_bytes('xz')`: the two ASCII bytes. */
  lemma AltBytes()
    ensures ToBytes(Str(AltChars)).value == [0x78, 0x7A]
  {
    Utf8.EncodeAscii(AltChars);
  }

  /**
   * The nonce follows the standard Base64 text of the random bytes: each of
   * its 25 characters is that text's character, with `x` for `+` and `z` for `/`.
   */
  lemma NonceFollowsEncoding(rand: seq<byte>)
    requires |rand| == 30
    ensures var e := Base64.Encode(rand);
      forall k :: 0 <= k < 25 ==>
        Nonce(rand)[k] == (if e[k] == Base64.Plus then 'x' else if e[k] == Base64.Slash then 'z' else e[k] as char)
  {
    AltBytes();
    var alt := ToBytes(Str(AltChars)).value;
    var encoded := Base64.EncodeAlt(rand, alt);
    NonceAlphabet(rand, alt);
    assert forall k :: 0 <= k < 25 ==> Nonce(rand)[k] as int == encoded[k];
  }

  /** A nonce needs no quoting: `urlencode` writes it as it is. */
  lemma NonceQuotesAsItself(rand: seq<byte>)
    requires |rand| == 30
    ensures QuoteText(Nonce(rand)) == Nonce(rand)
  {
    QuoteUnreserved(Nonce(rand));
  }

  // ----------------------------------------------------------------- verify

  function Url(query: string): string
  {
    Endpoint + "?" + query
  }

  /** `__request__(query)`: the body of a 200 reply and None for any other status. */
  function Request(query: string, transport: Transport): Result<Option<string>>
  {
    var reply :- transport(Url(query), Headers);
    Ok(if reply.statusCode == 200 then Some(reply.text) else None)
  }

  /**
   * `__verify__(response)`: the first status token of the body. Without a
   * body, `findall(None)` raises `TypeError`.
   */
  function ExtractStatus(response: Option<string>): (r: Result<Option<string>>)
    ensures r.Err? <==> response.None?
    ensures r.Err? ==> r.error.TypeError?
    ensures response.Some? ==> r.value.Some? == exists k :: Status.MatchesAt(response.value, k)
    ensures forall k :: response.Some? && Status.IsLeftmost(response.value, k) ==>
      r == Ok(Some(Status.Token(response.value, k + |Status.Key|)))
  {
    match response
    case None => Err(TypeError("expected string or bytes-like object"))
    case Some(text) => Ok(Status.Find(text))
  }

  /**
   * `verify(otp)`: true exactly when the service answers 200 and the leftmost
   * status token of the body is `OK`. A failed connection and a reply other
   * than 200 raise.
   */
  function Verify(client: Client, otp: string, rand: seq<byte>, mac: Mac, transport: Transport): (r: Result<bool>)
    requires |rand| == 30
    ensures var reply := transport(Url(Query(client, otp, Nonce(rand), mac)), Headers);
      && (reply.Err? ==> r == Err(reply.error))
      && (reply.Ok? && reply.value.statusCode != 200 ==> r.Err? && r.error.TypeError?)
      && (reply.Ok? && reply.value.statusCode == 200 ==>
            r.Ok? && (r.value <==> exists k :: Status.LeftmostIsOk(reply.value.text, k)))
  {
    var nonce := Nonce(rand);
    var query := Query(client, otp, nonce, mac);
    var response :- Request(query, transport);
    Judge(response)
  }

  /**
   * Lines 71-72 on what `__request__` returned: the status must be exactly
   * `OK`; with no body, `__verify__` raises.
   */
  function Judge(response: Option<string>): (r: Result<bool>)
    ensures response.None? ==> r.Err? && r.error.TypeError?
    ensures response.Some? ==> r.Ok? && (r.value <==> exists k :: Status.LeftmostIsOk(response.value, k))
  {
    var status :- ExtractStatus(response);
    assert response.Some?;
    Status.FindIsOk(response.value);
    Ok(status == Some("OK"))
  }

  /** The reading in which a missing body means not verified: lines 71-72 answer false instead of raising. */
  function JudgeIntended(response: Option<string>): (r: Result<bool>)
    ensures response.None? ==> r == Ok(false)
    ensures response.Some? ==> r.Ok? && (r.value <==> exists k :: Status.LeftmostIsOk(response.value, k))
  {
    match response
    case None => Ok(false)
    case Some(text) =>
      Status.FindIsOk(text);
      Ok(Status.Find(text) == Some("OK"))
  }

  /**
   * `verify` in the reading where a reply other than 200 means not verified:
   * it answers false instead of raising.
   */
  function VerifyIntended(client: Client, otp: string, rand: seq<byte>, mac: Mac, transport: Transport): (r: Result<bool>)
    requires |rand| == 30
    ensures var reply := transport(Url(Query(client, otp, Nonce(rand), mac)), Headers);
      && (reply.Err? ==> r == Err(reply.error))
      && (reply.Ok? && reply.value.statusCode != 200 ==> r == Ok(false))
      && (reply.Ok? && reply.value.statusCode == 200 ==>
            r.Ok? && (r.value <==> exists k :: Status.LeftmostIsOk(reply.value.text, k)))
  {
    var response :- Request(Query(client, otp, Nonce(rand), mac), transport);
    JudgeIntended(response)
  }

  /** The two readings differ only on replies other than 200, where the code raises and the other reading answers false. */
  lemma VerifyIntendedAgrees(client: Client, otp: string, rand: seq<byte>, mac: Mac, transport: Transport)
    requires |rand| == 30
    ensures var reply := transport(Url(Query(client, otp, Nonce(rand), mac)), Headers);
      && (reply.Ok? && reply.value.statusCode != 200 ==>
            Verify(client, otp, rand, mac, transport).Err? && VerifyIntended(client, otp, rand, mac, transport) == Ok(false))
      && (!(reply.Ok? && reply.value.statusCode != 200) ==>
            Verify(client, otp, rand, mac, transport) == VerifyIntended(client, otp, rand, mac, transport))
  {
    var reply := transport(Url(Query(client, otp, Nonce(rand), mac)), Headers);
    var v := Verify(client, otp, rand, mac, transport);
    var w := VerifyIntended(client, otp, rand, mac, transport);
    if reply.Ok? && reply.value.statusCode == 200 {
      assert v.Ok? && w.Ok?;
      assert v.value == w.value;
    }
  }

  /** A transport that answers every request with the same reply. */
  function Answer(reply: Result<Reply>): Transport
  {
    (url: string, headers: seq<(string, string)>) => reply
  }

  /** What `verify` does with a transport that always gives the same reply. */
  lemma VerifyWithAnswer(client: Client, otp: string, rand: seq<byte>, mac: Mac, reply: Result<Reply>)
    requires |rand| == 30
    ensures var r := Verify(client, otp, rand, mac, Answer(reply));
      && (reply.Err? ==> r == Err(reply.error))
      && (reply.Ok? && reply.value.statusCode != 200 ==> r.Err?)
      && (reply.Ok? && reply.value.statusCode == 200 ==> r == Ok(Status.Find(reply.value.text) == Some("OK")))
  {
    if reply.Ok? && reply.value.statusCode == 200 {
      Status.FindIsOk(reply.value.text);
    }
  }

  /** `verify` accepts a 200 reply whose status is `OK`. */
  lemma VerifyAcceptsOk(client: Client, otp: string, rand: seq<byte>, mac: Mac)
    requires |rand| == 30
    ensures Verify(client, otp, rand, mac, Answer(Ok(Reply(200, "t=1\r\nstatus=OK\r\n")))) == Ok(true)
  {
    VerifyWithAnswer(client, otp, rand, mac, Ok(Reply(200, "t=1\r\nstatus=OK\r\n")));
    Status.OkReply();
  }

  /** `verify` rejects `BAD_OTP`, `OKAY` and a body without a status. */
  lemma VerifyRejectsOthers(client: Client, otp: string, rand: seq<byte>, mac: Mac)
    requires |rand| == 30
    ensures Verify(client, otp, rand, mac, Answer(Ok(Reply(200, "status=BAD_OTP")))) == Ok(false)
    ensures Verify(client, otp, rand, mac, Answer(Ok(Reply(200, "status=OKAY")))) == Ok(false)
    ensures Verify(client, otp, rand, mac, Answer(Ok(Reply(200, "")))) == Ok(false)
  {
    VerifyWithAnswer(client, otp, rand, mac, Ok(Reply(200, "status=BAD_OTP")));
    VerifyWithAnswer(client, otp, rand, mac, Ok(Reply(200, "status=OKAY")));
    VerifyWithAnswer(client, otp, rand, mac, Ok(Reply(200, "")));
    Status.BadOtpReply();
    Status.GreedyCapture();
    Status.NoStatus();
  }

  /** `verify` raises on a reply other than 200 and on a failed connection; it never answers false for them. */
  lemma VerifyRaises(client: Client, otp: string, rand: seq<byte>, mac: Mac)
    requires |rand| == 30
    ensures Verify(client, otp, rand, mac, Answer(Ok(Reply(500, "status=OK")))).Err?
    ensures Verify(client, otp, rand, mac, Answer(Err(ConnectionError))) == Err(ConnectionError)
  {
    VerifyWithAnswer(client, otp, rand, mac, Ok(Reply(500, "status=OK")));
    VerifyWithAnswer(client, otp, rand, mac, Err(ConnectionError));
  }

  /** On the same 500 reply the not-verified reading answers false. */
  lemma VerifyIntendedOn500(client: Client, otp: string, rand: seq<byte>, mac: Mac)
    requires |rand| == 30
    ensures VerifyIntended(client, otp, rand, mac, Answer(Ok(Reply(500, "status=OK")))) == Ok(false)
  {
    VerifyIntendedAgrees(client, otp, rand, mac, Answer(Ok(Reply(500, "status=OK"))));
  }
}
