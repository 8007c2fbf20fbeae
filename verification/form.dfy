/**
 * `urllib.parse.urlencode` over a list of text pairs: each key and value goes
 * through `quote_plus` (application/x-www-form-urlencoded), pairs are written
 * `key=value` and joined with `&`.
 */
module FormEncoding {
  import opened Common
  import Utf8
  import opened Strings

  /** Bytes `quote_plus` keeps as they are: the unreserved characters of section 2.3 of RFC 3986. */
  predicate IsUnreservedByte(b: byte)
  {
    || 0x41 <= b <= 0x5A   // A-Z
    || 0x61 <= b <= 0x7A   // a-z
    || 0x30 <= b <= 0x39   // 0-9
    || b == 0x5F || b == 0x2E || b == 0x2D || b == 0x7E   // _ . - ~
  }

  predicate IsUnreservedChar(c: char)
  {
    c as int < 0x80 && IsUnreservedByte(c as int)
  }

  /** What `quote_plus` can write: unreserved characters, `+` for a space, and `%` escapes. */
  predicate IsFormChar(c: char)
  {
    IsUnreservedChar(c) || c == '+' || c == '%'
  }

  /** The value of a hexadecimal digit of either case. */
  function HexValue(c: char): (r: Option<int>)
    ensures r.Some? ==> 0 <= r.value < 16
  {
    if '0' <= c <= '9' then Some(c as int - '0' as int)
    else if 'A' <= c <= 'F' then Some(c as int - 'A' as int + 10)
    else if 'a' <= c <= 'f' then Some(c as int - 'a' as int + 10)
    else None
  }

  /** The upper-case digit `quote` writes for a nibble. */
  function HexDigit(n: int): (c: char)
    requires 0 <= n < 16
    ensures IsUnreservedChar(c)
    ensures '0' <= c <= '9' || 'A' <= c <= 'F'
    ensures HexValue(c) == Some(n)
  {
    if n < 10 then ('0' as int + n) as char else ('A' as int + n - 10) as char
  }

  /** One byte as `quote_plus` writes it. */
  function QuoteByte(b: byte): (r: string)
    ensures forall k :: 0 <= k < |r| ==> IsFormChar(r[k])
    ensures b == 0x20 ==> r == "+"
    ensures IsUnreservedByte(b) ==> r == [b as char]
    ensures !IsUnreservedByte(b) && b != 0x20 ==>
      |r| == 3 && r[0] == '%' && forall k :: 1 <= k < 3 ==> '0' <= r[k] <= '9' || 'A' <= r[k] <= 'F'
  {
    if IsUnreservedByte(b) then [b as char]
    else if b == 0x20 then "+"
    else ['%', HexDigit(b / 16), HexDigit(b % 16)]
  }

  /** `quote_plus` of a byte string, with no extra safe characters. */
  function QuotePlus(bs: seq<byte>): (r: string)
    ensures forall k :: 0 <= k < |r| ==> IsFormChar(r[k])
    ensures '&' !in r && '=' !in r
  {
    if |bs| == 0 then "" else QuoteByte(bs[0]) + QuotePlus(bs[1..])
  }

  /** `quote_plus` of a text: its UTF-8 bytes, quoted. */
  function QuoteText(s: string): (r: string)
    ensures forall k :: 0 <= k < |r| ==> IsFormChar(r[k])
    ensures '&' !in r && '=' !in r
  {
    QuotePlus(Utf8.Encode(s))
  }

  /**
   * Strict form decoding, as the receiving side reads a value: `+` is a space,
   * `%` with two hexadecimal digits is that byte, an unreserved character is
   * itself, and anything else is malformed.
   */
  function UnquotePlus(s: string): (r: Option<seq<byte>>)
    decreases |s|
  {
    if |s| == 0 then Some([])
    else
      var head: Option<(byte, nat)> :=
        if s[0] == '+' then Some((0x20, 1))
        else if s[0] == '%' && |s| >= 3 && HexValue(s[1]).Some? && HexValue(s[2]).Some? then
          Some((HexValue(s[1]).value * 16 + HexValue(s[2]).value, 3))
        else if IsUnreservedChar(s[0]) then Some((s[0] as int, 1))
        else None;
      match head
      case None => None
      case Some((b, n)) =>
        if n > |s| then None
        else
          match UnquotePlus(s[n..])
          case None => None
          case Some(rest) => Some([b] + rest)
  }

  /** One quoted byte reads back as that byte, whatever follows it. */
  lemma UnquoteQuoteByte(b: byte, rest: string)
    requires UnquotePlus(rest).Some?
    ensures UnquotePlus(QuoteByte(b) + rest) == Some([b] + UnquotePlus(rest).value)
  {
    if IsUnreservedByte(b) {
      UnquoteSingle(b as char, rest);
    } else if b == 0x20 {
      UnquoteSingle('+', rest);
    } else {
      UnquoteEscape(b, rest);
    }
  }

  /** A one-character quoting (an unreserved character, or `+`) reads back one byte. */
  lemma UnquoteSingle(c: char, rest: string)
    requires IsUnreservedChar(c) || c == '+'
    requires UnquotePlus(rest).Some?
    ensures UnquotePlus([c] + rest) == Some([if c == '+' then 0x20 else c as int] + UnquotePlus(rest).value)
  {
    var s := [c] + rest;
    assert s[0] == c && s[1..] == rest;
  }

  /** A `%` escape reads back as the byte it encodes. */
  lemma UnquoteEscape(b: byte, rest: string)
    requires UnquotePlus(rest).Some?
    ensures UnquotePlus(['%', HexDigit(b / 16), HexDigit(b % 16)] + rest) == Some([b] + UnquotePlus(rest).value)
  {
    var s := ['%', HexDigit(b / 16), HexDigit(b % 16)] + rest;
    assert s[0] == '%' && s[1] == HexDigit(b / 16) && s[2] == HexDigit(b % 16);
    assert s[3..] == rest;
    assert (b / 16) * 16 + b % 16 == b;
  }

  /** Decoding undoes `quote_plus`: a quoted value always reads back as itself. */
  lemma {:induction false} UnquoteQuote(bs: seq<byte>)
    ensures UnquotePlus(QuotePlus(bs)) == Some(bs)
    decreases |bs|
  {
    if |bs| > 0 {
      UnquoteQuote(bs[1..]);
      UnquoteQuoteByte(bs[0], QuotePlus(bs[1..]));
      assert bs == [bs[0]] + bs[1..];
    }
  }

  /** Text made of unreserved characters is its own quoting. */
  lemma {:induction false} QuoteUnreserved(s: string)
    requires forall k :: 0 <= k < |s| ==> IsUnreservedChar(s[k])
    ensures QuoteText(s) == s
    decreases |s|
  {
    if |s| > 0 {
      QuoteUnreserved(s[1..]);
      assert Utf8.Encode(s) == Utf8.EncodeChar(s[0]) + Utf8.Encode(s[1..]);
      assert s == [s[0]] + s[1..];
    }
  }

  /** One pair of `urlencode`: `quote_plus(key) + '=' + quote_plus(value)`. */
  function Field(pair: (string, string)): string
  {
    QuoteText(pair.0) + "=" + QuoteText(pair.1)
  }

  /** Every pair written as a field, in order. No field holds `&`. */
  function Fields(data: seq<(string, string)>): (r: seq<string>)
    ensures |r| == |data|
    ensures forall k :: 0 <= k < |r| ==> '&' !in r[k]
  {
    seq(|data|, k requires 0 <= k < |data| => Field(data[k]))
  }

  /**
   * `urlencode(data)` for a list of text pairs. Splitting the result on `&`
   * gives back one field per pair, in order; no pairs give the empty text.
   */
  function UrlEncode(data: seq<(string, string)>): (r: string)
    ensures |data| == 0 ==> r == ""
    ensures |data| >= 1 ==> Split(r, '&') == Fields(data)
  {
    var fields := Fields(data);
    if |fields| >= 1 then
      SplitJoin(fields, '&');
      Join(fields, '&')
    else
      Join(fields, '&')
  }
}
