/**
 * UTF-8 (RFC 3629): what Python's `str.encode('utf-8')` produces and what a
 * strict `bytes.decode('utf-8')` accepts.
 */
module Utf8 {
  import opened Common

  /** A trailing byte of a multi-byte sequence, `10xxxxxx`. */
  predicate IsContinuation(b: byte)
  {
    0x80 <= b < 0xC0
  }

  /** The one to four bytes that stand for one scalar value (section 3 of RFC 3629). */
  function EncodeChar(c: char): (r: seq<byte>)
    ensures 1 <= |r| <= 4
    ensures |r| == 1 <==> c as int < 0x80
    ensures |r| == 1 ==> r[0] == c as int
    ensures forall k :: 1 <= k < |r| ==> IsContinuation(r[k])
  {
    var cp := c as int;
    if cp < 0x80 then [cp]
    else if cp < 0x800 then [0xC0 + cp / 0x40, 0x80 + cp % 0x40]
    else if cp < 0x10000 then [0xE0 + cp / 0x1000, 0x80 + (cp / 0x40) % 0x40, 0x80 + cp % 0x40]
    else [0xF0 + cp / 0x40000, 0x80 + (cp / 0x1000) % 0x40, 0x80 + (cp / 0x40) % 0x40, 0x80 + cp % 0x40]
  }

  /** `s.encode('utf-8')`. */
  function Encode(s: string): (r: seq<byte>)
    ensures |s| <= |r| <= 4 * |s|
  {
    if |s| == 0 then [] else EncodeChar(s[0]) + Encode(s[1..])
  }

  /** The scalar value at the head of `bs` and the number of bytes it takes, if they are well formed. */
  function DecodeFirst(bs: seq<byte>): (r: Option<(char, nat)>)
    requires |bs| > 0
    ensures r.Some? ==> 1 <= r.value.1 <= |bs|
  {
    var b0: int := bs[0];
    if b0 < 0x80 then Some((b0 as char, 1))
    else if 0xC2 <= b0 < 0xE0 && |bs| >= 2 && IsContinuation(bs[1]) then
      Some((((b0 - 0xC0) * 0x40 + (bs[1] as int - 0x80)) as char, 2))
    else if 0xE0 <= b0 < 0xF0 && |bs| >= 3 && IsContinuation(bs[1]) && IsContinuation(bs[2]) then
      var cp := (b0 - 0xE0) * 0x1000 + (bs[1] as int - 0x80) * 0x40 + (bs[2] as int - 0x80);
      if 0x800 <= cp && !(0xD800 <= cp < 0xE000) then Some((cp as char, 3)) else None
    else if 0xF0 <= b0 < 0xF5 && |bs| >= 4 && IsContinuation(bs[1]) && IsContinuation(bs[2]) && IsContinuation(bs[3]) then
      var cp := (b0 - 0xF0) * 0x40000 + (bs[1] as int - 0x80) * 0x1000 + (bs[2] as int - 0x80) * 0x40 + (bs[3] as int - 0x80);
      if 0x10000 <= cp < 0x110000 then Some((cp as char, 4)) else None
    else None
  }

  /** `bs.decode('utf-8')`: the text, or None where Python raises `UnicodeDecodeError`. */
  function Decode(bs: seq<byte>): (r: Option<string>)
    decreases |bs|
  {
    if |bs| == 0 then Some([])
    else
      match DecodeFirst(bs)
      case None => None
      case Some((c, n)) =>
        match Decode(bs[n..])
        case None => None
        case Some(rest) => Some([c] + rest)
  }

  /** The decoder reads back exactly the bytes the encoder wrote for one scalar value. */
  lemma DecodeFirstEncodeChar(c: char, rest: seq<byte>)
    ensures DecodeFirst(EncodeChar(c) + rest) == Some((c, |EncodeChar(c)|))
  {
    var cp := c as int;
    if cp < 0x80 {
    } else if cp < 0x800 {
      DecodeTwo(c, rest);
    } else if cp < 0x10000 {
      DecodeThree(c, rest);
    } else {
      DecodeFour(c, rest);
    }
  }

  lemma DecodeTwo(c: char, rest: seq<byte>)
    requires 0x80 <= c as int < 0x800
    ensures DecodeFirst(EncodeChar(c) + rest) == Some((c, 2))
  {
    var cp := c as int;
    var bs := EncodeChar(c) + rest;
    assert bs[0] == 0xC0 + cp / 0x40 && bs[1] == 0x80 + cp % 0x40;
    assert (cp / 0x40) * 0x40 + cp % 0x40 == cp;
  }

  lemma DecodeThree(c: char, rest: seq<byte>)
    requires 0x800 <= c as int < 0x10000
    ensures DecodeFirst(EncodeChar(c) + rest) == Some((c, 3))
  {
    var cp := c as int;
    var q := cp / 0x40;
    var bs := EncodeChar(c) + rest;
    assert bs[0] == 0xE0 + q / 0x40 && bs[1] == 0x80 + q % 0x40 && bs[2] == 0x80 + cp % 0x40;
    assert cp / 0x1000 == q / 0x40;
    assert q * 0x40 + cp % 0x40 == cp;
    assert (q / 0x40) * 0x40 + q % 0x40 == q;
    assert (q / 0x40) * 0x1000 + (q % 0x40) * 0x40 + cp % 0x40 == cp;
  }

  lemma DecodeFour(c: char, rest: seq<byte>)
    requires 0x10000 <= c as int
    ensures DecodeFirst(EncodeChar(c) + rest) == Some((c, 4))
  {
    var cp := c as int;
    var q := cp / 0x40;
    var p := q / 0x40;
    var bs := EncodeChar(c) + rest;
    assert cp / 0x1000 == p && cp / 0x40000 == p / 0x40;
    assert bs[0] == 0xF0 + p / 0x40 && bs[1] == 0x80 + p % 0x40;
    assert bs[2] == 0x80 + q % 0x40 && bs[3] == 0x80 + cp % 0x40;
    assert q * 0x40 + cp % 0x40 == cp;
    assert p * 0x40 + q % 0x40 == q;
    assert (p / 0x40) * 0x40 + p % 0x40 == p;
    assert (p / 0x40) * 0x40000 + (p % 0x40) * 0x1000 + (q % 0x40) * 0x40 + cp % 0x40 == cp;
  }

  /** Decoding undoes encoding: the round trip every `str` survives. */
  lemma {:induction false} DecodeEncode(s: string)
    ensures Decode(Encode(s)) == Some(s)
  {
    if |s| > 0 {
      var head := EncodeChar(s[0]);
      var bs := Encode(s);
      assert bs == head + Encode(s[1..]);
      DecodeFirstEncodeChar(s[0], Encode(s[1..]));
      assert bs[|head|..] == Encode(s[1..]);
      DecodeEncode(s[1..]);
      assert s == [s[0]] + s[1..];
    }
  }

  /** Distinct texts have distinct encodings. */
  lemma EncodeInjective(s: string, t: string)
    requires Encode(s) == Encode(t)
    ensures s == t
  {
    DecodeEncode(s);
    DecodeEncode(t);
  }

  /** Every character of `s` is ASCII. */
  predicate IsAscii(s: string)
  {
    forall k :: 0 <= k < |s| ==> s[k] as int < 0x80
  }

  /** ASCII text encodes byte for byte. */
  lemma {:induction false} EncodeAscii(s: string)
    requires IsAscii(s)
    ensures |Encode(s)| == |s|
    ensures forall k :: 0 <= k < |s| ==> Encode(s)[k] == s[k] as int
  {
    if |s| > 0 {
      EncodeAscii(s[1..]);
    }
  }

  /** `bs.decode('utf-8')` for bytes known to be ASCII, where it cannot fail. */
  function DecodeAscii(bs: seq<byte>): (r: string)
    requires forall k :: 0 <= k < |bs| ==> bs[k] < 0x80
    ensures Decode(bs) == Some(r)
    ensures Encode(r) == bs
    ensures |r| == |bs| && forall k :: 0 <= k < |bs| ==> r[k] as int == bs[k]
  {
    if |bs| == 0 then []
    else
      var rest := DecodeAscii(bs[1..]);
      var r := [bs[0] as char] + rest;
      assert DecodeFirst(bs) == Some((bs[0] as char, 1));
      assert r[0] == bs[0] as char && r[1..] == rest;
      assert EncodeChar(r[0]) == [bs[0]];
      assert bs == [bs[0]] + bs[1..];
      r
  }
}
