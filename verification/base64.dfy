/**
 * Base64 as Python's `base64.b64encode` writes it: the alphabet and padding of
 * section 4 of RFC 4648, output as ASCII bytes, with an optional pair of
 * alternate characters for `+` and `/`.
 */
module Base64 {
  import opened Common

  const Plus: byte := 43     // '+'
  const Slash: byte := 47    // '/'
  const Pad: byte := 61      // '='

  /** ASCII letters and digits. */
  predicate IsAlnum(b: byte)
  {
    0x41 <= b <= 0x5A || 0x61 <= b <= 0x7A || 0x30 <= b <= 0x39
  }

  /** The 64 characters of the standard alphabet. */
  predicate IsLetter(b: byte)
  {
    IsAlnum(b) || b == Plus || b == Slash
  }

  /** The 6-bit value a character of the alphabet stands for. */
  function Value(b: byte): (r: Option<int>)
    ensures r.Some? <==> IsLetter(b)
    ensures r.Some? ==> 0 <= r.value < 64
  {
    if 0x41 <= b <= 0x5A then Some(b - 0x41)
    else if 0x61 <= b <= 0x7A then Some(b - 0x61 + 26)
    else if 0x30 <= b <= 0x39 then Some(b - 0x30 + 52)
    else if b == Plus then Some(62)
    else if b == Slash then Some(63)
    else None
  }

  /** The character for a 6-bit value (table 1 of RFC 4648). */
  function Letter(i: int): (b: byte)
    requires 0 <= i < 64
    ensures IsLetter(b) && b != Pad
    ensures (i == 62) == (b == Plus) && (i == 63) == (b == Slash)
  {
    if i < 26 then 0x41 + i
    else if i < 52 then 0x61 + (i - 26)
    else if i < 62 then 0x30 + (i - 52)
    else if i == 62 then Plus
    else Slash
  }

  /** `Value` reads back what `Letter` writes. */
  lemma ValueOfLetter(i: int)
    requires 0 <= i < 64
    ensures Value(Letter(i)) == Some(i)
  {
  }

  /** Three bytes as four characters. */
  function EncodeGroup(b0: byte, b1: byte, b2: byte): seq<byte>
  {
    [Letter(b0 / 4), Letter((b0 % 4) * 16 + b1 / 16), Letter((b1 % 16) * 4 + b2 / 64), Letter(b2 % 64)]
  }

  /** `binascii.b2a_base64(data, newline=False)`: whole groups, then a padded tail. */
  function Encode(data: seq<byte>): (r: seq<byte>)
    ensures |r| == 4 * ((|data| + 2) / 3)
    ensures forall k :: 0 <= k < |r| ==> IsLetter(r[k]) || r[k] == Pad
    ensures forall k :: 0 <= k < 4 * (|data| / 3) ==> r[k] != Pad
    decreases |data|
  {
    if |data| == 0 then []
    else if |data| == 1 then
      [Letter(data[0] / 4), Letter((data[0] % 4) * 16), Pad, Pad]
    else if |data| == 2 then
      [Letter(data[0] / 4), Letter((data[0] % 4) * 16 + data[1] / 16), Letter((data[1] % 16) * 4), Pad]
    else
      var group := EncodeGroup(data[0], data[1], data[2]);
      var rest := Encode(data[3..]);
      var n := |data| - 3;
      assert (n + 5) / 3 == (n + 2) / 3 + 1 && (n + 3) / 3 == n / 3 + 1;
      assert forall k :: 0 <= k < 4 ==> IsLetter(group[k]) && group[k] != Pad;
      group + rest
  }

  /** The bytes behind four characters, the last group possibly padded. */
  function DecodeQuad(v0: int, v1: int, v2: int, v3: int): seq<byte>
    requires 0 <= v0 < 64 && 0 <= v1 < 64 && 0 <= v2 < 64 && 0 <= v3 < 64
  {
    [v0 * 4 + v1 / 16, (v1 % 16) * 16 + v2 / 4, (v2 % 4) * 64 + v3]
  }

  /**
   * Canonical decoding: a sequence of four-character groups of the alphabet,
   * only the last of which may end in one or two `=`, and then with the bits
   * the padding leaves over set to zero (section 3.5 of RFC 4648).
   */
  function Decode(s: seq<byte>): (r: Option<seq<byte>>)
    decreases |s|
  {
    if |s| == 0 then Some([])
    else if |s| < 4 || Value(s[0]).None? || Value(s[1]).None? then None
    else
      var v0, v1 := Value(s[0]).value, Value(s[1]).value;
      if |s| == 4 && s[2] == Pad && s[3] == Pad then
        if v1 % 16 != 0 then None else Some(DecodeQuad(v0, v1, 0, 0)[..1])
      else if Value(s[2]).None? then None
      else
        var v2 := Value(s[2]).value;
        if |s| == 4 && s[3] == Pad then
          if v2 % 4 != 0 then None else Some(DecodeQuad(v0, v1, v2, 0)[..2])
        else if Value(s[3]).None? then None
        else
          match Decode(s[4..])
          case None => None
          case Some(rest) => Some(DecodeQuad(v0, v1, v2, Value(s[3]).value) + rest)
  }

  /** The arithmetic of one group: the four 6-bit values give back the three bytes. */
  lemma DecodeQuadOfGroup(b0: byte, b1: byte, b2: byte)
    ensures DecodeQuad(b0 / 4, (b0 % 4) * 16 + b1 / 16, (b1 % 16) * 4 + b2 / 64, b2 % 64) == [b0, b1, b2]
  {
  }

  /** A final group of one byte, written with two characters and `==`. */
  lemma DecodeEncodeOne(b0: byte)
    ensures Decode(Encode([b0])) == Some([b0])
  {
    var v0, v1 := b0 / 4, (b0 % 4) * 16;
    ValueOfLetter(v0);
    ValueOfLetter(v1);
    assert Encode([b0]) == [Letter(v0), Letter(v1), Pad, Pad];
    assert DecodeQuad(v0, v1, 0, 0)[..1] == [b0];
  }

  /** A final group of two bytes, written with three characters and `=`. */
  lemma DecodeEncodeTwo(b0: byte, b1: byte)
    ensures Decode(Encode([b0, b1])) == Some([b0, b1])
  {
    var v0, v1, v2 := b0 / 4, (b0 % 4) * 16 + b1 / 16, (b1 % 16) * 4;
    ValueOfLetter(v0);
    ValueOfLetter(v1);
    ValueOfLetter(v2);
    var s := Encode([b0, b1]);
    assert s == [Letter(v0), Letter(v1), Letter(v2), Pad];
    assert DecodeQuad(v0, v1, v2, 0)[..2] == [b0, b1];
  }

  /** A whole group decodes to its three bytes, whatever follows it. */
  lemma DecodeGroupThen(b0: byte, b1: byte, b2: byte, rest: seq<byte>)
    requires Decode(rest).Some?
    ensures Decode(EncodeGroup(b0, b1, b2) + rest) == Some([b0, b1, b2] + Decode(rest).value)
  {
    var s := EncodeGroup(b0, b1, b2) + rest;
    var v0, v1, v2, v3 := b0 / 4, (b0 % 4) * 16 + b1 / 16, (b1 % 16) * 4 + b2 / 64, b2 % 64;
    ValueOfLetter(v0);
    ValueOfLetter(v1);
    ValueOfLetter(v2);
    ValueOfLetter(v3);
    assert s[..4] == [Letter(v0), Letter(v1), Letter(v2), Letter(v3)];
    assert s[2] != Pad && s[3] != Pad;
    assert s[4..] == rest;
    DecodeQuadOfGroup(b0, b1, b2);
  }

  /** Decoding undoes encoding (section 4 of RFC 4648). */
  lemma {:induction false} DecodeEncode(data: seq<byte>)
    ensures Decode(Encode(data)) == Some(data)
    decreases |data|
  {
    if |data| == 1 {
      DecodeEncodeOne(data[0]);
      assert data == [data[0]];
    } else if |data| == 2 {
      DecodeEncodeTwo(data[0], data[1]);
      assert data == [data[0], data[1]];
    } else if |data| >= 3 {
      DecodeEncode(data[3..]);
      DecodeGroupThen(data[0], data[1], data[2], Encode(data[3..]));
      assert Encode(data) == EncodeGroup(data[0], data[1], data[2]) + Encode(data[3..]);
      assert data == [data[0], data[1], data[2]] + data[3..];
      assert data == data[..3] + data[3..];
    }
  }

  /** `Letter` writes back what `Value` reads. */
  lemma LetterOfValue(b: byte)
    requires IsLetter(b)
    ensures Letter(Value(b).value) == b
  {
  }

  /** The arithmetic of one group read backwards: three decoded bytes give back the four 6-bit values. */
  lemma GroupOfDecodeQuad(v0: int, v1: int, v2: int, v3: int)
    requires 0 <= v0 < 64 && 0 <= v1 < 64 && 0 <= v2 < 64 && 0 <= v3 < 64
    ensures var d := DecodeQuad(v0, v1, v2, v3);
      && d[0] / 4 == v0
      && (d[0] % 4) * 16 + d[1] / 16 == v1
      && (d[1] % 16) * 4 + d[2] / 64 == v2
      && d[2] % 64 == v3
  {
    var b0, b1, b2 := v0 * 4 + v1 / 16, (v1 % 16) * 16 + v2 / 4, (v2 % 4) * 64 + v3;
    assert b0 / 4 == v0 && b0 % 4 == v1 / 16;
    assert b1 / 16 == v1 % 16 && b1 % 16 == v2 / 4;
    assert b2 / 64 == v2 % 4 && b2 % 64 == v3;
  }

  /** A one-byte final group: `XY==` whose pad bits are zero is what that byte encodes to. */
  lemma EncodeDecodeOne(s: seq<byte>)
    requires |s| == 4 && s[2] == Pad && s[3] == Pad && IsLetter(s[0]) && IsLetter(s[1])
    requires Value(s[1]).value % 16 == 0
    ensures Encode(DecodeQuad(Value(s[0]).value, Value(s[1]).value, 0, 0)[..1]) == s
  {
    var v0, v1 := Value(s[0]).value, Value(s[1]).value;
    var d := DecodeQuad(v0, v1, 0, 0);
    GroupOfDecodeQuad(v0, v1, 0, 0);
    assert (d[0] % 4) * 16 == v1;
    LetterOfValue(s[0]);
    LetterOfValue(s[1]);
    assert Encode(d[..1]) == [Letter(d[0] / 4), Letter((d[0] % 4) * 16), Pad, Pad];
  }

  /** A two-byte final group: `XYZ=` whose pad bits are zero is what those bytes encode to. */
  lemma EncodeDecodeTwo(s: seq<byte>)
    requires |s| == 4 && s[3] == Pad && IsLetter(s[0]) && IsLetter(s[1]) && IsLetter(s[2])
    requires Value(s[2]).value % 4 == 0
    ensures Encode(DecodeQuad(Value(s[0]).value, Value(s[1]).value, Value(s[2]).value, 0)[..2]) == s
  {
    var v0, v1, v2 := Value(s[0]).value, Value(s[1]).value, Value(s[2]).value;
    var d := DecodeQuad(v0, v1, v2, 0);
    GroupOfDecodeQuad(v0, v1, v2, 0);
    assert (d[1] % 16) * 4 == v2;
    LetterOfValue(s[0]);
    LetterOfValue(s[1]);
    LetterOfValue(s[2]);
    assert Encode(d[..2]) == [Letter(d[0] / 4), Letter((d[0] % 4) * 16 + d[1] / 16), Letter((d[1] % 16) * 4), Pad];
  }

  /** A whole group followed by text that encodes `rest`: the group's bytes and `rest` encode to both. */
  lemma EncodeDecodeGroup(s: seq<byte>, rest: seq<byte>)
    requires |s| >= 4 && IsLetter(s[0]) && IsLetter(s[1]) && IsLetter(s[2]) && IsLetter(s[3])
    requires Encode(rest) == s[4..]
    ensures var q := DecodeQuad(Value(s[0]).value, Value(s[1]).value, Value(s[2]).value, Value(s[3]).value);
      Encode(q + rest) == s
  {
    var v0, v1, v2, v3 := Value(s[0]).value, Value(s[1]).value, Value(s[2]).value, Value(s[3]).value;
    var q := DecodeQuad(v0, v1, v2, v3);
    var d := q + rest;
    GroupOfDecodeQuad(v0, v1, v2, v3);
    LetterOfValue(s[0]);
    LetterOfValue(s[1]);
    LetterOfValue(s[2]);
    LetterOfValue(s[3]);
    assert d[..3] == q && d[3..] == rest;
    assert EncodeGroup(d[0], d[1], d[2]) == s[..4];
    assert Encode(d) == EncodeGroup(d[0], d[1], d[2]) + Encode(d[3..]);
    assert s == s[..4] + s[4..];
  }

  /**
   * Encoding undoes decoding: a text that decodes at all is the one encoding
   * of its bytes, so `Encode` is fixed character for character by `Decode`.
   */
  lemma {:induction false} EncodeDecode(s: seq<byte>, d: seq<byte>)
    requires Decode(s) == Some(d)
    ensures Encode(d) == s
    decreases |s|
  {
    if |s| > 0 {
      var v0, v1 := Value(s[0]).value, Value(s[1]).value;
      if |s| == 4 && s[2] == Pad && s[3] == Pad {
        EncodeDecodeOne(s);
      } else {
        var v2 := Value(s[2]).value;
        if |s| == 4 && s[3] == Pad {
          EncodeDecodeTwo(s);
        } else {
          var rest := Decode(s[4..]).value;
          EncodeDecode(s[4..], rest);
          EncodeDecodeGroup(s, rest);
        }
      }
    }
  }

  /** `encoded.translate(bytes.maketrans(b'+/', alt))`. */
  function Translate(enc: seq<byte>, alt: seq<byte>): (r: seq<byte>)
    requires |alt| == 2
    ensures |r| == |enc|
    ensures forall k :: 0 <= k < |enc| ==> r[k] == enc[k] || r[k] == alt[0] || r[k] == alt[1]
    ensures Plus !in alt && Slash !in alt ==> Plus !in r && Slash !in r
    ensures Plus !in enc && Slash !in enc ==> r == enc
  {
    seq(|enc|, k requires 0 <= k < |enc| =>
      if enc[k] == Plus then alt[0] else if enc[k] == Slash then alt[1] else enc[k])
  }

  /**
   * `base64.b64encode(data, alt)`. Python asserts that `alt` has two bytes.
   * Each character is a letter, a digit, one of the alternates, or padding, and
   * the characters of the whole groups are never padding.
   */
  function EncodeAlt(data: seq<byte>, alt: seq<byte>): (r: seq<byte>)
    requires |alt| == 2
    ensures |r| == 4 * ((|data| + 2) / 3)
    ensures forall k :: 0 <= k < |r| ==> IsAlnum(r[k]) || r[k] == alt[0] || r[k] == alt[1] || r[k] == Pad
    ensures forall k :: 0 <= k < 4 * (|data| / 3) ==> IsAlnum(r[k]) || r[k] == alt[0] || r[k] == alt[1]
  {
    Translate(Encode(data), alt)
  }

  /**
   * `s.translate(bytes.maketrans(alt, b'+/'))`, the step `b64decode` takes
   * before decoding text written with alternates. A later entry of
   * `maketrans` overrides an earlier one, so `alt[1]` is looked at first.
   */
  function Untranslate(enc: seq<byte>, alt: seq<byte>): seq<byte>
    requires |alt| == 2
  {
    seq(|enc|, k requires 0 <= k < |enc| =>
      if enc[k] == alt[1] then Slash else if enc[k] == alt[0] then Plus else enc[k])
  }

  /** Two distinct alternates that are neither letters, digits nor `=`, such as `-_`. */
  predicate DistinctAlternates(alt: seq<byte>)
  {
    |alt| == 2 && alt[0] != alt[1]
    && !IsAlnum(alt[0]) && alt[0] != Pad && !IsAlnum(alt[1]) && alt[1] != Pad
  }

  /** With distinct alternates outside the alphabet, translating back restores standard Base64 text. */
  lemma UntranslateTranslate(enc: seq<byte>, alt: seq<byte>)
    requires DistinctAlternates(alt)
    requires forall k :: 0 <= k < |enc| ==> IsLetter(enc[k]) || enc[k] == Pad
    ensures Untranslate(Translate(enc, alt), alt) == enc
  {
  }

  /**
   * `b64decode(b64encode(data, alt), alt) == data` for distinct alternates
   * outside the alphabet. With `Encode` fixed by `EncodeDecode`, this fixes
   * `EncodeAlt`, character for character, as the translation of `Encode`.
   */
  lemma DecodeEncodeAlt(data: seq<byte>, alt: seq<byte>)
    requires DistinctAlternates(alt)
    ensures Decode(Untranslate(EncodeAlt(data, alt), alt)) == Some(data)
  {
    UntranslateTranslate(Encode(data), alt);
    DecodeEncode(data);
  }
}
