/**
 * The search `re.compile(r'status=([A-Z0-9_]+)').findall(text)[0]`: the
 * token after the leftmost `status=` that is followed by at least one
 * token character, taken greedily.
 */
module Status {
  import opened Common

  const Key: string := "status="

  /** The character class `[A-Z0-9_]`. */
  predicate IsTokenChar(c: char)
  {
    'A' <= c <= 'Z' || '0' <= c <= '9' || c == '_'
  }

  /** The pattern matches at position `i`: `status=` and then at least one token character. */
  predicate MatchesAt(s: string, i: int)
  {
    0 <= i && i + |Key| < |s| && s[i..i + |Key|] == Key && IsTokenChar(s[i + |Key|])
  }

  /** `i` is the leftmost position where the pattern matches. */
  predicate IsLeftmost(s: string, i: int)
  {
    MatchesAt(s, i) && forall k :: 0 <= k < i ==> !MatchesAt(s, k)
  }

  /** The longest run of token characters starting at `j`, what the greedy `+` captures. */
  function Token(s: string, j: nat): (r: string)
    requires j <= |s|
    ensures j + |r| <= |s| && r == s[j..j + |r|]
    ensures forall k :: 0 <= k < |r| ==> IsTokenChar(r[k])
    ensures j + |r| == |s| || !IsTokenChar(s[j + |r|])
    decreases |s| - j
  {
    if j < |s| && IsTokenChar(s[j]) then [s[j]] + Token(s, j + 1) else []
  }

  /** A run of token characters that cannot be extended is the token: greedy capture is unique. */
  lemma {:induction false} TokenIsMaximalRun(s: string, j: nat, t: string)
    requires j + |t| <= |s| && s[j..j + |t|] == t
    requires forall k :: 0 <= k < |t| ==> IsTokenChar(t[k])
    requires j + |t| == |s| || !IsTokenChar(s[j + |t|])
    ensures Token(s, j) == t
    decreases |t|
  {
    if |t| > 0 {
      assert s[j] == t[0];
      assert s[j + 1..j + 1 + |t[1..]|] == t[1..];
      TokenIsMaximalRun(s, j + 1, t[1..]);
      assert t == [t[0]] + t[1..];
    }
  }

  /** The leftmost match at or after `i`, scanning forward as the regular-expression engine does. */
  function FirstMatchFrom(s: string, i: nat): (r: Option<nat>)
    requires i <= |s|
    ensures r.Some? ==> i <= r.value && MatchesAt(s, r.value)
    ensures r.Some? ==> forall k :: i <= k < r.value ==> !MatchesAt(s, k)
    ensures r.None? ==> forall k :: i <= k ==> !MatchesAt(s, k)
    decreases |s| - i
  {
    if i == |s| then None
    else if MatchesAt(s, i) then Some(i)
    else FirstMatchFrom(s, i + 1)
  }

  /**
   * Lines 62-64 of the client: the first capture, or None when the pattern
   * matches nowhere. The capture is the token at the leftmost match.
   */
  function Find(s: string): (r: Option<string>)
    ensures r.None? <==> forall k :: !MatchesAt(s, k)
    ensures forall k :: IsLeftmost(s, k) ==> r == Some(Token(s, k + |Key|))
    ensures r.Some? ==> |r.value| > 0 && forall k :: 0 <= k < |r.value| ==> IsTokenChar(r.value[k])
  {
    match FirstMatchFrom(s, 0)
    case None => None
    case Some(i) =>
      assert IsLeftmost(s, i);
      Some(Token(s, i + |Key|))
  }

  /** The token at `j` is exactly `OK` when `OK` stands there and no token character follows it. */
  lemma TokenIsOk(s: string, j: nat)
    requires j <= |s|
    ensures Token(s, j) == "OK" <==> j + 2 <= |s| && s[j..j + 2] == "OK" && (j + 2 == |s| || !IsTokenChar(s[j + 2]))
  {
    if j + 2 <= |s| && s[j..j + 2] == "OK" && (j + 2 == |s| || !IsTokenChar(s[j + 2])) {
      TokenIsMaximalRun(s, j, "OK");
    }
  }

  /** The leftmost match reads `status=OK`, with no token character after `OK`. */
  predicate LeftmostIsOk(s: string, k: int)
  {
    IsLeftmost(s, k) && k + 9 <= |s| && s[k + 7..k + 9] == "OK" && (k + 9 == |s| || !IsTokenChar(s[k + 9]))
  }

  /**
   * The status is exactly `OK` if and only if the leftmost match reads
   * `status=OK` and the character after `OK`, if any, is not a token character.
   */
  lemma FindIsOk(s: string)
    ensures Find(s) == Some("OK") <==> exists k :: LeftmostIsOk(s, k)
  {
    if Find(s) == Some("OK") {
      var i := FirstMatchFrom(s, 0).value;
      assert IsLeftmost(s, i);
      TokenIsOk(s, i + 7);
      assert LeftmostIsOk(s, i);
    }
    forall k | LeftmostIsOk(s, k)
      ensures Find(s) == Some("OK")
    {
      TokenIsOk(s, k + 7);
    }
  }

  /** Greedy capture: `status=OKAY` yields `OKAY`, never `OK`. */
  lemma GreedyCapture()
    ensures Find("status=OKAY") == Some("OKAY")
  {
    var s := "status=OKAY";
    assert IsLeftmost(s, 0);
    assert |s| == 11 && s[7..11] == "OKAY";
    TokenIsMaximalRun(s, 7, "OKAY");
  }

  /** A `status=` not followed by a token character is skipped in favour of a later one. */
  lemma SkipsUnqualified()
    ensures Find("status=ok\nstatus=BAD_OTP") == Some("BAD_OTP")
  {
    var s := "status=ok\nstatus=BAD_OTP";
    assert MatchesAt(s, 10);
    assert forall k :: 0 <= k < 10 ==> !MatchesAt(s, k);
    assert IsLeftmost(s, 10);
    assert |s| == 24 && s[17..24] == "BAD_OTP";
    TokenIsMaximalRun(s, 17, "BAD_OTP");
  }

  /** With no qualifying `status=`, there is no status. */
  lemma NoStatus()
    ensures Find("status=") == None
    ensures Find("") == None
  {
  }

  /** A reply whose status line reads `status=OK` yields `OK`. */
  lemma OkReply()
    ensures Find("t=1\r\nstatus=OK\r\n") == Some("OK")
  {
    var s := "t=1\r\nstatus=OK\r\n";
    assert MatchesAt(s, 5);
    assert forall k :: 0 <= k < 5 ==> !MatchesAt(s, k);
    assert IsLeftmost(s, 5);
    assert s[12..14] == "OK" && !IsTokenChar(s[14]);
    TokenIsMaximalRun(s, 12, "OK");
  }

  /** `status=BAD_OTP` yields `BAD_OTP`. */
  lemma BadOtpReply()
    ensures Find("status=BAD_OTP") == Some("BAD_OTP")
  {
    var s := "status=BAD_OTP";
    assert IsLeftmost(s, 0);
    assert |s| == 14 && s[7..14] == "BAD_OTP";
    TokenIsMaximalRun(s, 7, "BAD_OTP");
  }
}
