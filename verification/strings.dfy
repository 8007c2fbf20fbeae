/** The few Python `str` methods the client uses: `split`, `join` and `replace`. */
module Strings {

  /** Position of the first occurrence of `c` in `s`, as `s.index(c)`. */
  function IndexOf(s: string, c: char): (i: nat)
    requires c in s
    ensures i < |s| && s[i] == c && c !in s[..i]
  {
    if s[0] == c then 0
    else
      var j := IndexOf(s[1..], c);
      assert s[..j + 1] == [s[0]] + s[1..][..j];
      j + 1
  }

  /** Any position holding the first `c` is the one `IndexOf` finds. */
  lemma IndexOfUnique(s: string, c: char, k: nat)
    requires k < |s| && s[k] == c && c !in s[..k]
    ensures c in s && IndexOf(s, c) == k
  {
    var i := IndexOf(s, c);
    assert forall j :: 0 <= j < k ==> s[..k][j] == s[j];
    assert forall j :: 0 <= j < i ==> s[..i][j] == s[j];
  }

  /** `s.split(sep)` for a one-character separator: the pieces between separators, never none. */
  function Split(s: string, sep: char): (r: seq<string>)
    ensures |r| >= 1
    ensures forall k :: 0 <= k < |r| ==> sep !in r[k]
    decreases |s|
  {
    if sep !in s then [s]
    else
      var i := IndexOf(s, sep);
      assert s == s[..i] + [sep] + s[i + 1..];
      [s[..i]] + Split(s[i + 1..], sep)
  }

  /** `sep.join(parts)` for a one-character separator: the general join with that one character. */
  function Join(parts: seq<string>, sep: char): (r: string)
    ensures r == JoinWith(parts, [sep])
  {
    if |parts| == 0 then ""
    else if |parts| == 1 then parts[0]
    else parts[0] + [sep] + Join(parts[1..], sep)
  }

  /** A text with its first separator after `head` splits into `head` and the split of the rest. */
  lemma SplitAt(head: string, sep: char, tail: string)
    requires sep !in head
    ensures Split(head + [sep] + tail, sep) == [head] + Split(tail, sep)
  {
    var s := head + [sep] + tail;
    assert s[..|head|] == head;
    IndexOfUnique(s, sep, |head|);
    assert s[|head| + 1..] == tail;
  }

  /** Joining the pieces of a split gives back the text. */
  lemma {:induction false} JoinSplit(s: string, sep: char)
    ensures Join(Split(s, sep), sep) == s
    decreases |s|
  {
    if sep in s {
      var i := IndexOf(s, sep);
      var rest := Split(s[i + 1..], sep);
      assert Split(s, sep) == [s[..i]] + rest;
      assert ([s[..i]] + rest)[1..] == rest;
      JoinSplit(s[i + 1..], sep);
      assert s == s[..i] + [sep] + s[i + 1..];
    }
  }

  /** Splitting a join gives back the parts, provided none holds the separator. */
  lemma {:induction false} SplitJoin(parts: seq<string>, sep: char)
    requires |parts| >= 1
    requires forall k :: 0 <= k < |parts| ==> sep !in parts[k]
    ensures Split(Join(parts, sep), sep) == parts
    decreases |parts|
  {
    if |parts| > 1 {
      var p0 := parts[0];
      var tail := Join(parts[1..], sep);
      var s := p0 + [sep] + tail;
      assert Join(parts, sep) == s;
      SplitAt(p0, sep, tail);
      SplitJoin(parts[1..], sep);
      assert parts == [p0] + parts[1..];
    }
  }

  /** The characters of all the parts together. */
  function TotalLength(parts: seq<string>): nat
  {
    if |parts| == 0 then 0 else |parts[0]| + TotalLength(parts[1..])
  }

  /** `sep.join(parts)` for a separator of any length: every part, and one separator between neighbours. */
  function JoinWith(parts: seq<string>, sep: string): (r: string)
    ensures |parts| >= 1 ==> |r| == TotalLength(parts) + (|parts| - 1) * |sep|
    ensures |parts| >= 1 ==> r[..|parts[0]|] == parts[0]
  {
    if |parts| == 0 then ""
    else if |parts| == 1 then parts[0]
    else parts[0] + sep + JoinWith(parts[1..], sep)
  }

  /** `s.split(sep, 1)`: the text before and after the first separator, or the text alone. */
  function SplitOnce(s: string, sep: char): (r: seq<string>)
    ensures |r| == 1 || |r| == 2
    ensures |r| == 2 <==> sep in s
    ensures sep !in r[0]
    ensures Join(r, sep) == s
  {
    if sep !in s then [s]
    else
      var i := IndexOf(s, sep);
      assert s == s[..i] + [sep] + s[i + 1..];
      [s[..i], s[i + 1..]]
  }

  /** `pat` occurs in `s` at position `k`. */
  predicate OccursAt(s: string, pat: string, k: int)
  {
    0 <= k && k + |pat| <= |s| && s[k..k + |pat|] == pat
  }

  /** `s.replace(pat, rep)`: every leftmost, non-overlapping occurrence of `pat` replaced. */
  function Replace(s: string, pat: string, rep: string): (r: string)
    requires |pat| > 0
    ensures (forall k :: !OccursAt(s, pat, k)) ==> r == s
    decreases |s|
  {
    if |s| < |pat| then s
    else if s[..|pat|] == pat then
      assert OccursAt(s, pat, 0);
      rep + Replace(s[|pat|..], pat, rep)
    else
      var rest := Replace(s[1..], pat, rep);
      assert forall k :: OccursAt(s[1..], pat, k) ==> OccursAt(s, pat, k + 1);
      assert s == [s[0]] + s[1..];
      [s[0]] + rest
  }

  /** A character other than the one-character pattern is kept in front of the rest. */
  lemma ReplaceSkip(x: char, rest: string, c: char, rep: string)
    requires x != c
    ensures Replace([x] + rest, [c], rep) == [x] + Replace(rest, [c], rep)
  {
    var s := [x] + rest;
    assert s[..1] != [c] by { assert s[..1][0] == x; }
    assert s[1..] == rest;
  }

  /** Text free of the one-character pattern passes through a replacement in front of the rest. */
  lemma {:induction false} ReplaceKeepsHead(head: string, c: char, tail: string, rep: string)
    requires c !in head
    ensures Replace(head + tail, [c], rep) == head + Replace(tail, [c], rep)
    decreases |head|
  {
    if |head| == 0 {
      assert head + tail == tail;
    } else {
      var x := head[0];
      var more := head[1..];
      var r := Replace(tail, [c], rep);
      assert head == [x] + more;
      calc {
        Replace(head + tail, [c], rep);
        { assert head + tail == [x] + (more + tail); }
        Replace([x] + (more + tail), [c], rep);
        { ReplaceSkip(x, more + tail, c, rep); }
        [x] + Replace(more + tail, [c], rep);
        { ReplaceKeepsHead(more, c, tail, rep); }
        [x] + (more + r);
        head + r;
      }
    }
  }

  /** A leading occurrence of the one-character pattern becomes `rep`. */
  lemma ReplaceAtHead(c: char, tail: string, rep: string)
    ensures Replace([c] + tail, [c], rep) == rep + Replace(tail, [c], rep)
  {
    var s := [c] + tail;
    assert s[..1] == [c];
    assert s[1..] == tail;
  }

  /** Text free of the one-character pattern is left as it is. */
  lemma ReplaceAbsent(s: string, c: char, rep: string)
    requires c !in s
    ensures Replace(s, [c], rep) == s
  {
  }

  /**
   * For a one-character pattern, `s.replace(c, rep)` is `rep.join(s.split(c))`:
   * every occurrence of `c`, and nothing else, is exchanged for `rep`.
   */
  lemma {:induction false} ReplaceIsSplitJoin(s: string, c: char, rep: string)
    ensures Replace(s, [c], rep) == JoinWith(Split(s, c), rep)
    decreases |s|
  {
    if c !in s {
      ReplaceAbsent(s, c, rep);
    } else {
      var i := IndexOf(s, c);
      var head := s[..i];
      var tail := s[i + 1..];
      var rest := Split(tail, c);
      assert s == head + [c] + tail;
      SplitAt(head, c, tail);
      calc {
        Replace(s, [c], rep);
        { assert s == head + ([c] + tail); }
        Replace(head + ([c] + tail), [c], rep);
        { ReplaceKeepsHead(head, c, [c] + tail, rep); }
        head + Replace([c] + tail, [c], rep);
        { ReplaceAtHead(c, tail, rep); }
        head + (rep + Replace(tail, [c], rep));
        { ReplaceIsSplitJoin(tail, c, rep); }
        head + (rep + JoinWith(rest, rep));
        { assert ([head] + rest)[1..] == rest; }
        JoinWith([head] + rest, rep);
      }
    }
  }
}
