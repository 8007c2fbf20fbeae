/**
 * Python's `<` on `str` (code point by code point, a proper prefix first) and
 * on lists of `str` (element by element, a proper prefix first), and
 * `sorted` on lists of such lists.
 */
module Ordering {

  /** `a < b` on Python strings. */
  predicate StrLess(a: string, b: string)
  {
    if |a| == 0 then |b| > 0
    else if |b| == 0 then false
    else if a[0] != b[0] then a[0] < b[0]
    else StrLess(a[1..], b[1..])
  }

  lemma {:induction false} StrLessIrreflexive(a: string)
    ensures !StrLess(a, a)
    decreases |a|
  {
    if |a| > 0 {
      StrLessIrreflexive(a[1..]);
    }
  }

  lemma {:induction false} StrLessTransitive(a: string, b: string, c: string)
    requires StrLess(a, b) && StrLess(b, c)
    ensures StrLess(a, c)
    decreases |a|
  {
    if |a| > 0 && a[0] == b[0] && b[0] == c[0] {
      StrLessTransitive(a[1..], b[1..], c[1..]);
    }
  }

  lemma {:induction false} StrLessTotal(a: string, b: string)
    ensures a == b || StrLess(a, b) || StrLess(b, a)
    decreases |a|
  {
    if |a| > 0 && |b| > 0 && a[0] == b[0] {
      StrLessTotal(a[1..], b[1..]);
      if a[1..] == b[1..] {
        assert a == [a[0]] + a[1..] && b == [b[0]] + b[1..];
      }
    }
  }

  lemma {:induction false} StrLessAsymmetric(a: string, b: string)
    requires StrLess(a, b)
    ensures !StrLess(b, a)
  {
    if StrLess(b, a) {
      StrLessTransitive(a, b, a);
      StrLessIrreflexive(a);
    }
  }

  /** `a < b` on Python lists of strings. */
  predicate ListLess(a: seq<string>, b: seq<string>)
  {
    if |a| == 0 then |b| > 0
    else if |b| == 0 then false
    else if a[0] != b[0] then StrLess(a[0], b[0])
    else ListLess(a[1..], b[1..])
  }

  /** `a <= b` on Python lists of strings. */
  predicate ListLessEq(a: seq<string>, b: seq<string>)
  {
    a == b || ListLess(a, b)
  }

  lemma {:induction false} ListLessIrreflexive(a: seq<string>)
    ensures !ListLess(a, a)
    decreases |a|
  {
    if |a| > 0 {
      ListLessIrreflexive(a[1..]);
    }
  }

  lemma {:induction false} ListLessTransitive(a: seq<string>, b: seq<string>, c: seq<string>)
    requires ListLess(a, b) && ListLess(b, c)
    ensures ListLess(a, c)
    decreases |a|
  {
    if |a| > 0 && |c| > 0 {
      if a[0] == b[0] && b[0] == c[0] {
        ListLessTransitive(a[1..], b[1..], c[1..]);
      } else if a[0] != b[0] && b[0] != c[0] {
        StrLessTransitive(a[0], b[0], c[0]);
        if a[0] == c[0] {
          StrLessAsymmetric(a[0], b[0]);
        }
      }
    }
  }

  lemma {:induction false} ListLessTotal(a: seq<string>, b: seq<string>)
    ensures a == b || ListLess(a, b) || ListLess(b, a)
    decreases |a|
  {
    if |a| > 0 && |b| > 0 {
      if a[0] == b[0] {
        ListLessTotal(a[1..], b[1..]);
        if a[1..] == b[1..] {
          assert a == [a[0]] + a[1..] && b == [b[0]] + b[1..];
        }
      } else {
        StrLessTotal(a[0], b[0]);
      }
    }
  }

  lemma ListLessEqTransitive(a: seq<string>, b: seq<string>, c: seq<string>)
    requires ListLessEq(a, b) && ListLessEq(b, c)
    ensures ListLessEq(a, c)
  {
    if a != b && b != c {
      ListLessTransitive(a, b, c);
    }
  }

  /** `<=` on lists is antisymmetric, so two lists each at most the other are the same list. */
  lemma ListLessEqAntisymmetric(a: seq<string>, b: seq<string>)
    requires ListLessEq(a, b) && ListLessEq(b, a)
    ensures a == b
  {
    if a != b {
      ListLessTransitive(a, b, a);
      ListLessIrreflexive(a);
    }
  }

  /** Two `[key, value]` pairs compare by key, and by value when the keys are equal. */
  lemma PairLess(k1: string, v1: string, k2: string, v2: string)
    ensures ListLess([k1, v1], [k2, v2]) <==> StrLess(k1, k2) || (k1 == k2 && StrLess(v1, v2))
  {
    var a, b := [k1, v1], [k2, v2];
    if k1 == k2 {
      assert a[1..] == [v1] && b[1..] == [v2];
      assert ListLess(a, b) == ListLess([v1], [v2]);
      StrLessIrreflexive(k1);
      if v1 == v2 {
        ListLessIrreflexive([v1]);
        StrLessIrreflexive(v1);
      } else {
        assert ListLess([v1], [v2]) == StrLess(v1, v2);
      }
    }
  }

  /** Ascending order under Python's list comparison. */
  predicate Sorted(xs: seq<seq<string>>)
  {
    forall i, j :: 0 <= i < j < |xs| ==> ListLessEq(xs[i], xs[j])
  }

  /** `y` is at most every element of `xs`. */
  predicate LowerBound(y: seq<string>, xs: seq<seq<string>>)
  {
    forall j :: 0 <= j < |xs| ==> ListLessEq(y, xs[j])
  }

  /** A lower bound depends only on the elements, not on their order. */
  lemma LowerBoundOfPermutation(y: seq<string>, xs: seq<seq<string>>, ys: seq<seq<string>>)
    requires LowerBound(y, xs)
    requires multiset(ys) <= multiset(xs)
    ensures LowerBound(y, ys)
  {
    forall j | 0 <= j < |ys|
      ensures ListLessEq(y, ys[j])
    {
      assert ys[j] in multiset(xs);
    }
  }

  lemma SortedCons(y: seq<string>, xs: seq<seq<string>>)
    requires Sorted(xs) && LowerBound(y, xs)
    ensures Sorted([y] + xs)
  {
  }

  /** `x` placed before the first element it is at most; the rest keep their order. */
  function Insert(x: seq<string>, xs: seq<seq<string>>): (r: seq<seq<string>>)
    requires Sorted(xs)
    ensures Sorted(r)
    ensures multiset(r) == multiset(xs) + multiset{x}
    decreases |xs|
  {
    if |xs| == 0 then [x]
    else if ListLessEq(x, xs[0]) then
      GoesFirst(x, xs);
      [x] + xs
    else
      SortedTail(xs);
      var rest := Insert(x, xs[1..]);
      HeadStaysFirst(x, xs, rest);
      [xs[0]] + rest
  }

  /** A list at most the head of a sorted list can go in front of it. */
  lemma GoesFirst(x: seq<string>, xs: seq<seq<string>>)
    requires Sorted(xs) && |xs| > 0 && ListLessEq(x, xs[0])
    ensures Sorted([x] + xs)
  {
    forall j | 0 <= j < |xs|
      ensures ListLessEq(x, xs[j])
    {
      ListLessEqTransitive(x, xs[0], xs[j]);
    }
    SortedCons(x, xs);
  }

  /** A head below the inserted list stays in front of the insertion into the tail. */
  lemma HeadStaysFirst(x: seq<string>, xs: seq<seq<string>>, rest: seq<seq<string>>)
    requires Sorted(xs) && |xs| > 0 && !ListLessEq(x, xs[0])
    requires Sorted(rest) && multiset(rest) == multiset(xs[1..]) + multiset{x}
    ensures Sorted([xs[0]] + rest)
    ensures multiset([xs[0]] + rest) == multiset(xs) + multiset{x}
  {
    var y, tail := xs[0], xs[1..];
    ListLessTotal(x, y);
    assert xs == [y] + tail;
    assert LowerBound(y, tail + [x]);
    assert multiset(tail + [x]) == multiset(rest);
    LowerBoundOfPermutation(y, tail + [x], rest);
    SortedCons(y, rest);
  }

  /** `sorted(xs)`: the same lists, in ascending order. */
  function Sort(xs: seq<seq<string>>): (r: seq<seq<string>>)
    ensures Sorted(r)
    ensures multiset(r) == multiset(xs)
  {
    if |xs| == 0 then []
    else
      assert xs == [xs[0]] + xs[1..];
      Insert(xs[0], Sort(xs[1..]))
  }

  /** The head of an ascending list is at most every one of its elements. */
  lemma SortedHeadIsLeast(a: seq<seq<string>>, y: seq<string>)
    requires Sorted(a) && y in multiset(a)
    ensures ListLessEq(a[0], y)
  {
    var i :| 0 <= i < |a| && a[i] == y;
  }

  /** There is only one ascending arrangement of a collection of lists. */
  lemma {:induction false} SortedUnique(a: seq<seq<string>>, b: seq<seq<string>>)
    requires Sorted(a) && Sorted(b)
    requires multiset(a) == multiset(b)
    ensures a == b
    decreases |a|
  {
    if |a| > 0 {
      assert |b| == |multiset(b)| == |multiset(a)| == |a|;
      assert a[0] in multiset(a) && b[0] in multiset(b);
      SortedHeadIsLeast(a, b[0]);
      SortedHeadIsLeast(b, a[0]);
      ListLessEqAntisymmetric(a[0], b[0]);
      SortedTail(a);
      SortedTail(b);
      SortedUnique(a[1..], b[1..]);
      assert a == [a[0]] + a[1..] && b == [b[0]] + b[1..];
    }
  }

  /** Dropping the head keeps a list sorted and takes the head out of its multiset. */
  lemma SortedTail(a: seq<seq<string>>)
    requires Sorted(a) && |a| > 0
    ensures Sorted(a[1..])
    ensures multiset(a[1..]) == multiset(a) - multiset{a[0]}
  {
    assert a == [a[0]] + a[1..];
  }

  /** `sorted` depends only on which lists there are, never on their order. */
  lemma SortIgnoresOrder(xs: seq<seq<string>>, ys: seq<seq<string>>)
    requires multiset(xs) == multiset(ys)
    ensures Sort(xs) == Sort(ys)
  {
    SortedUnique(Sort(xs), Sort(ys));
  }
}
