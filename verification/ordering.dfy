/** Python's ordering of `str` values (lexicographic by code point, a proper
    prefix coming first) and `list.sort()` on a list of strings. Since equal
    strings are indistinguishable, a sorted permutation of a list is unique,
    so any correct sort gives the same list as Python's. */
module Ordering {

  /** `a <= b` on Python strings. */
  predicate LexLe(a: string, b: string) {
    if |a| == 0 then true
    else if |b| == 0 then false
    else a[0] < b[0] || (a[0] == b[0] && LexLe(a[1..], b[1..]))
  }

  lemma {:induction false} LexLeReflexive(a: string)
    ensures LexLe(a, a)
  {
    if |a| > 0 {
      LexLeReflexive(a[1..]);
    }
  }

  lemma {:induction false} LexLeTotal(a: string, b: string)
    ensures LexLe(a, b) || LexLe(b, a)
  {
    if |a| > 0 && |b| > 0 && a[0] == b[0] {
      LexLeTotal(a[1..], b[1..]);
    }
  }

  lemma {:induction false} LexLeAntisymmetric(a: string, b: string)
    requires LexLe(a, b) && LexLe(b, a)
    ensures a == b
  {
    if |a| > 0 && |b| > 0 {
      LexLeAntisymmetric(a[1..], b[1..]);
      assert a == [a[0]] + a[1..];
      assert b == [b[0]] + b[1..];
    }
  }

  lemma {:induction false} LexLeTransitive(a: string, b: string, c: string)
    requires LexLe(a, b) && LexLe(b, c)
    ensures LexLe(a, c)
  {
    if |a| > 0 && |b| > 0 && |c| > 0 && a[0] == b[0] && b[0] == c[0] {
      LexLeTransitive(a[1..], b[1..], c[1..]);
    }
  }

  /** Non-decreasing under Python's string order, pair by pair. */
  predicate Sorted(s: seq<string>) {
    forall i, j :: 0 <= i < j < |s| ==> LexLe(s[i], s[j])
  }

  /** Two strings in order form a sorted list. */
  lemma SortedPair(a: string, b: string)
    requires LexLe(a, b)
    ensures Sorted([a, b])
  {
  }

  /** The head of a sorted list is at most every element of the list. */
  lemma HeadIsLeast(s: seq<string>)
    requires Sorted(s) && |s| > 0
    ensures forall y :: y in s ==> LexLe(s[0], y)
  {
    LexLeReflexive(s[0]);
  }

  /** Putting an element that is at most every element in front of a sorted
      list keeps it sorted. */
  lemma PrependLeast(x: string, s: seq<string>)
    requires Sorted(s)
    requires forall y :: y in s ==> LexLe(x, y)
    ensures Sorted([x] + s)
  {
    var r := [x] + s;
    forall i, j | 0 <= i < j < |r|
      ensures LexLe(r[i], r[j])
    {
      if i == 0 {
        assert r[j] == s[j - 1];
      } else {
        assert r[i] == s[i - 1] && r[j] == s[j - 1];
      }
    }
  }

  /** Inserts `x` into a sorted list at its place. */
  function Insert(x: string, s: seq<string>): (r: seq<string>)
    requires Sorted(s)
    ensures Sorted(r)
    ensures multiset(r) == multiset(s) + multiset{x}
  {
    if |s| == 0 then [x]
    else if LexLe(x, s[0]) then
      HeadIsLeast(s);
      assert forall y :: y in s ==> LexLe(x, y) by {
        forall y | y in s
          ensures LexLe(x, y)
        {
          LexLeTransitive(x, s[0], y);
        }
      }
      PrependLeast(x, s);
      [x] + s
    else
      assert s == [s[0]] + s[1..];
      var rest := Insert(x, s[1..]);
      LexLeTotal(x, s[0]);
      HeadIsLeast(s);
      assert forall y :: y in rest ==> LexLe(s[0], y) by {
        forall y | y in rest
          ensures LexLe(s[0], y)
        {
          assert y in multiset(rest);
        }
      }
      PrependLeast(s[0], rest);
      [s[0]] + rest
  }

  /** Python's `list.sort()` on strings: a sorted permutation of the input. */
  function Sort(s: seq<string>): (r: seq<string>)
    ensures Sorted(r)
    ensures multiset(r) == multiset(s)
  {
    if |s| == 0 then []
    else
      assert s == [s[0]] + s[1..];
      Insert(s[0], Sort(s[1..]))
  }

  /** Two sorted lists holding the same strings are the same list. */
  lemma {:induction false} SortedUnique(a: seq<string>, b: seq<string>)
    requires Sorted(a) && Sorted(b)
    requires multiset(a) == multiset(b)
    ensures a == b
  {
    if |a| == 0 {
      assert |multiset(b)| == 0;
    } else {
      assert |b| == |multiset(b)| == |a|;
      assert a[0] in multiset(b) && b[0] in multiset(a);
      HeadIsLeast(a);
      HeadIsLeast(b);
      LexLeAntisymmetric(a[0], b[0]);
      assert a == [a[0]] + a[1..];
      assert b == [b[0]] + b[1..];
      assert multiset(a) == multiset{a[0]} + multiset(a[1..]);
      assert multiset(b) == multiset{a[0]} + multiset(b[1..]);
      assert multiset(a[1..]) == multiset(a) - multiset{a[0]};
      assert multiset(b[1..]) == multiset(b) - multiset{a[0]};
      SortedUnique(a[1..], b[1..]);
    }
  }

  /** A sorted list holding the same strings as two strings in order is
      those two strings in that order. */
  lemma SortedTwo(names: seq<string>, a: string, b: string)
    requires Sorted(names)
    requires multiset(names) == multiset{a, b}
    requires LexLe(a, b)
    ensures names == [a, b]
  {
    SortedPair(a, b);
    assert multiset([a, b]) == multiset{a, b};
    SortedUnique(names, [a, b]);
  }

  /** A sorted list of two given strings puts the smaller one first. */
  lemma SortedTwoEither(names: seq<string>, a: string, b: string)
    requires Sorted(names)
    requires multiset(names) == multiset{a, b}
    ensures names == if LexLe(a, b) then [a, b] else [b, a]
  {
    if LexLe(a, b) {
      SortedTwo(names, a, b);
    } else {
      LexLeTotal(a, b);
      assert multiset{a, b} == multiset{b, a};
      SortedTwo(names, b, a);
    }
  }

  /** Sorting depends only on which strings the list holds, not their order. */
  lemma SortIgnoresOrder(a: seq<string>, b: seq<string>)
    requires multiset(a) == multiset(b)
    ensures Sort(a) == Sort(b)
  {
    SortedUnique(Sort(a), Sort(b));
  }
}
