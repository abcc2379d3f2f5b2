/** The string operations that the symptom-header parsing and the disease-name
    presentation rely on, with the behaviour of Python's `str` methods:
    `strip()`, `split(sep)`, `replace(old, new)` for single characters, and
    `title()` restricted to ASCII letters. */
module Text {

  /** Python's `str.isspace()`: the ASCII controls TAB..CR and FS..US, the
      space, and the Unicode space and separator characters. */
  predicate IsSpace(c: char) {
    || c == ' '
    || ('\t' <= c <= '\r')
    || ('\U{1C}' <= c <= '\U{1F}')
    || c == '\U{85}' || c == '\U{A0}' || c == '\U{1680}'
    || ('\U{2000}' <= c <= '\U{200A}')
    || c == '\U{2028}' || c == '\U{2029}' || c == '\U{202F}'
    || c == '\U{205F}' || c == '\U{3000}'
  }

  // ---------------------------------------------------------------------
  // strip()
  // ---------------------------------------------------------------------

  /** Number of whitespace characters at the front of `s`. */
  function LeadingSpace(s: string): (n: nat)
    ensures n <= |s|
    ensures forall k :: 0 <= k < n ==> IsSpace(s[k])
    ensures n == |s| || !IsSpace(s[n])
  {
    if |s| > 0 && IsSpace(s[0]) then 1 + LeadingSpace(s[1..]) else 0
  }

  /** Number of whitespace characters at the back of `s`. */
  function TrailingSpace(s: string): (n: nat)
    ensures n <= |s|
    ensures forall k :: |s| - n <= k < |s| ==> IsSpace(s[k])
    ensures n == |s| || !IsSpace(s[|s| - n - 1])
  {
    if |s| > 0 && IsSpace(s[|s| - 1]) then 1 + TrailingSpace(s[..|s| - 1]) else 0
  }

  /** Python's `s.strip()`: the longest slice of `s` that neither starts nor
      ends with whitespace, everything cut off being whitespace. */
  function Strip(s: string): (r: string)
    ensures |r| == 0 || (!IsSpace(r[0]) && !IsSpace(r[|r| - 1]))
    ensures exists i, j :: 0 <= i <= j <= |s| && r == s[i..j]
                           && (forall k :: 0 <= k < i ==> IsSpace(s[k]))
                           && (forall k :: j <= k < |s| ==> IsSpace(s[k]))
  {
    var i := LeadingSpace(s);
    var t := TrailingSpace(s[i..]);
    var j := |s| - t;
    assert forall k :: j <= k < |s| ==> s[k] == s[i..][k - i];
    assert s[i..j] == s[i..][..|s[i..]| - t];
    s[i..j]
  }

  // ---------------------------------------------------------------------
  // split(sep) and its inverse, sep.join(fields)
  // ---------------------------------------------------------------------

  /** Python's `sep.join(fields)` for a one-character separator. */
  function Join(fields: seq<string>, sep: char): string
    requires |fields| >= 1
  {
    if |fields| == 1 then fields[0] else fields[0] + [sep] + Join(fields[1..], sep)
  }

  /** Position of the first occurrence of `c` in `s`. */
  function IndexOf(s: string, c: char): (i: nat)
    requires c in s
    ensures i < |s| && s[i] == c && c !in s[..i]
  {
    if s[0] == c then 0
    else
      assert s[1..][..IndexOf(s[1..], c)] == s[1..IndexOf(s[1..], c) + 1];
      1 + IndexOf(s[1..], c)
  }

  /** Python's `s.split(sep)` for a one-character separator: the text up to
      the first separator is a field, and the rest is split likewise; text
      without a separator is one field (so the empty string yields one empty
      field). No field holds the separator. */
  function Split(s: string, sep: char): (fields: seq<string>)
    ensures |fields| >= 1
    ensures forall i :: 0 <= i < |fields| ==> sep !in fields[i]
    decreases |s|
  {
    if sep !in s then [s]
    else
      var i := IndexOf(s, sep);
      [s[..i]] + Split(s[i + 1..], sep)
  }

  /** Joining the fields of a split gives back the original text. */
  lemma {:induction false} JoinSplit(s: string, sep: char)
    ensures Join(Split(s, sep), sep) == s
    decreases |s|
  {
    if sep in s {
      var i := IndexOf(s, sep);
      JoinSplit(s[i + 1..], sep);
      var fields := Split(s, sep);
      assert fields[1..] == Split(s[i + 1..], sep);
      assert s == s[..i] + [sep] + s[i + 1..];
    }
  }

  /** A split has one field more than the text has separators. */
  lemma {:induction false} SplitCount(s: string, sep: char)
    ensures |Split(s, sep)| == multiset(s)[sep] + 1
    decreases |s|
  {
    if sep in s {
      var i := IndexOf(s, sep);
      SplitCount(s[i + 1..], sep);
      assert s == s[..i] + [sep] + s[i + 1..];
      assert multiset(s[..i])[sep] == 0;
    } else {
      assert multiset(s)[sep] == 0;
    }
  }

  /** Splitting text that starts with a separator-free field and a separator
      peels that field off. */
  lemma SplitFieldThenSeparator(f: string, sep: char, rest: string)
    requires sep !in f
    ensures Split(f + [sep] + rest, sep) == [f] + Split(rest, sep)
  {
    var s := f + [sep] + rest;
    assert s[|f|] == sep;
    assert s[..|f|] == f;
    assert s[|f| + 1..] == rest;
    assert IndexOf(s, sep) == |f|;
  }

  /** `split` undoes `join` when no field holds the separator. */
  lemma {:induction false} SplitJoin(fields: seq<string>, sep: char)
    requires |fields| >= 1
    requires forall i :: 0 <= i < |fields| ==> sep !in fields[i]
    ensures Split(Join(fields, sep), sep) == fields
  {
    if |fields| == 1 {
    } else {
      SplitJoin(fields[1..], sep);
      SplitFieldThenSeparator(fields[0], sep, Join(fields[1..], sep));
      assert [fields[0]] + fields[1..] == fields;
    }
  }

  // ---------------------------------------------------------------------
  // replace(old, new) for single characters
  // ---------------------------------------------------------------------

  /** Python's `s.replace(from, to)` where both are one character long:
      every occurrence of `from` becomes `to`, every other character stays. */
  function Replace(s: string, from: char, to: char): (r: string)
    ensures |r| == |s|
    ensures forall k :: 0 <= k < |s| ==> r[k] == (if s[k] == from then to else s[k])
  {
    if |s| == 0 then []
    else [if s[0] == from then to else s[0]] + Replace(s[1..], from, to)
  }

  // ---------------------------------------------------------------------
  // title(), ASCII letters only
  // ---------------------------------------------------------------------

  predicate IsLetter(c: char) {
    ('a' <= c <= 'z') || ('A' <= c <= 'Z')
  }

  predicate IsUpper(c: char) {
    'A' <= c <= 'Z'
  }

  predicate IsLower(c: char) {
    'a' <= c <= 'z'
  }

  function Upper(c: char): char {
    if IsLower(c) then (c as int - 32) as char else c
  }

  function Lower(c: char): char {
    if IsUpper(c) then (c as int + 32) as char else c
  }

  /** A string in title case: a letter that starts a word (it is first, or
      follows a character that is not a letter) is upper case, and a letter
      that follows a letter is lower case. Stated over adjacent positions
      `i`, `j` so that no position term begets another. */
  predicate IsTitleCased(s: string) {
    && (|s| > 0 && IsLetter(s[0]) ==> IsUpper(s[0]))
    && forall i, j :: 0 <= i < |s| && j == i + 1 && j < |s| && IsLetter(s[j]) ==>
         if IsLetter(s[i]) then IsLower(s[j]) else IsUpper(s[j])
  }

  /** The left-to-right pass of CPython's `str.title()`: a character is
      lower-cased when the previous character was cased and title-cased
      otherwise; the flag then records whether this character is cased.
      The result is described position by position. */
  function TitleFrom(s: string, previousIsCased: bool): (r: string)
    ensures |r| == |s|
    ensures forall k {:trigger r[k]} :: 0 <= k < |s| ==>
      r[k] == (if (if k == 0 then previousIsCased else IsLetter(s[k - 1]))
               then Lower(s[k]) else Upper(s[k]))
  {
    if |s| == 0 then []
    else
      [if previousIsCased then Lower(s[0]) else Upper(s[0])]
      + TitleFrom(s[1..], IsLetter(s[0]))
  }

  /** Every character of a title-cased pass equals its input up to case,
      and letters stay letters. */
  lemma TitleFromAgreesUpToCase(s: string, previousIsCased: bool)
    ensures forall k :: 0 <= k < |s| ==> Lower(TitleFrom(s, previousIsCased)[k]) == Lower(s[k])
    ensures forall k :: 0 <= k < |s| ==>
      (IsLetter(TitleFrom(s, previousIsCased)[k]) <==> IsLetter(s[k]))
  {
    var r := TitleFrom(s, previousIsCased);
    forall k | 0 <= k < |s|
      ensures Lower(r[k]) == Lower(s[k]) && (IsLetter(r[k]) <==> IsLetter(s[k]))
    {
      var c := s[k];
      assert r[k] == Lower(c) || r[k] == Upper(c);
    }
  }

  /** Python's `s.title()`: same length, every character equal to the input
      up to case, letters stay letters, and the result is in title case. */
  function Title(s: string): (r: string)
    ensures |r| == |s|
    ensures forall k :: 0 <= k < |s| ==> Lower(r[k]) == Lower(s[k])
    ensures forall k :: 0 <= k < |s| ==> (IsLetter(r[k]) <==> IsLetter(s[k]))
    ensures forall k :: 0 <= k < |s| && !IsLetter(s[k]) ==> r[k] == s[k]
    ensures IsTitleCased(r)
  {
    TitleFromAgreesUpToCase(s, false);
    TitleFrom(s, false)
  }

  /** Title-casing leaves a title-cased string unchanged. */
  lemma TitleKeepsTitleCased(s: string)
    requires IsTitleCased(s)
    ensures Title(s) == s
  {
    var r := Title(s);
    forall k | 0 <= k < |s|
      ensures r[k] == s[k]
    {
      if k > 0 && IsLetter(s[k]) {
        assert IsLetter(s[k - 1]) ==> IsLower(s[k]);
      }
    }
  }

  /** `title()` is idempotent. */
  lemma TitleIdempotent(s: string)
    ensures Title(Title(s)) == Title(s)
  {
    TitleKeepsTitleCased(Title(s));
  }
}
