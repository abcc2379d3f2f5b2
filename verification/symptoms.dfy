/** The symptom catalogue built by `load_symptoms` (Backend/app.py): the
    first line of the training CSV is stripped and split on commas, empty
    fields are dropped, every other field becomes a display name (underscores
    to spaces, then title case), the names are sorted, and the sorted list is
    numbered from 0. Opening and reading the file are outside the model: the
    first line arrives as an `Option`, `None` standing for a read that raised. */
module Symptoms {
  import opened Wrappers
  import opened Text
  import opened Ordering

  /** What every catalogue entry looks like: non-empty, no underscore, and in
      title case. */
  predicate IsSymptomName(name: string) {
    |name| > 0 && '_' !in name && IsTitleCased(name)
  }

  /** The header's comma-separated fields after stripping the line: one more
      than the commas in the stripped line, none holding a comma, and joined
      back with commas they give the stripped line. */
  function HeaderFields(line: string): (fields: seq<string>)
    ensures |fields| == multiset(Strip(line))[','] + 1
    ensures forall i :: 0 <= i < |fields| ==> ',' !in fields[i]
    ensures Join(fields, ',') == Strip(line)
  {
    SplitCount(Strip(line), ',');
    JoinSplit(Strip(line), ',');
    Split(Strip(line), ',')
  }

  /** A header field as shown to users: every underscore becomes a space and
      the result is title-cased, so the name has the field's length, equals
      it up to case except where an underscore stood, and has no underscore. */
  function DisplayName(field: string): (name: string)
    ensures |name| == |field|
    ensures forall k :: 0 <= k < |field| ==>
      Lower(name[k]) == Lower(if field[k] == '_' then ' ' else field[k])
    ensures '_' !in name
    ensures IsTitleCased(name)
  {
    var spaced := Replace(field, '_', ' ');
    var name := Title(spaced);
    assert forall k :: 0 <= k < |name| ==> name[k] != '_' by {
      forall k | 0 <= k < |name|
        ensures name[k] != '_'
      {
        if !IsLetter(spaced[k]) {
          assert name[k] == spaced[k];
        }
      }
    }
    name
  }

  /** The loop over the fields: the display name of every non-empty field, in
      header order. There are as many names as non-empty fields and each is a
      well-formed symptom name. */
  function CollectSymptoms(fields: seq<string>): (names: seq<string>)
    ensures |names| == |fields| - multiset(fields)[""]
    ensures forall i :: 0 <= i < |names| ==> IsSymptomName(names[i])
  {
    if |fields| == 0 then []
    else
      assert fields == [fields[0]] + fields[1..];
      (if |fields[0]| > 0 then [DisplayName(fields[0])] else [])
      + CollectSymptoms(fields[1..])
  }

  /** A name is collected exactly when it is the display name of some
      non-empty field. */
  lemma {:induction false} CollectedNames(fields: seq<string>, x: string)
    ensures x in CollectSymptoms(fields) <==>
      exists j :: 0 <= j < |fields| && fields[j] != "" && x == DisplayName(fields[j])
  {
    if |fields| > 0 {
      CollectedNames(fields[1..], x);
      if x in CollectSymptoms(fields[1..]) {
        var j :| 0 <= j < |fields[1..]| && fields[1..][j] != "" && x == DisplayName(fields[1..][j]);
        assert fields[j + 1] == fields[1..][j];
      }
      if exists j :: 0 <= j < |fields| && fields[j] != "" && x == DisplayName(fields[j]) {
        var j :| 0 <= j < |fields| && fields[j] != "" && x == DisplayName(fields[j]);
        if j > 0 {
          assert fields[1..][j - 1] == fields[j];
        }
      }
    }
  }

  /** Collecting over two runs of fields is collecting over each. */
  lemma {:induction false} CollectAppend(a: seq<string>, b: seq<string>)
    ensures CollectSymptoms(a + b) == CollectSymptoms(a) + CollectSymptoms(b)
  {
    if |a| > 0 {
      CollectAppend(a[1..], b);
      assert (a + b)[1..] == a[1..] + b;
      assert (a + b)[0] == a[0];
    } else {
      assert a + b == b;
    }
  }

  /** The positions of the non-empty header fields whose display name is `x`. */
  function FieldsNamed(fields: seq<string>, x: string): set<nat> {
    set j: nat | j < |fields| && fields[j] != "" && DisplayName(fields[j]) == x
  }

  /** Appending one field adds its position when it is displayed as `x`. */
  lemma FieldsNamedSnoc(init: seq<string>, last: string, x: string)
    ensures FieldsNamed(init + [last], x)
         == FieldsNamed(init, x) + (if last != "" && DisplayName(last) == x then {|init|} else {})
    ensures |init| !in FieldsNamed(init, x)
  {
    var fields := init + [last];
    forall j: nat | j < |init|
      ensures fields[j] == init[j]
    {
    }
  }

  /** Collecting over one more field adds that field's name, if any. */
  lemma CollectSnoc(init: seq<string>, last: string)
    ensures CollectSymptoms(init + [last])
         == CollectSymptoms(init) + (if last != "" then [DisplayName(last)] else [])
  {
    CollectAppend(init, [last]);
    assert [last][1..] == [];
  }

  /** One step of `CollectMultiplicity`: the count stays right when one
      more field is appended. */
  lemma CollectMultiplicityStep(init: seq<string>, last: string, x: string)
    requires multiset(CollectSymptoms(init))[x] == |FieldsNamed(init, x)|
    ensures multiset(CollectSymptoms(init + [last]))[x] == |FieldsNamed(init + [last], x)|
  {
    CollectSnoc(init, last);
    FieldsNamedSnoc(init, last, x);
    var named, added := CollectSymptoms(init), (if last != "" then [DisplayName(last)] else []);
    var before, extra := FieldsNamed(init, x), (if last != "" && DisplayName(last) == x then {|init|} else {});
    assert multiset(named + added)[x] == multiset(named)[x] + multiset(added)[x];
    assert multiset(added)[x] == |extra|;
    assert |before + extra| == |before| + |extra|;
  }

  /** The loop keeps every duplicate: a name occurs among the collected names
      as often as there are non-empty fields displayed as that name. */
  lemma {:induction false} CollectMultiplicity(fields: seq<string>, x: string)
    ensures multiset(CollectSymptoms(fields))[x] == |FieldsNamed(fields, x)|
    decreases |fields|
  {
    if |fields| == 0 {
      assert FieldsNamed(fields, x) == {};
    } else {
      var n := |fields| - 1;
      assert fields == fields[..n] + [fields[n]];
      CollectMultiplicity(fields[..n], x);
      CollectMultiplicityStep(fields[..n], fields[n], x);
    }
  }

  /** Which names are collected, with their multiplicities, depends only on
      which fields the header has, not on their column order. */
  lemma {:induction false} CollectIgnoresOrder(a: seq<string>, b: seq<string>)
    requires multiset(a) == multiset(b)
    ensures multiset(CollectSymptoms(a)) == multiset(CollectSymptoms(b))
    decreases |a|
  {
    if |a| == 0 {
      assert |b| == |multiset(b)| == 0;
    } else {
      assert a == [a[0]] + a[1..];
      assert a[0] in multiset(b);
      var i :| 0 <= i < |b| && b[i] == a[0];
      var rest := b[..i] + b[i + 1..];
      assert b == b[..i] + [b[i]] + b[i + 1..];
      assert multiset(b) == multiset(b[..i]) + multiset{a[0]} + multiset(b[i + 1..]);
      assert multiset(rest) == multiset(b[..i]) + multiset(b[i + 1..]);
      assert multiset(a) == multiset{a[0]} + multiset(a[1..]);
      assert multiset(a[1..]) == multiset(a) - multiset{a[0]};
      assert multiset(rest) == multiset(b) - multiset{a[0]};
      CollectIgnoresOrder(a[1..], rest);
      CollectAppend([a[0]], a[1..]);
      CollectAppend(b[..i], b[i + 1..]);
      CollectAppend(b[..i] + [b[i]], b[i + 1..]);
      CollectAppend(b[..i], [b[i]]);
    }
  }

  /** The symptom list after `sort()`: the collected names in Python string
      order. It has one entry per non-empty header field. */
  function SymptomList(line: string): (names: seq<string>)
    ensures Sorted(names)
    ensures multiset(names) == multiset(CollectSymptoms(HeaderFields(line)))
    ensures |names| == |HeaderFields(line)| - multiset(HeaderFields(line))[""]
    ensures forall i :: 0 <= i < |names| ==> IsSymptomName(names[i])
  {
    var fields := HeaderFields(line);
    var collected := CollectSymptoms(fields);
    var names := Sort(collected);
    assert |names| == |multiset(names)| == |multiset(collected)| == |collected|;
    assert forall i :: 0 <= i < |names| ==> IsSymptomName(names[i]) by {
      forall i | 0 <= i < |names|
        ensures IsSymptomName(names[i])
      {
        assert names[i] in multiset(collected);
        var j :| 0 <= j < |collected| && collected[j] == names[i];
      }
    }
    names
  }

  /** Python's `{index: x for index, x in enumerate(xs)}`. */
  function Enumerate(xs: seq<string>): (m: map<nat, string>)
    ensures forall k: nat :: k in m <==> k < |xs|
    ensures forall k :: k in m ==> m[k] == xs[k]
  {
    map k: nat | k < |xs| :: xs[k]
  }

  /** The catalogue built from a header line that was read: keys are exactly
      0 .. n-1 for n the number of non-empty fields, every entry is a
      well-formed symptom name, a larger key never holds a smaller name, and
      key k holds the k-th name of the sorted list. */
  function ParseSymptomHeader(line: string): (symptoms: map<nat, string>)
    ensures forall k: nat :: k in symptoms <==>
      k < |HeaderFields(line)| - multiset(HeaderFields(line))[""]
    ensures forall k :: k in symptoms ==> IsSymptomName(symptoms[k])
    ensures forall k1, k2 :: k1 in symptoms && k2 in symptoms && k1 < k2 ==>
      LexLe(symptoms[k1], symptoms[k2])
    ensures forall k :: k in symptoms ==> symptoms[k] == SymptomList(line)[k]
  {
    Enumerate(SymptomList(line))
  }

  /** `load_symptoms` as a whole: an unreadable file leaves the catalogue
      empty; a readable one gives the catalogue of its first line. */
  function LoadSymptoms(firstLine: Option<string>): (symptoms: map<nat, string>)
    ensures firstLine.None? ==> symptoms == map[]
    ensures firstLine.Some? ==> symptoms == ParseSymptomHeader(firstLine.value)
  {
    match firstLine
    case None => map[]
    case Some(line) => ParseSymptomHeader(line)
  }

  /** A name is in the catalogue exactly when it is in the sorted list. */
  lemma CatalogueHoldsSymptomList(line: string, x: string)
    ensures (exists k :: k in ParseSymptomHeader(line) && ParseSymptomHeader(line)[k] == x)
        <==> x in SymptomList(line)
  {
    var m := ParseSymptomHeader(line);
    var names := SymptomList(line);
    if x in names {
      var k :| 0 <= k < |names| && names[k] == x;
      assert k in m && m[k] == x;
    }
  }

  /** The catalogue's names are exactly the display names of the non-empty
      header fields. */
  lemma CatalogueNames(line: string, x: string)
    ensures (exists k :: k in ParseSymptomHeader(line) && ParseSymptomHeader(line)[k] == x)
        <==> (exists j :: 0 <= j < |HeaderFields(line)| && HeaderFields(line)[j] != ""
                          && x == DisplayName(HeaderFields(line)[j]))
  {
    var fields := HeaderFields(line);
    CatalogueHoldsSymptomList(line, x);
    CollectedNames(fields, x);
    assert x in SymptomList(line) <==> x in multiset(CollectSymptoms(fields));
  }

  /** In a list, a string sits at as many positions as it occurs. */
  lemma {:induction false} PositionCount(s: seq<string>, x: string)
    ensures |set k: nat | k < |s| && s[k] == x| == multiset(s)[x]
  {
    if |s| > 0 {
      var n := |s| - 1;
      var init := s[..n];
      assert s == init + [s[n]];
      PositionCount(init, x);
      var extra: set<nat> := if s[n] == x then {n} else {};
      assert (set k: nat | k < |s| && s[k] == x) == (set k: nat | k < |init| && init[k] == x) + extra;
      assert n !in (set k: nat | k < |init| && init[k] == x);
    }
  }

  /** The keys holding `x` are its positions in the sorted list. */
  lemma CataloguePositions(line: string, x: string)
    ensures (set k | k in ParseSymptomHeader(line) && ParseSymptomHeader(line)[k] == x)
         == (set k: nat | k < |SymptomList(line)| && SymptomList(line)[k] == x)
  {
  }

  /** The catalogue keeps duplicates: a name is the value of as many keys
      as there are non-empty header fields displayed as that name. */
  lemma CatalogueMultiplicity(line: string, x: string)
    ensures |set k | k in ParseSymptomHeader(line) && ParseSymptomHeader(line)[k] == x|
        == |FieldsNamed(HeaderFields(line), x)|
  {
    var names := SymptomList(line);
    CataloguePositions(line, x);
    PositionCount(names, x);
    CollectMultiplicity(HeaderFields(line), x);
  }

  /** The numbering follows display-name order: whatever sorted arrangement
      of the collected names one writes down, the catalogue numbers exactly
      that arrangement. */
  lemma NumberingFollowsDisplayOrder(line: string, names: seq<string>)
    requires Sorted(names)
    requires multiset(names) == multiset(CollectSymptoms(HeaderFields(line)))
    ensures ParseSymptomHeader(line) == Enumerate(names)
  {
    SortedUnique(names, SymptomList(line));
  }

  /** Reordering the header's columns leaves the catalogue unchanged. */
  lemma ColumnOrderIrrelevant(line1: string, line2: string)
    requires multiset(HeaderFields(line1)) == multiset(HeaderFields(line2))
    ensures ParseSymptomHeader(line1) == ParseSymptomHeader(line2)
  {
    CollectIgnoresOrder(HeaderFields(line1), HeaderFields(line2));
    SortedUnique(SymptomList(line1), SymptomList(line2));
  }

  lemma StripExample()
    ensures Strip("skin_rash,cough\n") == "skin_rash,cough"
  {
    var line := "skin_rash,cough\n";
    assert LeadingSpace(line) == 0;
    assert TrailingSpace(line[..|line| - 1]) == 0;
    assert TrailingSpace(line) == 1;
    assert line[0..|line| - 1] == "skin_rash,cough";
  }

  lemma ReplaceExample()
    ensures Replace("skin_rash", '_', ' ') == "skin rash"
  {
    var a := Replace("skin_rash", '_', ' ');
    forall k | 0 <= k < 9
      ensures a[k] == "skin rash"[k]
    {
    }
  }

  lemma TitleExample()
    ensures TitleFrom("skin rash", false) == "Skin Rash"
  {
    var t := TitleFrom("skin rash", false);
    forall k | 0 <= k < 9
      ensures t[k] == "Skin Rash"[k]
    {
    }
  }

  lemma DisplayNameExample1()
    ensures DisplayName("skin_rash") == "Skin Rash"
  {
    ReplaceExample();
    TitleExample();
  }

  lemma DisplayNameExample2()
    ensures DisplayName("cough") == "Cough"
  {
    assert Replace("cough", '_', ' ') == "cough" by {
      var a := Replace("cough", '_', ' ');
      forall k | 0 <= k < 5
        ensures a[k] == "cough"[k]
      {
      }
    }
    assert TitleFrom("cough", false) == "Cough" by {
      var t := TitleFrom("cough", false);
      forall k | 0 <= k < 5
        ensures t[k] == "Cough"[k]
      {
      }
    }
  }

  /** The header fields of the example line. */
  lemma HeaderFieldsExample()
    ensures HeaderFields("skin_rash,cough\n") == ["skin_rash", "cough"]
  {
    StripExample();
    var fields := ["skin_rash", "cough"];
    assert Join(fields, ',') == "skin_rash,cough";
    SplitJoin(fields, ',');
  }

  lemma EnumeratePair(a: string, b: string)
    ensures Enumerate([a, b]) == map[0 := a, 1 := b]
  {
    var m := Enumerate([a, b]);
    assert m.Keys == {0, 1} by {
      forall k: nat
        ensures k in m <==> k in {0, 1}
      {
      }
    }
  }

  lemma TwoColumnCollect(first: string, second: string)
    requires first != "" && second != ""
    ensures CollectSymptoms([first, second]) == [DisplayName(first), DisplayName(second)]
  {
    var fields := [first, second];
    assert fields[1..] == [second];
    assert fields[1..][1..] == [];
  }

  lemma TwoColumnList(line: string, first: string, second: string)
    requires HeaderFields(line) == [first, second]
    requires first != "" && second != ""
    ensures SymptomList(line)
         == if LexLe(DisplayName(first), DisplayName(second))
            then [DisplayName(first), DisplayName(second)]
            else [DisplayName(second), DisplayName(first)]
  {
    TwoColumnCollect(first, second);
    assert multiset(CollectSymptoms([first, second])) == multiset{DisplayName(first), DisplayName(second)};
    SortedTwoEither(SymptomList(line), DisplayName(first), DisplayName(second));
  }

  /** A header with two non-empty columns: key 0 holds whichever display
      name sorts first, whichever column it came from, and key 1 the other. */
  lemma TwoColumnHeader(line: string, first: string, second: string)
    requires HeaderFields(line) == [first, second]
    requires first != "" && second != ""
    ensures ParseSymptomHeader(line)
         == if LexLe(DisplayName(first), DisplayName(second))
            then map[0 := DisplayName(first), 1 := DisplayName(second)]
            else map[0 := DisplayName(second), 1 := DisplayName(first)]
  {
    TwoColumnList(line, first, second);
    EnumeratePair(DisplayName(first), DisplayName(second));
    EnumeratePair(DisplayName(second), DisplayName(first));
  }

  /** The header `skin_rash,cough`: `skin_rash` is column 0 of the header but
      gets number 1 in the catalogue. */
  lemma HeaderExample()
    ensures ParseSymptomHeader("skin_rash,cough\n") == map[0 := "Cough", 1 := "Skin Rash"]
  {
    HeaderFieldsExample();
    DisplayNameExample1();
    DisplayNameExample2();
    assert !LexLe("Skin Rash", "Cough");
    TwoColumnHeader("skin_rash,cough\n", "skin_rash", "cough");
  }
}
