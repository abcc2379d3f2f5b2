/** `DiseaseEnsemble.predict_top3` (Backend/disease_ensemble.py): the three
    classifiers' probability rows are averaged element-wise, the three
    classes with the highest averaged score are picked in descending order,
    and each is reported with its title-cased disease name and its score as
    a percentage. The classifiers are outside the model; their
    `predict_proba` rows are the inputs `p1`, `p2`, `p3`. */
module Ensemble {
  import opened Wrappers
  import opened Text
  import opened Ranking

  /** Why `predict_top3` raises. */
  datatype PredictionError =
    | ShapeMismatch(left: nat, right: nat)  // numpy cannot add rows of these widths
    | UnknownDiseaseId(id: nat)             // the name map has no entry for a chosen class

  /** One reported entry: class index, display name, and percentage. */
  datatype Prediction = Prediction(diseaseId: nat, disease: string, probability: real)

  // ---------------------------------------------------------------------
  // (p1 + p2 + p3) / 3 with numpy broadcasting
  // ---------------------------------------------------------------------

  /** numpy adds two rows when their widths agree or one of them is 1. */
  predicate Broadcastable(m: nat, n: nat) {
    m == n || m == 1 || n == 1
  }

  /** Width of the sum of two broadcastable rows. */
  function BroadcastWidth(m: nat, n: nat): nat
    requires Broadcastable(m, n)
  {
    if m == 1 then n else m
  }

  /** Entry `i` of a row as broadcasting reads it: a width-1 row stands for
      its one entry repeated. */
  function Entry(row: seq<real>, i: nat): real
    requires i < |row| || |row| == 1
  {
    if |row| == 1 then row[0] else row[i]
  }

  /** Element-wise `a + b` on two rows. */
  function AddRows(a: seq<real>, b: seq<real>): (r: Result<seq<real>, PredictionError>)
    ensures r.Failure? <==> !Broadcastable(|a|, |b|)
    ensures r.Failure? ==> r.error == ShapeMismatch(|a|, |b|)
    ensures r.Success? ==> |r.value| == BroadcastWidth(|a|, |b|)
    ensures r.Success? ==> forall i :: 0 <= i < |r.value| ==> r.value[i] == Entry(a, i) + Entry(b, i)
  {
    if |a| == |b| then Success(seq(|a|, i requires 0 <= i < |a| => a[i] + b[i]))
    else if |a| == 1 then Success(seq(|b|, i requires 0 <= i < |b| => a[0] + b[i]))
    else if |b| == 1 then Success(seq(|a|, i requires 0 <= i < |a| => a[i] + b[0]))
    else Failure(ShapeMismatch(|a|, |b|))
  }

  /** The three rows can be added, first `p1 + p2`, then `+ p3`. */
  predicate Compatible(p1: seq<real>, p2: seq<real>, p3: seq<real>) {
    Broadcastable(|p1|, |p2|) && Broadcastable(BroadcastWidth(|p1|, |p2|), |p3|)
  }

  /** Width of the combined row of three compatible rows. */
  function CombinedWidth(p1: seq<real>, p2: seq<real>, p3: seq<real>): nat
    requires Compatible(p1, p2, p3)
  {
    BroadcastWidth(BroadcastWidth(|p1|, |p2|), |p3|)
  }

  /** Line 61, `combined = (p1 + p2 + p3) / 3`: defined when the widths can be
      broadcast together, and then every entry is the arithmetic mean of the
      three rows' entries; rows of one width n give a row of width n whose
      entry i is (p1[i] + p2[i] + p3[i]) / 3. */
  function Mean3(p1: seq<real>, p2: seq<real>, p3: seq<real>): (r: Result<seq<real>, PredictionError>)
    ensures r.Success? <==> Compatible(p1, p2, p3)
    ensures r.Failure? ==> r.error.ShapeMismatch?
    ensures r.Success? ==> |r.value| == CombinedWidth(p1, p2, p3)
    ensures r.Success? ==> forall i :: 0 <= i < |r.value| ==>
      r.value[i] == (Entry(p1, i) + Entry(p2, i) + Entry(p3, i)) / 3.0
    ensures |p1| == |p2| == |p3| ==>
      r.Success? && |r.value| == |p1|
      && forall i :: 0 <= i < |p1| ==> r.value[i] == (p1[i] + p2[i] + p3[i]) / 3.0
  {
    match AddRows(p1, p2)
    case Failure(e) => Failure(e)
    case Success(s12) =>
      match AddRows(s12, p3)
      case Failure(e) => Failure(e)
      case Success(s) => Success(seq(|s|, i requires 0 <= i < |s| => s[i] / 3.0))
  }

  // ---------------------------------------------------------------------
  // The combined row is a distribution
  // ---------------------------------------------------------------------

  function Sum(row: seq<real>): real {
    if |row| == 0 then 0.0 else row[0] + Sum(row[1..])
  }

  /** A probability distribution over the classes: entries in [0, 1]
      summing to 1. */
  predicate IsDistribution(row: seq<real>) {
    (forall i :: 0 <= i < |row| ==> 0.0 <= row[i] <= 1.0) && Sum(row) == 1.0
  }

  /** Summing an element-wise mean is taking the mean of the sums. */
  lemma {:induction false} SumOfMean(a: seq<real>, b: seq<real>, c: seq<real>, m: seq<real>)
    requires |a| == |b| == |c| == |m|
    requires forall i :: 0 <= i < |m| ==> m[i] == (a[i] + b[i] + c[i]) / 3.0
    ensures Sum(m) == (Sum(a) + Sum(b) + Sum(c)) / 3.0
  {
    if |m| > 0 {
      SumOfMean(a[1..], b[1..], c[1..], m[1..]);
    }
  }

  /** Three distributions of one width average to a distribution. */
  lemma CombinedIsDistribution(p1: seq<real>, p2: seq<real>, p3: seq<real>)
    requires |p1| == |p2| == |p3|
    requires IsDistribution(p1) && IsDistribution(p2) && IsDistribution(p3)
    ensures Mean3(p1, p2, p3).Success?
    ensures IsDistribution(Mean3(p1, p2, p3).value)
  {
    SumOfMean(p1, p2, p3, Mean3(p1, p2, p3).value);
  }

  // ---------------------------------------------------------------------
  // Lines 67-74: class index -> (index, title-cased name, percentage)
  // ---------------------------------------------------------------------

  /** The list comprehension of lines 68-74 over the chosen classes `top`:
      it succeeds exactly when every chosen class has a name, and then
      reports, in the order of `top`, each class with its title-cased name
      and 100 times its combined score; otherwise the lookup of a chosen
      class without a name fails. */
  function Describe(top: seq<nat>, combined: seq<real>, names: map<nat, string>)
    : (r: Result<seq<Prediction>, PredictionError>)
    requires ValidIndices(combined, top)
    ensures r.Success? <==> forall j :: 0 <= j < |top| ==> top[j] in names
    ensures r.Success? ==> |r.value| == |top|
    ensures r.Success? ==> forall j :: 0 <= j < |top| ==>
      r.value[j] == Prediction(top[j], Title(names[top[j]]), 100.0 * combined[top[j]])
    ensures r.Failure? ==> r.error.UnknownDiseaseId? && r.error.id in top && r.error.id !in names
  {
    if |top| == 0 then Success([])
    else if top[0] !in names then Failure(UnknownDiseaseId(top[0]))
    else
      match Describe(top[1..], combined, names)
      case Failure(e) => Failure(e)
      case Success(rest) =>
        Success([Prediction(top[0], Title(names[top[0]]), 100.0 * combined[top[0]])] + rest)
  }

  /** The failing lookup is the first chosen class without a name, as the
      comprehension evaluates left to right. */
  lemma {:induction false} DescribeFailsAtFirstMissing(top: seq<nat>, combined: seq<real>, names: map<nat, string>)
    requires ValidIndices(combined, top)
    requires Describe(top, combined, names).Failure?
    ensures exists j ::
      && 0 <= j < |top|
      && Describe(top, combined, names).error == UnknownDiseaseId(top[j])
      && forall j' :: 0 <= j' < j ==> top[j'] in names
  {
    if top[0] in names {
      DescribeFailsAtFirstMissing(top[1..], combined, names);
      var j :| 0 <= j < |top[1..]|
        && Describe(top[1..], combined, names).error == UnknownDiseaseId(top[1..][j])
        && forall j' :: 0 <= j' < j ==> top[1..][j'] in names;
      assert top[j + 1] == top[1..][j];
      assert forall j' :: 0 < j' < j + 1 ==> top[j'] == top[1..][j' - 1];
    } else {
      assert Describe(top, combined, names).error == UnknownDiseaseId(top[0]);
    }
  }

  // ---------------------------------------------------------------------
  // predict_top3
  // ---------------------------------------------------------------------

  /** What a successful report promises about the combined row: min(3, n)
      entries naming distinct classes, each with its title-cased name and
      100 times its combined score, percentages non-increasing, and no class
      left out scoring above a reported one. */
  predicate IsTop3Report(ps: seq<Prediction>, combined: seq<real>, names: map<nat, string>) {
    && |ps| == Min(3, |combined|)
    && (forall j :: 0 <= j < |ps| ==>
          && ps[j].diseaseId < |combined|
          && ps[j].diseaseId in names
          && ps[j].disease == Title(names[ps[j].diseaseId])
          && ps[j].probability == 100.0 * combined[ps[j].diseaseId])
    && (forall i, j :: 0 <= i < j < |ps| ==> ps[i].diseaseId != ps[j].diseaseId)
    && (forall i, j :: 0 <= i < j < |ps| ==> ps[i].probability >= ps[j].probability)
    && (forall j, c ::
          (0 <= j < |ps| && 0 <= c < |combined|
           && (forall i :: 0 <= i < |ps| ==> ps[i].diseaseId != c))
          ==> ps[j].probability >= 100.0 * combined[c])
  }

  /** A report built from a top-3 selection meets the report contract. */
  lemma DescribedTopIsReport(combined: seq<real>, top: seq<nat>, names: map<nat, string>)
    requires IsTopK(combined, 3, top)
    requires Describe(top, combined, names).Success?
    ensures IsTop3Report(Describe(top, combined, names).value, combined, names)
  {
    var ps := Describe(top, combined, names).value;
    forall j, c | 0 <= j < |ps| && 0 <= c < |combined|
      && (forall i :: 0 <= i < |ps| ==> ps[i].diseaseId != c)
      ensures ps[j].probability >= 100.0 * combined[c]
    {
      assert c !in top by {
        forall i | 0 <= i < |top|
          ensures top[i] != c
        {
          assert ps[i].diseaseId == top[i];
        }
      }
    }
  }

  /** Every class of a top-3 selection is a contender. */
  lemma ChosenAreContenders(scores: seq<real>, top: seq<nat>)
    requires IsTopK(scores, 3, top)
    ensures forall x :: x in top ==> Contender(scores, x)
  {
    forall x | x in top
      ensures Contender(scores, x)
    {
      ChosenIsContender(scores, top, x);
    }
  }

  /** `predict_top3` on the three classifiers' rows: a shape error when the
      rows cannot be added; otherwise either a report meeting the top-3
      contract on the combined row, or the lookup error of a contender
      without a name (a class with three classes strictly above it is never
      looked up), which cannot happen when every contender has a name. */
  function PredictTop3(p1: seq<real>, p2: seq<real>, p3: seq<real>, names: map<nat, string>)
    : (r: Result<seq<Prediction>, PredictionError>)
    ensures !Compatible(p1, p2, p3) <==> r.Failure? && r.error.ShapeMismatch?
    ensures r.Success? ==> IsTop3Report(r.value, Mean3(p1, p2, p3).value, names)
    ensures r.Failure? && Compatible(p1, p2, p3) ==>
      r.error.UnknownDiseaseId?
      && Contender(Mean3(p1, p2, p3).value, r.error.id)
      && r.error.id !in names
    ensures (Compatible(p1, p2, p3)
             && forall c :: Contender(Mean3(p1, p2, p3).value, c) ==> c in names)
            ==> r.Success?
    ensures (Compatible(p1, p2, p3)
             && forall i :: 0 <= i < CombinedWidth(p1, p2, p3) ==> i in names)
            ==> r.Success?
  {
    match Mean3(p1, p2, p3)
    case Failure(e) => Failure(e)
    case Success(combined) =>
      var top := TopK(combined, 3);
      ChosenAreContenders(combined, top);
      var r := Describe(top, combined, names);
      if r.Success? then
        DescribedTopIsReport(combined, top, names);
        r
      else
        r
  }

  /** The class indices a report lists, in order. */
  function ReportedIds(ps: seq<Prediction>): (ids: seq<nat>)
    ensures |ids| == |ps|
    ensures forall j :: 0 <= j < |ps| ==> ids[j] == ps[j].diseaseId
  {
    seq(|ps|, j requires 0 <= j < |ps| => ps[j].diseaseId)
  }

  /** The classes a report lists form a top-3 selection of the combined row. */
  lemma ReportIsTopK(ps: seq<Prediction>, combined: seq<real>, names: map<nat, string>)
    requires IsTop3Report(ps, combined, names)
    ensures IsTopK(combined, 3, ReportedIds(ps))
  {
    var ids := ReportedIds(ps);
    forall i, c | 0 <= i < |ids| && 0 <= c < |combined| && c !in ids
      ensures combined[ids[i]] >= combined[c]
    {
      assert forall i' :: 0 <= i' < |ps| ==> ps[i'].diseaseId != c by {
        forall i' | 0 <= i' < |ps|
          ensures ps[i'].diseaseId != c
        {
          assert ids[i'] == ps[i'].diseaseId;
        }
      }
    }
  }

  /** Describing the classes a report lists gives that report back. */
  lemma DescribeReport(ps: seq<Prediction>, combined: seq<real>, names: map<nat, string>)
    requires IsTop3Report(ps, combined, names)
    ensures ValidIndices(combined, ReportedIds(ps))
    ensures Describe(ReportedIds(ps), combined, names) == Success(ps)
  {
    var ids := ReportedIds(ps);
    var d := Describe(ids, combined, names);
    assert d.Success?;
    assert d.value == ps;
  }

  /** When no two classes share a combined score, the report contract pins
      the answer down: any report meeting it is what `predict_top3` returns. */
  lemma ReportDeterminedWithoutTies(p1: seq<real>, p2: seq<real>, p3: seq<real>,
                                    names: map<nat, string>, ps: seq<Prediction>)
    requires Compatible(p1, p2, p3)
    requires NoTies(Mean3(p1, p2, p3).value)
    requires IsTop3Report(ps, Mean3(p1, p2, p3).value, names)
    ensures PredictTop3(p1, p2, p3, names) == Success(ps)
  {
    var combined := Mean3(p1, p2, p3).value;
    ReportIsTopK(ps, combined, names);
    TopKUnique(combined, 3, TopK(combined, 3), ReportedIds(ps));
    DescribeReport(ps, combined, names);
  }

  /** With input rows in [0, 1], every reported percentage lies in [0, 100]. */
  lemma PercentagesInRange(p1: seq<real>, p2: seq<real>, p3: seq<real>, names: map<nat, string>)
    requires forall i :: 0 <= i < |p1| ==> 0.0 <= p1[i] <= 1.0
    requires forall i :: 0 <= i < |p2| ==> 0.0 <= p2[i] <= 1.0
    requires forall i :: 0 <= i < |p3| ==> 0.0 <= p3[i] <= 1.0
    ensures PredictTop3(p1, p2, p3, names).Success? ==>
      forall j :: 0 <= j < |PredictTop3(p1, p2, p3, names).value| ==>
        0.0 <= PredictTop3(p1, p2, p3, names).value[j].probability <= 100.0
  {
    var r := PredictTop3(p1, p2, p3, names);
    if r.Success? {
      var combined := Mean3(p1, p2, p3).value;
      forall j | 0 <= j < |r.value|
        ensures 0.0 <= r.value[j].probability <= 100.0
      {
        var c := r.value[j].diseaseId;
        assert combined[c] == (Entry(p1, c) + Entry(p2, c) + Entry(p3, c)) / 3.0;
      }
    }
  }

  // ---------------------------------------------------------------------
  // A worked scenario: three classes, every classifier giving [0.1, 0.6, 0.3]
  // ---------------------------------------------------------------------

  lemma ScenarioCombined(row: seq<real>)
    requires row == [0.1, 0.6, 0.3]
    ensures Mean3(row, row, row) == Success(row)
  {
    assert Mean3(row, row, row).value == row;
  }

  lemma ScenarioRanking(scores: seq<real>, top: seq<nat>)
    requires scores == [0.1, 0.6, 0.3] && top == [1, 2, 0]
    ensures IsTopK(scores, 3, top) && NoTies(scores)
  {
    assert forall c :: 0 <= c < |scores| ==> c in top by {
      assert top[0] == 1 && top[1] == 2 && top[2] == 0;
    }
  }

  lemma ScenarioTop(scores: seq<real>, top: seq<nat>)
    requires scores == [0.1, 0.6, 0.3] && top == [1, 2, 0]
    ensures TopK(scores, 3) == top
  {
    ScenarioRanking(scores, top);
    TopKUnique(scores, 3, TopK(scores, 3), top);
  }

  lemma ScenarioTitles()
    ensures Title("flu") == "Flu" && Title("acne") == "Acne" && Title("gerd") == "Gerd"
  {
    var a, b, c := Title("flu"), Title("acne"), Title("gerd");
    forall k | 0 <= k < 3
      ensures a[k] == "Flu"[k]
    {
    }
    forall k | 0 <= k < 4
      ensures b[k] == "Acne"[k] && c[k] == "Gerd"[k]
    {
    }
  }

  lemma ScenarioReport(top: seq<nat>, combined: seq<real>, names: map<nat, string>)
    requires top == [1, 2, 0] && combined == [0.1, 0.6, 0.3]
    requires names == map[0 := "flu", 1 := "acne", 2 := "gerd"]
    ensures Describe(top, combined, names)
            == Success([Prediction(1, "Acne", 60.0), Prediction(2, "Gerd", 30.0), Prediction(0, "Flu", 10.0)])
  {
    ScenarioTitles();
    var d := Describe(top, combined, names);
    assert d.value[0] == Prediction(1, "Acne", 60.0);
    assert d.value[1] == Prediction(2, "Gerd", 30.0);
    assert d.value[2] == Prediction(0, "Flu", 10.0);
    assert d.value == [Prediction(1, "Acne", 60.0), Prediction(2, "Gerd", 30.0), Prediction(0, "Flu", 10.0)];
  }

  /** `predict_top3` composed from its three steps: the mean, the top-3
      selection, and the naming. */
  lemma PredictFromSteps(p1: seq<real>, p2: seq<real>, p3: seq<real>, names: map<nat, string>,
                         combined: seq<real>, top: seq<nat>, report: seq<Prediction>)
    requires Mean3(p1, p2, p3) == Success(combined)
    requires TopK(combined, 3) == top
    requires ValidIndices(combined, top)
    requires Describe(top, combined, names) == Success(report)
    ensures PredictTop3(p1, p2, p3, names) == Success(report)
  {
  }

  /** Three classifiers each giving [0.1, 0.6, 0.3]: the combined row is the
      same, and the report lists class 1 at 60 %, class 2 at 30 % and
      class 0 at 10 %, names title-cased. */
  lemma ThreeClassScenario(row: seq<real>, names: map<nat, string>)
    requires row == [0.1, 0.6, 0.3]
    requires names == map[0 := "flu", 1 := "acne", 2 := "gerd"]
    ensures PredictTop3(row, row, row, names)
            == Success([Prediction(1, "Acne", 60.0), Prediction(2, "Gerd", 30.0), Prediction(0, "Flu", 10.0)])
  {
    var top: seq<nat> := [1, 2, 0];
    ScenarioCombined(row);
    ScenarioTop(row, top);
    ScenarioReport(top, row, names);
    PredictFromSteps(row, row, row, names, row, top,
                     [Prediction(1, "Acne", 60.0), Prediction(2, "Gerd", 30.0), Prediction(0, "Flu", 10.0)]);
  }

  /** A class with no name does no harm when three classes score above it:
      only contenders are ever looked up. */
  lemma UnnamedOutsiderScenario(row: seq<real>, names: map<nat, string>)
    requires row == [0.5, 0.3, 0.2, 0.0]
    requires names == map[0 := "a", 1 := "b", 2 := "c"]
    ensures PredictTop3(row, row, row, names).Success?
  {
    ScenarioCombinedFour(row);
    forall c: nat | c !in names
      ensures !Contender(row, c)
    {
      if c == 3 {
        assert 0 < 1 < 2 < |row| && row[0] > row[c] && row[1] > row[c] && row[2] > row[c];
      }
    }
  }

  lemma ScenarioCombinedFour(row: seq<real>)
    requires row == [0.5, 0.3, 0.2, 0.0]
    ensures Mean3(row, row, row) == Success(row)
  {
    assert Mean3(row, row, row).value == row;
  }
}
