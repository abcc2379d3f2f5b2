# Disease-Prediction-System: verified model of the backend's pure logic

This project models two pieces of the Flask backend in Dafny and proves properties of each.

- **Symptom catalogue** (`load_symptoms` in `Backend/app.py`). The first line of the
  training CSV is stripped and split on commas, and empty fields are dropped. Each
  remaining field becomes a display name: underscores turn into spaces, then the
  field is title-cased. The names are sorted and numbered from 0 into a dictionary.
  If the file cannot be read, the dictionary stays empty.
- **Ensemble top-3 prediction** (`DiseaseEnsemble.predict_top3` in
  `Backend/disease_ensemble.py`). The probability rows of three classifiers are
  averaged element-wise, with numpy broadcasting. The three classes with the highest
  averaged score are chosen in descending order. Each is reported with its class
  index, its title-cased disease name, and its score as a percentage.

Modules, one per file:

- `Wrappers` (`wrappers.dfy`): `Option` and `Result`.
- `Text` (`text.dfy`): Python's `str.strip`, `str.split` with a one-character
  separator, `str.replace` with one-character arguments, and `str.title` for ASCII
  letters.
- `Ordering` (`ordering.dfy`): Python's `<=` on `str`, and `list.sort` as the unique
  sorted permutation.
- `Symptoms` (`symptoms.dfy`): the catalogue built by `load_symptoms`.
- `Ranking` (`ranking.dfy`): `argsort()[::-1][:k]` and what a top-k selection is.
- `Ensemble` (`ensemble.dfy`): `predict_top3`.

Inputs taken as parameters:

- The header line is an `Option<string>`. `None` stands for an open or read that
  raised.
- The three classifiers' `predict_proba` rows for the one input sample are
  `seq<real>`.
- The disease-name dictionary is a `map<nat, string>`.

## Model

| member | source | states |
|---|---|---|
| Text.IsSpace | Backend/app.py:13 | Python's `str.isspace` set, which `strip()` removes: TAB to CR, FS to US, space, and the Unicode space and separator characters |
| Text.Strip | Backend/app.py:13 | `strip()` removes exactly a whitespace prefix and a whitespace suffix (Python's `isspace` set); the result neither starts nor ends with whitespace |
| Text.Split | Backend/app.py:13 | `split(',')` yields at least one field and no field contains the separator |
| Text.JoinSplit | Backend/app.py:13 | joining the fields of a split with the separator gives back the original text |
| Text.SplitJoin | Backend/app.py:13 | splitting a join of separator-free fields gives back those fields |
| Text.SplitCount | Backend/app.py:13 | a split has one more field than the text has separators |
| Text.Replace | Backend/app.py:15 | `replace('_', ' ')` changes every underscore into a space and leaves every other character as it was |
| Text.Title | Backend/app.py:15 | `title()` keeps the length, keeps each character up to case, leaves non-letters alone, and yields title case (word-initial letters upper, other letters lower) |
| Text.TitleKeepsTitleCased | Backend/app.py:15 | a string already in title case is a fixed point of `title()` |
| Text.TitleIdempotent | Backend/app.py:15 | applying `title()` twice is the same as once |
| Ordering.LexLe | Backend/app.py:17 | Python's `<=` on `str`: code-point lexicographic order, with a proper prefix first |
| Ordering.LexLeReflexive | Backend/app.py:17 | every string is at most itself |
| Ordering.LexLeTotal | Backend/app.py:17 | any two strings are comparable |
| Ordering.LexLeAntisymmetric | Backend/app.py:17 | two strings each at most the other are equal |
| Ordering.LexLeTransitive | Backend/app.py:17 | the order is transitive, so `sort()` has a well-defined result |
| Ordering.Sort | Backend/app.py:17 | `list.sort()` returns a permutation of its input that is non-decreasing in Python string order |
| Ordering.SortedUnique | Backend/app.py:17 | two sorted lists holding the same strings are equal, so every correct sort agrees with Python's |
| Ordering.SortIgnoresOrder | Backend/app.py:17 | the sorted list depends only on the multiset of names, not on their order |
| Symptoms.HeaderFields | Backend/app.py:13 | the fields of the stripped line: one more than its commas, none containing a comma, and they join back into the stripped line |
| Symptoms.DisplayName | Backend/app.py:15 | a display name has the field's length, matches the field up to case with underscores read as spaces, has no underscore, and is title-cased |
| Symptoms.CollectSymptoms | Backend/app.py:13-16 | the loop keeps as many names as there are non-empty fields, and every kept name is non-empty, underscore-free and title-cased |
| Symptoms.CollectMultiplicity | Backend/app.py:13-16 | duplicates are kept: each name occurs among the kept names exactly as often as there are non-empty fields displayed as that name |
| Symptoms.CollectedNames | Backend/app.py:13-16 | a name is kept exactly when it is the display name of some non-empty field |
| Symptoms.CollectIgnoresOrder | Backend/app.py:13-16 | permuting the header's fields permutes the kept names |
| Symptoms.SymptomList | Backend/app.py:12-17 | the sorted symptom list: sorted, a permutation of the kept names, with as many entries as non-empty fields, each a well-formed symptom name |
| Symptoms.ParseSymptomHeader | Backend/app.py:13-25 | the catalogue's keys are exactly 0..n-1 for n non-empty fields; every value is a well-formed name; names grow with the keys; key k holds the k-th sorted name |
| Symptoms.LoadSymptoms | Backend/app.py:10-25 | an unreadable file leaves the catalogue empty; a read header line gives its parsed catalogue |
| Symptoms.Enumerate | Backend/app.py:25 | `{index: x for index, x in enumerate(xs)}`: keys are exactly 0..n-1 and key k holds the k-th element |
| Symptoms.CatalogueHoldsSymptomList | Backend/app.py:25 | the dictionary comprehension over `enumerate` holds exactly the names of the sorted list |
| Symptoms.CatalogueMultiplicity | Backend/app.py:13-25 | a name is the value of exactly as many catalogue keys as there are non-empty header fields displayed as that name |
| Symptoms.CatalogueNames | Backend/app.py:13-25 | a name is in the catalogue exactly when it is the display name of a non-empty header field |
| Symptoms.NumberingFollowsDisplayOrder | Backend/app.py:17-25 | keys follow sorted display-name order: any sorted arrangement of the kept names is exactly the catalogue's numbering |
| Symptoms.ColumnOrderIrrelevant | Backend/app.py:13-25 | two header lines whose fields are permutations of each other give the same catalogue |
| Symptoms.TwoColumnHeader | Backend/app.py:13-25 | for a header of two non-empty fields, key 0 holds whichever display name sorts first, whatever its column, and key 1 the other |
| Symptoms.DisplayNameExample1 | Backend/app.py:15 | the field `skin_rash` is displayed as `Skin Rash` |
| Symptoms.HeaderExample | Backend/app.py:12-25 | the header line `skin_rash,cough` with its newline gives `{0: "Cough", 1: "Skin Rash"}` |
| Ranking.ArgsortDescending | Backend/disease_ensemble.py:64 | `argsort()[::-1]` lists every class index exactly once, with scores non-increasing along the list |
| Ranking.TopK | Backend/disease_ensemble.py:64 | the first k of that list are min(k, n) distinct valid indices in non-increasing score order, and each scores at least as high as every class left out |
| Ranking.TopKUnique | Backend/disease_ensemble.py:64 | with no tied scores, any two selections meeting the top-k contract are equal |
| Ensemble.Broadcastable | Backend/disease_ensemble.py:61 | numpy's rule for adding two rows: equal widths, or one of them has width 1 |
| Ensemble.Entry | Backend/disease_ensemble.py:61 | entry i of a row as broadcasting reads it: a width-1 row repeats its one entry |
| Ensemble.AddRows | Backend/disease_ensemble.py:61 | numpy `+` on two rows fails exactly when their widths cannot broadcast; otherwise each entry is the sum of the broadcast entries |
| Ensemble.Mean3 | Backend/disease_ensemble.py:61 | `(p1 + p2 + p3) / 3` is defined exactly when the widths broadcast; each combined entry is the mean of the three rows' entries, and rows of one width n give width n with entry i equal to (p1[i] + p2[i] + p3[i]) / 3 |
| Ensemble.SumOfMean | Backend/disease_ensemble.py:61 | the sum of an element-wise mean is the mean of the sums |
| Ensemble.CombinedIsDistribution | Backend/disease_ensemble.py:61 | three probability distributions of one width average to a probability distribution |
| Ensemble.Describe | Backend/disease_ensemble.py:68-74 | the comprehension succeeds exactly when every chosen class has a name, and then reports each class in order with its title-cased name and 100 times its score; otherwise the error names a chosen class that has no name |
| Ensemble.DescribeFailsAtFirstMissing | Backend/disease_ensemble.py:68-74 | the failing lookup is the first chosen class without a name, in ranked order |
| Ensemble.PredictTop3 | Backend/disease_ensemble.py:56-74 | shape error exactly when the rows cannot be added; a success reports min(3, n) distinct classes with title-cased names, each at 100 times its combined score, with non-increasing percentages, none below a class left out; a lookup error names an unnamed contender (a class with fewer than three classes strictly above it); when every contender is named, the call succeeds |
| Ensemble.ChosenAreContenders | Backend/disease_ensemble.py:64 | every class the top-3 selection chooses is a contender, so only contenders are looked up at line 71 |
| Ranking.ChosenIsContender | Backend/disease_ensemble.py:64 | a class chosen by a top-3 selection never has three classes scoring strictly above it |
| Ensemble.UnnamedOutsiderScenario | Backend/disease_ensemble.py:64-74 | scores [0.5, 0.3, 0.2, 0.0] with names only for classes 0-2: the call succeeds, because class 3 is never looked up |
| Ensemble.ReportIsTopK | Backend/disease_ensemble.py:64-73 | the class indices of any report meeting the contract form a top-3 selection of the combined row |
| Ensemble.ReportDeterminedWithoutTies | Backend/disease_ensemble.py:61-74 | with no tied combined scores, any report meeting the contract is exactly what `predict_top3` returns |
| Ensemble.PercentagesInRange | Backend/disease_ensemble.py:72 | with input probabilities in [0, 1], every reported percentage lies in [0, 100] |
| Ensemble.ThreeClassScenario | Backend/disease_ensemble.py:56-74 | three classifiers that each give [0.1, 0.6, 0.3] yield class 1 at 60, class 2 at 30 and class 0 at 10, with title-cased names |

## Left out

- Opening and reading `./Data/Training.csv` (Backend/app.py:11-12) is not modelled. The first line is an input, and `None` stands for an exception raised by the open or the read.
- The `print` calls at Backend/app.py:18-24 are left out, because they are console output. If the `print` at line 18 raises, the list is already built and sorted, so line 25 still yields the full catalogue. That is the `Some(line)` result of `LoadSymptoms`, not `None`.
- The module-level `symptoms` global and the Flask app are left out, because they are process state and web plumbing. This covers `before_first_request`, the `/symptoms` route, and the `/predict` route, which is a stub returning an empty list (Backend/app.py:27-39).
- Backend/logging_config.py is left out, because it only wires up logging.
- The classifiers' `predict_proba` results are inputs, because they are calls into scikit-learn. The same goes for the `DiseaseEnsemble` constructor, which only stores them.
- Floating-point arithmetic is not modelled. Scores are exact reals, so the mean, the sums and the percentages carry no rounding error.
- Only the first sample's row, `combined[0]`, is modelled. Broadcasting along the sample axis is not modelled, because `predict_top3` reads only that row.
- Ensemble.PredictTop3: the percentage is 100 times the combined score as an exact real. It is not rounded to two decimals as a float (Backend/disease_ensemble.py:72), because the model uses exact reals instead of IEEE doubles.
- Ensemble.PredictTop3: with equal combined scores, the order of the tied classes is not specified by the contract. numpy's `argsort` does not fix it. `Ranking.ArgsortDescending` happens to put the larger index first.
- Text.Title: only ASCII letters count as cased. Non-ASCII case mappings and title-case digraphs of Python's `str.title` are not modelled.
- Text.Strip: `IsSpace` lists Python's whitespace characters explicitly. It is not derived from the Unicode database.
- The docstring of `predict_top3` (Backend/disease_ensemble.py:41-45) promises a list of three. The code returns `min(3, n)` for n classes, because slicing `[:3]` never fails. The model follows the code.
