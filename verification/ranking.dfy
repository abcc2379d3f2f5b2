/** Ranking class indices by score, as `predict_top3` does with numpy:
    `scores.argsort()[::-1]` lists every class index once, highest score
    first, and `[:k]` keeps the first k of them. numpy does not fix the
    order of equal scores; this model puts the larger index first (what a
    stable ascending sort gives once reversed), and the contracts below do
    not depend on that choice. */
module Ranking {

  function Min(a: nat, b: nat): nat {
    if a <= b then a else b
  }

  /** Every entry is a class index of `scores`. */
  predicate ValidIndices(scores: seq<real>, idx: seq<nat>) {
    forall i :: 0 <= i < |idx| ==> idx[i] < |scores|
  }

  /** No class index occurs twice. */
  predicate Distinct(idx: seq<nat>) {
    forall i, j :: 0 <= i < j < |idx| ==> idx[i] != idx[j]
  }

  /** Read along `idx`, the scores never increase. */
  predicate ScoresNonIncreasing(scores: seq<real>, idx: seq<nat>)
    requires ValidIndices(scores, idx)
  {
    forall i, j :: 0 <= i < j < |idx| ==> scores[idx[i]] >= scores[idx[j]]
  }

  /** What a top-k selection must be: min(k, n) distinct class indices,
      scores non-increasing along them, and every chosen class scoring at
      least as high as every class left out. */
  predicate IsTopK(scores: seq<real>, k: nat, top: seq<nat>) {
    && |top| == Min(k, |scores|)
    && ValidIndices(scores, top)
    && Distinct(top)
    && ScoresNonIncreasing(scores, top)
    && forall i, c :: 0 <= i < |top| && 0 <= c < |scores| && c !in top ==>
         scores[top[i]] >= scores[c]
  }

  /** Putting a class in front of a ranking keeps it non-increasing when
      the class scores at least as high as every class already ranked. */
  lemma PrependKeepsOrder(scores: seq<real>, x: nat, ranked: seq<nat>)
    requires x < |scores|
    requires ValidIndices(scores, ranked) && ScoresNonIncreasing(scores, ranked)
    requires forall j :: 0 <= j < |ranked| ==> scores[x] >= scores[ranked[j]]
    ensures ValidIndices(scores, [x] + ranked) && ScoresNonIncreasing(scores, [x] + ranked)
  {
    var r := [x] + ranked;
    forall i, j | 0 <= i < j < |r|
      ensures scores[r[i]] >= scores[r[j]]
    {
      assert r[j] == ranked[j - 1];
      if i > 0 {
        assert r[i] == ranked[i - 1];
      }
    }
  }

  /** A class not yet listed can go in front of a list without repeats. */
  lemma PrependDistinct(x: nat, idx: seq<nat>)
    requires Distinct(idx) && x !in idx
    ensures Distinct([x] + idx)
  {
    var r := [x] + idx;
    forall i, j | 0 <= i < j < |r|
      ensures r[i] != r[j]
    {
      assert r[j] == idx[j - 1];
      if i > 0 {
        assert r[i] == idx[i - 1];
      }
    }
  }

  /** Keeping the head of a repeat-free list in front of the tail with a
      new class inserted leaves no repeats. */
  lemma InsertBehindHeadDistinct(ranked: seq<nat>, x: nat, rest: seq<nat>)
    requires |ranked| > 0
    requires forall v: nat :: v in rest <==> v == x || v in ranked[1..]
    requires Distinct(ranked[1..]) && x !in ranked[1..] ==> Distinct(rest)
    ensures Distinct(ranked) && x !in ranked ==> Distinct([ranked[0]] + rest)
  {
    if Distinct(ranked) && x !in ranked {
      forall m | 0 <= m < |ranked[1..]|
        ensures ranked[1..][m] != ranked[0]
      {
        assert ranked[1..][m] == ranked[m + 1];
      }
      assert Distinct(ranked[1..]) by {
        forall i, j | 0 <= i < j < |ranked[1..]|
          ensures ranked[1..][i] != ranked[1..][j]
        {
          assert ranked[1..][i] == ranked[i + 1] && ranked[1..][j] == ranked[j + 1];
        }
      }
      PrependDistinct(ranked[0], rest);
    }
  }

  /** Inserts class `x` into a ranking, before the first class whose score
      is not above `x`'s. */
  function InsertByScore(scores: seq<real>, x: nat, ranked: seq<nat>): (r: seq<nat>)
    requires x < |scores|
    requires ValidIndices(scores, ranked) && ScoresNonIncreasing(scores, ranked)
    ensures |r| == |ranked| + 1
    ensures forall v: nat :: v in r <==> v == x || v in ranked
    ensures ValidIndices(scores, r) && ScoresNonIncreasing(scores, r)
    ensures Distinct(ranked) && x !in ranked ==> Distinct(r)
  {
    if |ranked| == 0 || scores[x] >= scores[ranked[0]] then
      PrependKeepsOrder(scores, x, ranked);
      [x] + ranked
    else
      var head, tail := ranked[0], ranked[1..];
      assert ranked == [head] + tail;
      var rest := InsertByScore(scores, x, tail);
      assert forall j :: 0 <= j < |rest| ==> scores[head] >= scores[rest[j]] by {
        forall j | 0 <= j < |rest|
          ensures scores[head] >= scores[rest[j]]
        {
          assert rest[j] in rest;
          if rest[j] != x {
            var m :| 0 <= m < |tail| && tail[m] == rest[j];
            assert ranked[m + 1] == rest[j];
          }
        }
      }
      PrependKeepsOrder(scores, head, rest);
      InsertBehindHeadDistinct(ranked, x, rest);
      [head] + rest
  }

  /** The classes 0 .. m-1 ranked by score. */
  function RankPrefix(scores: seq<real>, m: nat): (r: seq<nat>)
    requires m <= |scores|
    ensures |r| == m
    ensures forall v: nat :: v in r <==> v < m
    ensures Distinct(r)
    ensures ValidIndices(scores, r) && ScoresNonIncreasing(scores, r)
  {
    if m == 0 then []
    else InsertByScore(scores, m - 1, RankPrefix(scores, m - 1))
  }

  /** `scores.argsort()[::-1]`: every class index exactly once, with scores
      non-increasing along the list. */
  function ArgsortDescending(scores: seq<real>): (ranked: seq<nat>)
    ensures |ranked| == |scores|
    ensures forall v: nat :: v in ranked <==> v < |scores|
    ensures Distinct(ranked)
    ensures ValidIndices(scores, ranked) && ScoresNonIncreasing(scores, ranked)
  {
    RankPrefix(scores, |scores|)
  }

  /** A prefix of a full descending ranking beats every class outside it. */
  lemma PrefixDominates(scores: seq<real>, ranked: seq<nat>, m: nat)
    requires m <= |ranked|
    requires forall v: nat :: v in ranked <==> v < |scores|
    requires ValidIndices(scores, ranked) && ScoresNonIncreasing(scores, ranked)
    ensures forall i, c :: 0 <= i < m && 0 <= c < |scores| && c !in ranked[..m] ==>
      scores[ranked[i]] >= scores[c]
  {
    forall i, c | 0 <= i < m && 0 <= c < |scores| && c !in ranked[..m]
      ensures scores[ranked[i]] >= scores[c]
    {
      forall j | 0 <= j < m
        ensures ranked[j] != c
      {
        assert ranked[j] == ranked[..m][j];
      }
      assert c in ranked;
      var q :| 0 <= q < |ranked| && ranked[q] == c;
    }
  }

  /** `scores.argsort()[::-1][:k]`: a top-k selection. */
  function TopK(scores: seq<real>, k: nat): (top: seq<nat>)
    ensures IsTopK(scores, k, top)
  {
    var ranked := ArgsortDescending(scores);
    var m := Min(k, |scores|);
    PrefixDominates(scores, ranked, m);
    ranked[..m]
  }

  /** Class `c` can be among three chosen classes: no three classes score
      strictly above it. */
  predicate Contender(scores: seq<real>, c: nat) {
    && c < |scores|
    && !exists a, b, d :: 0 <= a < b < d < |scores|
         && scores[a] > scores[c] && scores[b] > scores[c] && scores[d] > scores[c]
  }

  /** Every class a top-3 selection chooses is a contender: two classes
      scoring above a chosen one are chosen too, and a third one would not
      fit among the three. */
  lemma ChosenIsContender(scores: seq<real>, top: seq<nat>, x: nat)
    requires IsTopK(scores, 3, top)
    requires x in top
    ensures Contender(scores, x)
  {
    var ix :| 0 <= ix < |top| && top[ix] == x;
    forall a, b, d | 0 <= a < b < d < |scores| && scores[a] > scores[x] && scores[b] > scores[x]
      ensures scores[d] <= scores[x]
    {
      assert a in top;
      assert b in top;
      var ia :| 0 <= ia < |top| && top[ia] == a;
      var ib :| 0 <= ib < |top| && top[ib] == b;
      assert ia != ib && ia != ix && ib != ix;
      assert |top| == 3;
      assert forall p :: 0 <= p < |top| ==> top[p] == a || top[p] == b || top[p] == x;
      if d != x {
        assert d !in top;
      }
    }
  }

  /** No two classes share a score. */
  predicate NoTies(scores: seq<real>) {
    forall i, j :: 0 <= i < j < |scores| ==> scores[i] != scores[j]
  }

  /** Where two top-k selections agree before position p, the class the
      second puts at p scores no higher than the class the first puts there. */
  lemma TopKScoreAt(scores: seq<real>, k: nat, a: seq<nat>, b: seq<nat>, p: nat)
    requires IsTopK(scores, k, a) && IsTopK(scores, k, b)
    requires p < |a| && a[..p] == b[..p]
    ensures scores[b[p]] <= scores[a[p]]
  {
    var y := b[p];
    forall q | 0 <= q < p
      ensures a[q] != y
    {
      assert a[q] == a[..p][q] == b[..p][q] == b[q];
    }
    if y in a {
      var q :| 0 <= q < |a| && a[q] == y;
    }
  }

  /** Two top-k selections that agree before position p agree at p when no
      two classes share a score. */
  lemma TopKAgreeAt(scores: seq<real>, k: nat, a: seq<nat>, b: seq<nat>, p: nat)
    requires IsTopK(scores, k, a) && IsTopK(scores, k, b)
    requires NoTies(scores)
    requires p < |a| && a[..p] == b[..p]
    ensures a[p] == b[p]
  {
    TopKScoreAt(scores, k, a, b, p);
    TopKScoreAt(scores, k, b, a, p);
  }

  /** Without ties, the top-k selection is fully determined: any two lists
      meeting the top-k contract are equal. */
  lemma TopKUnique(scores: seq<real>, k: nat, a: seq<nat>, b: seq<nat>)
    requires IsTopK(scores, k, a) && IsTopK(scores, k, b)
    requires NoTies(scores)
    ensures a == b
  {
    var p := 0;
    while p < |a|
      invariant p <= |a|
      invariant a[..p] == b[..p]
    {
      TopKAgreeAt(scores, k, a, b, p);
      assert a[..p + 1] == a[..p] + [a[p]];
      assert b[..p + 1] == b[..p] + [b[p]];
      p := p + 1;
    }
    assert a == a[..|a|] && b == b[..|b|];
  }
}
