// Ranking metrics: discounted gain against its ideal, recall, reciprocal rank and nearest-rank percentiles.
module RetrievalMetrics {
  import opened Text
  import opened Sets

  // 1 / log2(rank + 1), as a positive, strictly decreasing function of the position.
  type Discount = nat -> real

  ghost predicate Decreasing(d: Discount) {
    && (forall i: nat :: d(i) > 0.0)
    && (forall i: nat, j: nat | i < j :: d(i) > d(j))
  }

  ghost predicate NoRepeats(ids: seq<string>) {
    forall i, j | 0 <= i < j < |ids| :: ids[i] != ids[j]
  }

  function TopK(ranked: seq<string>, k: int): seq<string> {
    if k <= 0 then [] else if k < |ranked| then ranked[..k] else ranked
  }

  function Relevance(ids: seq<string>, expected: seq<string>): seq<bool> {
    seq(|ids|, i requires 0 <= i < |ids| => ids[i] in expected)
  }

  // Sum of the discounts at the relevant positions, counting positions from `at`.
  function Gain(rel: seq<bool>, d: Discount, at: nat): real
    decreases |rel|
  {
    if |rel| == 0 then 0.0 else (if rel[0] then d(at) else 0.0) + Gain(rel[1..], d, at + 1)
  }

  // The gain of m relevant results at the front.
  function Ideal(m: nat, d: Discount, at: nat): real
    decreases m
  {
    if m == 0 then 0.0 else d(at) + Ideal(m - 1, d, at + 1)
  }

  function IdealHits(expected: seq<string>, k: int): nat {
    if k <= 0 then 0 else if |expected| < k then |expected| else k
  }

  lemma {:induction false} GainSnoc(rel: seq<bool>, hit: bool, d: Discount, at: nat)
    ensures Gain(rel + [hit], d, at) == Gain(rel, d, at) + if hit then d(at + |rel|) else 0.0
    decreases |rel|
  {
    if |rel| == 0 {
      assert (rel + [hit])[1..] == [];
    } else {
      assert (rel + [hit])[1..] == rel[1..] + [hit];
      GainSnoc(rel[1..], hit, d, at + 1);
    }
  }

  lemma {:induction false} IdealSnoc(m: nat, d: Discount, at: nat)
    ensures Ideal(m + 1, d, at) == Ideal(m, d, at) + d(at + m)
    decreases m
  {
    if m > 0 { IdealSnoc(m - 1, d, at + 1); }
  }

  method NdcgAtK(expected: seq<string>, ranked: seq<string>, k: int, d: Discount) returns (r: real)
    requires Decreasing(d)
    ensures k <= 0 || expected == [] ==> r == 0.0
    ensures k > 0 && expected != [] ==>
      Ideal(IdealHits(expected, k), d, 0) > 0.0
      && r == Gain(Relevance(TopK(ranked, k), expected), d, 0) / Ideal(IdealHits(expected, k), d, 0)
  {
    if k <= 0 || |expected| == 0 { return 0.0; }
    var top := TopK(ranked, k);
    ghost var rel := Relevance(top, expected);
    var dcg := 0.0;
    for i := 0 to |top|
      invariant dcg == Gain(rel[..i], d, 0)
    {
      assert rel[..i + 1] == rel[..i] + [rel[i]];
      GainSnoc(rel[..i], rel[i], d, 0);
      if top[i] in expected { dcg := dcg + d(i); }
    }
    assert rel[..|top|] == rel;
    var hits := IdealHits(expected, k);
    var idcg := 0.0;
    for i := 0 to hits
      invariant idcg == Ideal(i, d, 0)
    {
      IdealSnoc(i, d, 0);
      idcg := idcg + d(i);
    }
    IdealPositive(hits, d, 0);
    r := dcg / idcg;
  }

  lemma {:induction false} IdealPositive(m: nat, d: Discount, at: nat)
    requires Decreasing(d)
    ensures Ideal(m, d, at) >= 0.0 && (m > 0 ==> Ideal(m, d, at) > 0.0)
    decreases m
  {
    if m > 0 { IdealPositive(m - 1, d, at + 1); }
  }

  // ----- the gain never exceeds the ideal -----

  function Hits(rel: seq<bool>): nat
    decreases |rel|
  {
    if |rel| == 0 then 0 else (if rel[0] then 1 else 0) + Hits(rel[1..])
  }

  ghost predicate AllFirst(rel: seq<bool>, m: nat) {
    m <= |rel| && forall i | 0 <= i < m :: rel[i]
  }

  // Later positions are worth less.
  lemma {:induction false} IdealLater(m: nat, d: Discount, at: nat)
    requires Decreasing(d)
    ensures Ideal(m, d, at + 1) <= Ideal(m, d, at) && (m > 0 ==> Ideal(m, d, at + 1) < Ideal(m, d, at))
    decreases m
  {
    if m > 0 { IdealLater(m - 1, d, at + 1); }
  }

  lemma {:induction false} GainBound(rel: seq<bool>, m: nat, d: Discount, at: nat)
    requires Decreasing(d) && Hits(rel) <= m
    ensures 0.0 <= Gain(rel, d, at) <= Ideal(m, d, at)
    ensures Gain(rel, d, at) == Ideal(m, d, at) <==> AllFirst(rel, m)
    decreases |rel|
  {
    IdealPositive(m, d, at);
    if |rel| > 0 {
      if rel[0] {
        GainBound(rel[1..], m - 1, d, at + 1);
        assert forall i | 0 < i < |rel| :: rel[i] == rel[1..][i - 1];
        AllFirstTail(rel, m);
      } else {
        GainBound(rel[1..], m, d, at + 1);
        IdealLater(m, d, at);
      }
    }
  }

  lemma AllFirstTail(rel: seq<bool>, m: nat)
    requires |rel| > 0 && rel[0] && m > 0
    ensures AllFirst(rel, m) <==> AllFirst(rel[1..], m - 1)
  {
    if AllFirst(rel[1..], m - 1) {
      forall i | 0 <= i < m ensures rel[i] {
        if i > 0 { assert rel[1..][i - 1]; }
      }
    }
  }

  // Results without repeats contain each expected id at most once.
  lemma {:induction false} HitsAreExpected(ids: seq<string>, expected: seq<string>, found: set<string>)
    requires NoRepeats(ids) && found <= (set e | e in expected) && forall id | id in ids :: id !in found
    ensures Hits(Relevance(ids, expected)) + |found| <= |set e | e in expected|
    ensures Hits(Relevance(ids, expected)) <= |ids|
    decreases |ids|
  {
    var all := set e | e in expected;
    if |ids| == 0 {
      SubsetSize(found, all);
    } else {
      assert Relevance(ids, expected)[1..] == Relevance(ids[1..], expected);
      assert ids[0] in ids && forall id | id in ids[1..] :: id in ids;
      if ids[0] in expected {
        HitsAreExpected(ids[1..], expected, found + {ids[0]});
      } else {
        HitsAreExpected(ids[1..], expected, found);
      }
    }
  }

  lemma {:induction false} SetSize(ids: seq<string>)
    ensures |set e | e in ids| <= |ids|
    decreases |ids|
  {
    if |ids| > 0 {
      SetSize(ids[1..]);
      assert (set e | e in ids) == {ids[0]} + (set e | e in ids[1..]);
    }
  }

  // The first k results hold at most as many relevant ones as the ideal ranking counts.
  predicate WithinIdeal(expected: seq<string>, ranked: seq<string>, k: int) {
    Hits(Relevance(TopK(ranked, k), expected)) <= IdealHits(expected, k)
  }

  lemma NoRepeatsWithinIdeal(expected: seq<string>, ranked: seq<string>, k: int)
    requires NoRepeats(ranked)
    ensures WithinIdeal(expected, ranked, k)
  {
    HitsAreExpected(TopK(ranked, k), expected, {});
    SetSize(expected);
  }

  // With at most as many relevant results as the ideal counts, nDCG lies between 0 and 1, and is 1 exactly
  // when the first min(k, number expected) results are all expected ones.
  lemma NdcgBound(expected: seq<string>, ranked: seq<string>, k: int, d: Discount)
    requires Decreasing(d) && WithinIdeal(expected, ranked, k) && k > 0 && expected != []
    ensures var m, rel := IdealHits(expected, k), Relevance(TopK(ranked, k), expected);
      && m > 0 && Ideal(m, d, 0) > 0.0
      && 0.0 <= Gain(rel, d, 0) / Ideal(m, d, 0) <= 1.0
      && (Gain(rel, d, 0) / Ideal(m, d, 0) == 1.0 <==> AllFirst(rel, m))
  {
    var m, rel := IdealHits(expected, k), Relevance(TopK(ranked, k), expected);
    GainBound(rel, m, d, 0);
    IdealPositive(m, d, 0);
    Ratio(Gain(rel, d, 0), Ideal(m, d, 0));
  }

  lemma Ratio(a: real, b: real)
    requires b > 0.0 && 0.0 <= a <= b
    ensures 0.0 <= a / b <= 1.0 && (a / b == 1.0 <==> a == b)
  {
  }

  // Exactly when the gain stays within the ideal for every discount: no more relevant results, counted
  // with repetition, than the ideal ranking counts.
  lemma BoundExact(expected: seq<string>, ranked: seq<string>, k: int)
    ensures (forall d: Discount | Decreasing(d) ::
               Gain(Relevance(TopK(ranked, k), expected), d, 0) <= Ideal(IdealHits(expected, k), d, 0))
      <==> WithinIdeal(expected, ranked, k)
  {
    var m, rel := IdealHits(expected, k), Relevance(TopK(ranked, k), expected);
    if Hits(rel) <= m {
      forall d: Discount | Decreasing(d) ensures Gain(rel, d, 0) <= Ideal(m, d, 0) { GainBound(rel, m, d, 0); }
    } else {
      var d := NearlyFlat(m);
      NearlyFlatDecreasing(m);
      FlatGain(rel, m, 0);
      FlatIdeal(m, m, 0);
      Squares(Hits(rel), m);
      assert Gain(rel, d, 0) > Ideal(m, d, 0);
    }
  }

  // A discount so flat that one more relevant result outweighs every position.
  function NearlyFlat(m: nat): Discount {
    (i: nat) => (m + 1) as real + 1.0 / (i + 1) as real
  }

  lemma NearlyFlatDecreasing(m: nat)
    ensures Decreasing(NearlyFlat(m))
    ensures forall i: nat :: (m + 1) as real < NearlyFlat(m)(i) <= (m + 2) as real
  {
    forall i: nat ensures (m + 1) as real < NearlyFlat(m)(i) <= (m + 2) as real { Reciprocal(i, i + 1); }
    forall i: nat, j: nat | i < j ensures NearlyFlat(m)(i) > NearlyFlat(m)(j) { Reciprocal(i, j); }
  }

  lemma Reciprocal(i: nat, j: nat)
    requires i < j
    ensures 0.0 < 1.0 / (j + 1) as real < 1.0 / (i + 1) as real <= 1.0
  {
    var a, b := (i + 1) as real, (j + 1) as real;
    assert (b - a) / (a * b) > 0.0;
    assert 1.0 / a - 1.0 / b == (b - a) / (a * b);
  }

  lemma {:induction false} FlatGain(rel: seq<bool>, m: nat, at: nat)
    ensures Gain(rel, NearlyFlat(m), at) >= (Hits(rel) * (m + 1)) as real
    decreases |rel|
  {
    hide NearlyFlat;
    NearlyFlatDecreasing(m);
    if |rel| > 0 {
      FlatGain(rel[1..], m, at + 1);
      assert (Hits(rel[1..]) + 1) * (m + 1) == Hits(rel[1..]) * (m + 1) + (m + 1);
    }
  }

  lemma {:induction false} FlatIdeal(n: nat, m: nat, at: nat)
    ensures Ideal(n, NearlyFlat(m), at) <= (n * (m + 2)) as real
    decreases n
  {
    hide NearlyFlat;
    NearlyFlatDecreasing(m);
    if n > 0 {
      FlatIdeal(n - 1, m, at + 1);
      assert n * (m + 2) == (n - 1) * (m + 2) + (m + 2);
    }
  }

  lemma Squares(hits: nat, m: nat)
    requires hits > m
    ensures hits * (m + 1) > m * (m + 2)
  {
    assert hits * (m + 1) >= (m + 1) * (m + 1);
  }

  // The smallest case outside the bound, which every discount then exceeds: one expected id returned twice
  // in front.
  lemma RepeatsExceedOne(id: string, d: Discount)
    requires Decreasing(d)
    ensures !WithinIdeal([id], [id, id], 2)
    ensures Gain(Relevance(TopK([id, id], 2), [id]), d, 0) > Ideal(IdealHits([id], 2), d, 0)
  {
    var rel := Relevance(TopK([id, id], 2), [id]);
    assert rel == [true, true];
    assert rel[1..] == [true] && [true][1..] == [];
    assert Gain([true], d, 1) == d(1);
    assert Hits([true]) == 1 + Hits([]) && Hits(rel) == 1 + Hits([true]);
    assert Ideal(1, d, 0) == d(0) + Ideal(0, d, 1);
  }

  // ----- recall and reciprocal rank -----

  function Found(expected: seq<string>, top: seq<string>): nat
    decreases |expected|
  {
    if |expected| == 0 then 0
    else Found(expected[..|expected| - 1], top) + if expected[|expected| - 1] in top then 1 else 0
  }

  method RecallAtK(expected: seq<string>, ranked: seq<string>, k: int) returns (r: real)
    ensures k <= 0 || expected == [] ==> r == 0.0
    ensures k > 0 && expected != [] ==> r == Found(expected, TopK(ranked, k)) as real / |expected| as real
  {
    if k <= 0 || |expected| == 0 { return 0.0; }
    var top, hits := TopK(ranked, k), 0;
    for i := 0 to |expected|
      invariant hits == Found(expected[..i], top)
    {
      assert expected[..i + 1][..i] == expected[..i];
      if expected[i] in top { hits := hits + 1; }
    }
    assert expected[..|expected|] == expected;
    return hits as real / |expected| as real;
  }

  lemma {:induction false} FoundGrows(expected: seq<string>, a: seq<string>, b: seq<string>)
    requires forall id | id in a :: id in b
    ensures Found(expected, a) <= Found(expected, b) <= |expected|
    decreases |expected|
  {
    if |expected| > 0 { FoundGrows(expected[..|expected| - 1], a, b); }
  }

  // The id is among the first k results.
  ghost predicate InFirst(ranked: seq<string>, k: int, id: string) {
    exists i | 0 <= i < |ranked| && i < k :: ranked[i] == id
  }

  // What recall counts: the expected ids, each as often as it is expected, that are among the first k.
  lemma {:induction false} FoundExact(expected: seq<string>, ranked: seq<string>, k: int)
    ensures Found(expected, TopK(ranked, k)) == |Counted(expected, ranked, k)|
    decreases |expected|
  {
    if |expected| > 0 {
      FoundExact(expected[..|expected| - 1], ranked, k);
      TopKMembers(ranked, k, expected[|expected| - 1]);
      CountedLast(expected, ranked, k);
      hide TopK, InFirst, Counted;
    }
  }

  ghost function Counted(expected: seq<string>, ranked: seq<string>, k: int): set<nat> {
    set i: nat | i < |expected| && InFirst(ranked, k, expected[i])
  }

  lemma CountedLast(expected: seq<string>, ranked: seq<string>, k: int)
    requires |expected| > 0
    ensures var n := |expected| - 1;
      |Counted(expected, ranked, k)| == |Counted(expected[..n], ranked, k)| + if InFirst(ranked, k, expected[n]) then 1 else 0
  {
    hide InFirst;
    var n := |expected| - 1;
    var was, now := Counted(expected[..n], ranked, k), Counted(expected, ranked, k);
    assert now == if InFirst(ranked, k, expected[n]) then was + {n} else was;
  }

  lemma TopKMembers(ranked: seq<string>, k: int, id: string)
    ensures id in TopK(ranked, k) <==> InFirst(ranked, k, id)
  {
    var top := TopK(ranked, k);
    if id in top {
      var i :| 0 <= i < |top| && top[i] == id;
      assert ranked[i] == id;
    }
    if InFirst(ranked, k, id) {
      var i :| 0 <= i < |ranked| && i < k && ranked[i] == id;
      assert top[i] == id;
    }
  }

  // The relevance list is as long as the ranking or k, and marks the expected ids; the ideal counts as
  // many as are expected, or k.
  lemma RelevanceExact(expected: seq<string>, ranked: seq<string>, k: nat)
    ensures var rel := Relevance(TopK(ranked, k), expected);
      && |rel| == (if k < |ranked| then k else |ranked|)
      && (forall i: nat | i < |rel| :: rel[i] <==> ranked[i] in expected)
      && IdealHits(expected, k) == if k < |expected| then k else |expected|
  {
  }

  // Recall is a fraction, never falls as k grows, and is 1 once every expected id is in the top k.
  lemma RecallMonotone(expected: seq<string>, ranked: seq<string>, k: int, l: int)
    requires 0 < k <= l && expected != []
    ensures var n := |expected| as real;
      0.0 <= Found(expected, TopK(ranked, k)) as real / n <= Found(expected, TopK(ranked, l)) as real / n <= 1.0
  {
    var a, b := TopK(ranked, k), TopK(ranked, l);
    assert a <= b;
    assert forall id | id in a :: id in b;
    FoundGrows(expected, a, b);
    Fractions(Found(expected, a), Found(expected, b), |expected|);
  }

  lemma Fractions(a: nat, b: nat, n: nat)
    requires a <= b <= n && n > 0
    ensures 0.0 <= a as real / n as real <= b as real / n as real <= 1.0
  {
    var x, y, m := a as real, b as real, n as real;
    assert x / m <= y / m by { assert (y - x) / m >= 0.0; }
    assert y / m <= 1.0 by { assert (m - y) / m >= 0.0; }
  }

  // The reciprocal of the first relevant position.
  method Mrr(expected: seq<string>, ranked: seq<string>) returns (r: real)
    ensures (forall id | id in ranked :: id !in expected) ==> r == 0.0
    ensures forall i: nat | i < |ranked| && ranked[i] in expected && (forall j: nat | j < i :: ranked[j] !in expected) ::
      r == 1.0 / (i + 1) as real
  {
    for i := 0 to |ranked|
      invariant forall j: nat | j < i :: ranked[j] !in expected
    {
      if ranked[i] in expected { return 1.0 / (i + 1) as real; }
    }
    return 0.0;
  }

  // ----- nearest-rank percentiles -----

  function Ceil(x: real): int { -((-x).Floor) }

  // p per cent of n samples.
  function Share(p: real, n: nat): real { (p / 100.0) * (n as real) }

  // Index of the p-th percentile among n sorted samples.
  function RankIndex(p: real, n: nat): (i: nat)
    requires n > 0
    ensures i < n
  {
    var c := Ceil(Share(p, n)) - 1;
    if n - 1 < c then n - 1 else if c < 0 then 0 else c
  }

  ghost predicate Ascending(s: seq<real>) {
    forall i, j | 0 <= i < j < |s| :: s[i] <= s[j]
  }

  lemma CeilGrows(x: real, y: real)
    requires x <= y
    ensures Ceil(x) <= Ceil(y)
  {
  }

  lemma CeilIs(x: real)
    ensures x <= Ceil(x) as real < x + 1.0
  {
  }

  lemma ProductNotNegative(x: real, m: real)
    requires x >= 0.0 && m >= 0.0
    ensures x * m >= 0.0
  {
  }

  lemma ShareGrows(p: real, q: real, n: nat)
    requires p <= q
    ensures Share(p, n) <= Share(q, n)
  {
    var a, b, m := p / 100.0, q / 100.0, n as real;
    ProductNotNegative(b - a, m);
    assert (b - a) * m == b * m - a * m;
  }

  lemma RankGrows(p: real, q: real, n: nat)
    requires p <= q && n > 0
    ensures RankIndex(p, n) <= RankIndex(q, n)
  {
    hide Share, Ceil;
    ShareGrows(p, q, n);
    CeilGrows(Share(p, n), Share(q, n));
  }

  // A larger percentile never names a smaller sample.
  lemma PercentilesMonotone(s: seq<real>, p: real, q: real)
    requires |s| > 0 && Ascending(s) && p <= q
    ensures s[RankIndex(p, |s|)] <= s[RankIndex(q, |s|)]
  {
    hide RankIndex;
    RankGrows(p, q, |s|);
  }

  // The nearest rank: the samples up to the percentile are at least p per cent, and those strictly before
  // it are fewer.
  lemma NearestRank(n: nat, p: real)
    requires n > 0 && 0.0 < p <= 100.0
    ensures (RankIndex(p, n) + 1) as real >= Share(p, n) > RankIndex(p, n) as real
  {
    ShareGrows(p, 100.0, n);
    WholeShare(n);
    SharePositive(p, n);
    hide Share, Ceil;
    CeilIs(Share(p, n));
  }

  lemma WholeShare(n: nat)
    ensures Share(100.0, n) == n as real
  {
  }

  lemma SharePositive(p: real, n: nat)
    requires p > 0.0 && n > 0
    ensures Share(p, n) > 0.0
  {
    var a, m := p / 100.0, n as real;
    assert a > 0.0 && m >= 1.0;
    ProductNotNegative(a, m - 1.0);
    assert a * m == a * (m - 1.0) + a;
  }
}
