/**
 The two lists of `hybrid_search`, what flooring their sums to twelve decimals cannot do, and the
 confidence gate over the fused answer (`pre_flight`).
 */
module Hybrid {
  import opened Seqs
  import opened Heaps
  import opened Fusion
  import opened CloseSums

  const LEXICAL := "lexical"
  const VECTOR := "vector"

  function TwoLists(lexical: seq<int>, vector: seq<int>): seq<RankedList> {
    [RankedList(LEXICAL, lexical), RankedList(VECTOR, vector)]
  }

  /** The best ranks of a chunk in the two lists. */
  function RanksOf(lexical: seq<int>, vector: seq<int>, id: int): Ranks {
    BestRanks(Places(TwoLists(lexical, vector)), id)
  }

  predicate Both(ranks: Ranks) {
    LEXICAL in ranks && VECTOR in ranks
  }

  function ShareOf(ranks: Ranks, name: string, k: nat): real
    requires name in ranks ==> ranks[name] >= 1
  {
    if name in ranks then Share(k, ranks[name]) else 0.0
  }

  /** Ranks of two lists: those two names at most, no rank beyond the longer list. */
  ghost predicate TwoRanks(ranks: Ranks, longest: nat) {
    && ranks.Keys <= {LEXICAL, VECTOR}
    && forall name :: name in ranks ==> 1 <= ranks[name] <= longest
  }

  lemma PlacesOfTwo(lexical: seq<int>, vector: seq<int>, p: Place)
    ensures p in Places(TwoLists(lexical, vector)) <==>
              p in PlacesOf(RankedList(LEXICAL, lexical)) || p in PlacesOf(RankedList(VECTOR, vector))
  {
    var lists := TwoLists(lexical, vector);
    assert lists[..1] == [lists[0]] && lists[..1][..0] == [];
    assert Places(lists) == Places(lists[..1]) + PlacesOf(lists[1]);
    assert Places(lists[..1]) == Places([]) + PlacesOf(lists[0]);
  }

  lemma RanksAreTwo(lexical: seq<int>, vector: seq<int>, id: int)
    ensures TwoRanks(RanksOf(lexical, vector, id), Max(|lexical|, |vector|))
    ensures LEXICAL in RanksOf(lexical, vector, id) <==> id in lexical
    ensures VECTOR in RanksOf(lexical, vector, id) <==> id in vector
  {
    var places, ranks := Places(TwoLists(lexical, vector)), RanksOf(lexical, vector, id);
    forall name | name in ranks
      ensures name in {LEXICAL, VECTOR} && 1 <= ranks[name] <= Max(|lexical|, |vector|)
      ensures if name == LEXICAL then id in lexical else id in vector
    {
      BestRanksLeast(places, id, name);
      PlacesOfTwo(lexical, vector, Place(name, id, ranks[name]));
    }
    if id in lexical {
      var i :| 0 <= i < |lexical| && lexical[i] == id;
      Found(lexical, vector, LEXICAL, lexical, id, i);
    }
    if id in vector {
      var i :| 0 <= i < |vector| && vector[i] == id;
      Found(lexical, vector, VECTOR, vector, id, i);
    }
  }

  lemma Found(lexical: seq<int>, vector: seq<int>, name: string, ids: seq<int>, id: int, i: nat)
    requires (name == LEXICAL && ids == lexical) || (name == VECTOR && ids == vector)
    requires i < |ids| && ids[i] == id
    ensures name in RanksOf(lexical, vector, id) && RanksOf(lexical, vector, id)[name] <= i + 1
  {
    var p := Place(name, id, i + 1);
    assert PlacesOf(RankedList(name, ids))[i] == p;
    PlacesOfTwo(lexical, vector, p);
    BestRanksLeast(Places(TwoLists(lexical, vector)), id, name);
    assert RankedAt(Places(TwoLists(lexical, vector)), name, id, i + 1);
  }

  /** The sum over two names, spelled out. */
  lemma RrfOfTwo(ranks: Ranks, longest: nat, k: nat)
    requires TwoRanks(ranks, longest)
    ensures Positive(ranks) && Rrf(ranks, k) == ShareOf(ranks, LEXICAL, k) + ShareOf(ranks, VECTOR, k)
  {
    var rest := ranks;
    if LEXICAL in ranks {
      RrfTakes(ranks, k, LEXICAL);
      rest := ranks - {LEXICAL};
    }
    if VECTOR in rest {
      RrfTakes(rest, k, VECTOR);
      rest := rest - {VECTOR};
    }
    assert rest.Keys == {};
    assert rest == map[];
    RrfNothing(k);
  }

  // ------------------------------------------------------------- when flooring is faithful

  /** Two sums keep their order, strict or equal, when floored. */
  ghost predicate KeepsOrder(x: real, y: real) {
    && (Floor12(x) < Floor12(y) <==> x < y)
    && (Floor12(x) == Floor12(y) <==> x == y)
  }

  /** Flooring neither merges two different sums of two lists up to that long nor changes their order. */
  ghost predicate Faithful(longest: nat) {
    forall ranks, ranks' :: TwoRanks(ranks, longest) && TwoRanks(ranks', longest) ==>
      KeepsOrder(Rrf(ranks, RRF_K), Rrf(ranks', RRF_K))
  }

  lemma KeepsOrderIfApart(x: real, y: real)
    requires x < y ==> x + 1.0 / SCALE <= y
    requires y < x ==> y + 1.0 / SCALE <= x
    ensures KeepsOrder(x, y)
  {
    if x < y {
      FloorApart(x, y);
    } else if y < x {
      FloorApart(y, x);
    }
  }

  /** A sum as a fraction: over the product of its two denominators, or over the one it has. */
  lemma AsFraction(ranks: Ranks, longest: nat) returns (a: int, b: int, d: int, e: int)
    requires TwoRanks(ranks, longest) && longest <= 972
    ensures b >= 1 && Rrf(ranks, RRF_K) == a as real / b as real
    ensures if Both(ranks) then 61 <= d <= 1032 && 61 <= e <= 1032 && a == d + e && b == d * e else b <= 1032
  {
    RrfOfTwo(ranks, longest, RRF_K);
    var c;
    c, d := ShareFraction(ranks, LEXICAL);
    a, e := ShareFraction(ranks, VECTOR);
    if Both(ranks) {
      SumOfReciprocals(d, e);
      a, b := d + e, d * e;
    } else if LEXICAL in ranks {
      a, b := c, d;
    } else {
      b := e;
    }
  }

  lemma ShareFraction(ranks: Ranks, name: string) returns (a: int, b: int)
    requires TwoRanks(ranks, 972)
    ensures if name in ranks then a == 1 && 61 <= b <= 1032 else a == 0 && b == 1
    ensures ShareOf(ranks, name, RRF_K) == a as real / b as real
  {
    a, b := if name in ranks then 1 else 0, if name in ranks then 60 + ranks[name] else 1;
  }

  lemma SumOfReciprocals(d: int, e: int)
    requires d >= 1 && e >= 1
    ensures d * e >= 1 && 1.0 / d as real + 1.0 / e as real == (d + e) as real / (d * e) as real
  {
    var x, y := d as real, e as real;
    assert 1.0 / x == y / (x * y) && 1.0 / y == x / (x * y);
  }

  /**
   Different fractions are 1e-12 apart if their denominators' product is up to 1e12, or twice that when
   they differ by two over it.
   */
  lemma FractionsApart(a: int, b: int, c: int, d: int)
    requires b >= 1 && d >= 1 && a as real / b as real < c as real / d as real
    requires b * d <= 1000000000000 || (c * b - a * d != 1 && b * d <= 2000000000000)
    ensures a as real / b as real + 1.0 / SCALE <= c as real / d as real
  {
    var p, q := b as real, d as real;
    var x, y, n := a as real / p, c as real / q, c * b - a * d;
    CrossDifference(x, p, y, q, a, b, c, d);
    assert p * q == (b * d) as real > 0.0;
    assert (y - x) * (p * q) > 0.0;
    assert n > 0;
    if n == 1 {
      QuotientBound(y - x, p * q, 1.0);
    } else {
      assert (y - x) * (p * q) >= 2.0;
      QuotientBound(y - x, p * q, 2.0);
    }
  }

  lemma CrossDifference(x: real, p: real, y: real, q: real, a: int, b: int, c: int, d: int)
    requires p == b as real && q == d as real && x * p == a as real && y * q == c as real
    ensures (y - x) * (p * q) == (c * b - a * d) as real
  {
    assert (y - x) * (p * q) == (y * q) * p - (x * p) * q;
  }

  lemma QuotientBound(z: real, w: real, n: real)
    requires 0.0 < z && 0.0 < w <= n * SCALE && z * w >= n && n > 0.0
    ensures z >= 1.0 / SCALE
  {
    assert z * (n * SCALE - w) >= 0.0;
    assert n * (z * SCALE - 1.0) >= 0.0;
  }

  lemma ProductBound(d: int, e: int, most: int)
    requires 0 <= d <= most && 0 <= e <= most
    ensures d * e <= most * most
  {
    Scaled(d, most, e);
    Scaled(e, most, most);
  }

  /**
   Up to rank 972 two different sums are 1e-12 apart: only cross differences of one could be closer, and
   CloseSums excludes them.
   */
  lemma SumsApart(ranks: Ranks, ranks': Ranks, longest: nat)
    requires TwoRanks(ranks, longest) && TwoRanks(ranks', longest) && longest <= 972
    requires Rrf(ranks, RRF_K) < Rrf(ranks', RRF_K)
    ensures Rrf(ranks, RRF_K) + 1.0 / SCALE <= Rrf(ranks', RRF_K)
  {
    var a, b, d, e := AsFraction(ranks, longest);
    var a', b', d', e' := AsFraction(ranks', longest);
    if Both(ranks) {
      ProductBound(d, e, 1032);
    }
    if Both(ranks') {
      ProductBound(d', e', 1032);
    }
    if Both(ranks) && Both(ranks') {
      ProductBound(b, b', 1065024);
      if a' * b - a * b' == 1 {
        CloseSumsSmall(d, e, d', e');
      }
    } else {
      Scaled(b, if Both(ranks) then 1065024 else 1032, b');
    }
    FractionsApart(a, b, a', b');
  }

  lemma FaithfulUpTo(longest: nat)
    requires longest <= 972
    ensures Faithful(longest)
  {
    forall ranks, ranks' | TwoRanks(ranks, longest) && TwoRanks(ranks', longest)
      ensures KeepsOrder(Rrf(ranks, RRF_K), Rrf(ranks', RRF_K))
    {
      if Rrf(ranks, RRF_K) < Rrf(ranks', RRF_K) {
        SumsApart(ranks, ranks', longest);
      } else if Rrf(ranks', RRF_K) < Rrf(ranks, RRF_K) {
        SumsApart(ranks', ranks, longest);
      }
      KeepsOrderIfApart(Rrf(ranks, RRF_K), Rrf(ranks', RRF_K));
    }
  }

  /** Ranks (973, 928) and (951, 949) have different sums and the same floor. */
  lemma TwoListsMerge()
    ensures var ranks, ranks' := map[LEXICAL := 973, VECTOR := 928], map[LEXICAL := 951, VECTOR := 949];
            && TwoRanks(ranks, 973) && TwoRanks(ranks', 973) && Positive(ranks) && Positive(ranks')
            && Rrf(ranks, RRF_K) < Rrf(ranks', RRF_K) && Floor12(Rrf(ranks, RRF_K)) == Floor12(Rrf(ranks', RRF_K))
  {
    var ranks: Ranks, ranks': Ranks := map[LEXICAL := 973, VECTOR := 928], map[LEXICAL := 951, VECTOR := 949];
    RrfOfTwo(ranks, 973, RRF_K);
    RrfOfTwo(ranks', 973, RRF_K);
    assert Rrf(ranks, RRF_K) == 2021.0 / 1020604.0 && Rrf(ranks', RRF_K) == 2020.0 / 1020099.0;
    assert (Rrf(ranks, RRF_K) * SCALE).Floor == 1980199960;
    assert (Rrf(ranks', RRF_K) * SCALE).Floor == 1980199960;
  }

  /** Flooring is faithful to two lists exactly when neither can be longer than 972. */
  lemma FaithfulExactlyUpTo972(longest: nat)
    ensures Faithful(longest) <==> longest <= 972
  {
    if longest <= 972 {
      FaithfulUpTo(longest);
    } else {
      TwoListsMerge();
      var ranks: Ranks, ranks': Ranks := map[LEXICAL := 973, VECTOR := 928], map[LEXICAL := 951, VECTOR := 949];
      assert TwoRanks(ranks, longest) && TwoRanks(ranks', longest);
    }
  }

  // ------------------------------------------------------------- one list

  /** Flooring tells apart, and orders, every two ranks of one list up to that long. */
  ghost predicate SeparatesRanks(longest: nat) {
    forall r: nat, r': nat :: 1 <= r < r' <= longest ==> Floor12(Share(RRF_K, r')) < Floor12(Share(RRF_K, r))
  }

  /**
   Past a million the floors of the reciprocals fall by exactly one a step, while the square of the excess
   is below the denominator.
   */
  lemma FloorPastMillion(j: int)
    requires 0 <= j <= 1000
    ensures (1.0 / (1000000 + j) as real * SCALE).Floor == 1000000 - j
  {
    var d := (1000000 + j) as real;
    var x := 1.0 / d * SCALE;
    assert x * d == SCALE;
    assert (1000000 - j) * (1000000 + j) == 1000000000000 - j * j;
    Scaled(j, 1000, j);
    assert ((1000000 - j) as real) * d == SCALE - (j * j) as real;
    assert (x - (1000000 - j) as real) * d == (j * j) as real;
    QuotientBelowOne(x - (1000000 - j) as real, d, (j * j) as real);
  }

  lemma QuotientBelowOne(z: real, d: real, n: real)
    requires d > 0.0 && 0.0 <= n < d && z * d == n
    ensures 0.0 <= z < 1.0
  {
    NonNegativeFactor(z, d);
    NonNegativeFactor(1.0 - z, d);
  }

  lemma NonNegativeFactor(z: real, d: real)
    requires d > 0.0 && z * d >= 0.0
    ensures z >= 0.0 && (z * d > 0.0 ==> z > 0.0)
  {
    var n := z * d;
    assert z == n / d;
  }

  lemma NextRank(r: nat)
    requires 1 <= r < 1000940
    ensures Floor12(Share(RRF_K, r + 1)) < Floor12(Share(RRF_K, r))
  {
    var d := 60 + r;
    if d >= 1000000 {
      FloorPastMillion(d - 1000000);
      FloorPastMillion(d + 1 - 1000000);
      UnscaledOrder(1000000 - (d + 1 - 1000000), 1000000 - (d - 1000000));
    } else {
      Scaled(d, 999999, d + 1);
      ReciprocalFalls(d);
      FractionsApart(1, d + 1, 1, d);
      FloorApart(Share(RRF_K, r + 1), Share(RRF_K, r));
    }
  }

  lemma ReciprocalFalls(d: int)
    requires d >= 1
    ensures 1.0 / (d + 1) as real < 1.0 / d as real
  {
    var x, y := 1.0 / d as real, 1.0 / (d + 1) as real;
    assert x * d as real == 1.0 && y * (d + 1) as real == 1.0;
    assert y > 0.0;
    assert (x - y) * d as real == y;
  }

  /** One list is told apart exactly up to rank 1000940. */
  lemma SeparatesExactlyUpTo(longest: nat)
    ensures SeparatesRanks(longest) <==> longest <= 1000940
  {
    if longest <= 1000940 {
      forall r: nat, r': nat | 1 <= r < r' <= longest ensures Floor12(Share(RRF_K, r')) < Floor12(Share(RRF_K, r)) {
        NextRank(r);
        Reciprocal(60 + r + 1, 60 + r');
        FloorMonotone(Share(RRF_K, r'), Share(RRF_K, r + 1));
      }
    } else {
      FlooringCanMerge();
      assert Floor12(Share(RRF_K, 1000941)) == Floor12(Share(RRF_K, 1000940));
    }
  }

  /** Ranks 1000940 and 1000941 of one list have different shares and the same floor. */
  lemma FlooringCanMerge()
    ensures Share(RRF_K, 1000940) != Share(RRF_K, 1000941)
    ensures Floor12(Share(RRF_K, 1000940)) == Floor12(Share(RRF_K, 1000941))
  {
    assert (Share(RRF_K, 1000940) * SCALE).Floor == 999000;
    assert (Share(RRF_K, 1000941) * SCALE).Floor == 999000;
  }

  // ------------------------------------------------------------- the fused order

  ghost predicate FusionOfTwo(hits: seq<FusedHit>, lexical: seq<int>, vector: seq<int>) {
    IsFusion(hits, Places(TwoLists(lexical, vector)), RRF_K)
  }

  /** What a hit of the fused ranking carries. */
  lemma HitIs(hits: seq<FusedHit>, lexical: seq<int>, vector: seq<int>, i: nat)
    requires FusionOfTwo(hits, lexical, vector) && i < |hits|
    ensures hits[i].ranks == RanksOf(lexical, vector, hits[i].chunkId)
    ensures TwoRanks(hits[i].ranks, Max(|lexical|, |vector|)) && Positive(hits[i].ranks)
    ensures hits[i].score == Floor12(Rrf(hits[i].ranks, RRF_K))
  {
    RanksAreTwo(lexical, vector, hits[i].chunkId);
  }

  /** A hit comes first by the exact sums: a greater one, or an equal one and a smaller chunk id. */
  ghost predicate ExactFirst(a: FusedHit, b: FusedHit) {
    && Positive(a.ranks) && Positive(b.ranks)
    && (Rrf(a.ranks, RRF_K) > Rrf(b.ranks, RRF_K)
        || (Rrf(a.ranks, RRF_K) == Rrf(b.ranks, RRF_K) && a.chunkId < b.chunkId))
  }

  ghost predicate ExactOrder(hits: seq<FusedHit>) {
    forall i, j :: 0 <= i < j < |hits| ==> ExactFirst(hits[i], hits[j])
  }

  /** In every fusion of two lists up to that long the order by floored scores is that by the exact sums. */
  ghost predicate OrdersExactly(longest: nat) {
    forall hits, lexical, vector ::
      (FusionOfTwo(hits, lexical, vector) && |lexical| <= longest && |vector| <= longest) ==>
      ExactOrder(hits)
  }

  lemma OrderIsExact(hits: seq<FusedHit>, lexical: seq<int>, vector: seq<int>)
    requires FusionOfTwo(hits, lexical, vector) && |lexical| <= 972 && |vector| <= 972
    ensures ExactOrder(hits)
  {
    FaithfulUpTo(Max(|lexical|, |vector|));
    forall i, j | 0 <= i < j < |hits| ensures ExactFirst(hits[i], hits[j]) {
      HitIs(hits, lexical, vector, i);
      HitIs(hits, lexical, vector, j);
      assert KeepsOrder(Rrf(hits[i].ranks, RRF_K), Rrf(hits[j].ranks, RRF_K));
      assert Before(Keys(hits)[i], Keys(hits)[j]);
    }
  }

  /** Which is so exactly for lists of up to 972. */
  lemma OrdersExactlyUpTo972(longest: nat)
    ensures OrdersExactly(longest) <==> longest <= 972
  {
    if longest <= 972 {
      forall hits, lexical, vector | FusionOfTwo(hits, lexical, vector) && |lexical| <= longest && |vector| <= longest
        ensures ExactOrder(hits)
      {
        OrderIsExact(hits, lexical, vector);
      }
    } else {
      var hits := MisplacedHit();
      assert FusionOfTwo(hits, Ids973(972, 950), Ids973(927, 948)) && !ExactOrder(hits);
    }
  }

  /** 973 different ids, of which 0 and 1 stand at these two places. */
  function Ids973(zero: nat, one: nat): (ids: seq<int>)
    requires zero < 973 && one < 973 && zero != one
    ensures |ids| == 973 && NoDup(ids) && ids[zero] == 0 && ids[one] == 1
  {
    seq(973, r => if r == zero then 0 else if r == one then 1 else r + 2)
  }

  /** Two lists of 973 in whose fusion the chunk of the smaller sum comes first, because both sums floor alike. */
  lemma MisplacedHit() returns (hits: seq<FusedHit>)
    ensures FusionOfTwo(hits, Ids973(972, 950), Ids973(927, 948)) && !ExactOrder(hits)
  {
    var lexical, vector := Ids973(972, 950), Ids973(927, 948);
    hits := FusionExists(TwoLists(lexical, vector), RRF_K);
    var i := HitOf(hits, lexical, vector, 0);
    var j := HitOf(hits, lexical, vector, 1);
    MisplacedSums(lexical, vector);
    SmallerIdFirst(hits, i, j);
  }

  lemma MisplacedSums(lexical: seq<int>, vector: seq<int>)
    requires lexical == Ids973(972, 950) && vector == Ids973(927, 948)
    ensures var r, r' := RanksOf(lexical, vector, 0), RanksOf(lexical, vector, 1);
            && Positive(r) && Positive(r') && Rrf(r, RRF_K) < Rrf(r', RRF_K)
            && Floor12(Rrf(r, RRF_K)) == Floor12(Rrf(r', RRF_K))
  {
    RankIs(lexical, vector, LEXICAL, lexical, 972);
    RankIs(lexical, vector, VECTOR, vector, 927);
    RankIs(lexical, vector, LEXICAL, lexical, 950);
    RankIs(lexical, vector, VECTOR, vector, 948);
    RanksAreTwo(lexical, vector, 0);
    RanksAreTwo(lexical, vector, 1);
    SameRanks(RanksOf(lexical, vector, 0), 973, 928);
    SameRanks(RanksOf(lexical, vector, 1), 951, 949);
    TwoListsMerge();
  }

  lemma SameRanks(ranks: Ranks, first: nat, second: nat)
    requires TwoRanks(ranks, 973) && Both(ranks) && ranks[LEXICAL] == first && ranks[VECTOR] == second
    ensures ranks == map[LEXICAL := first, VECTOR := second]
  {
    assert ranks.Keys == {LEXICAL, VECTOR};
  }

  lemma ShareBounds(ranks: Ranks, name: string, longest: nat)
    requires TwoRanks(ranks, longest) && longest <= 61 && name in ranks
    ensures 1.0 / 121.0 <= ShareOf(ranks, name, RRF_K) <= 1.0 / 61.0
  {
    Reciprocal(60 + ranks[name], 121);
    Reciprocal(61, 60 + ranks[name]);
  }

  lemma Reciprocal(d: int, e: int)
    requires 1 <= d <= e
    ensures 1.0 / e as real <= 1.0 / d as real
  {
    var x, y := 1.0 / d as real, 1.0 / e as real;
    assert x * d as real == 1.0 && y * e as real == 1.0;
    assert y * (e - d) as real >= 0.0;
    assert (x - y) * d as real >= 0.0;
  }

  /** Up to rank 61 agreement is worth at least 2/121, one list alone at most 1/61, which is less. */
  lemma AgreementBounds(ranks: Ranks, longest: nat)
    requires TwoRanks(ranks, longest) && longest <= 61
    ensures Positive(ranks)
    ensures if Both(ranks) then Rrf(ranks, RRF_K) >= 2.0 / 121.0 else Rrf(ranks, RRF_K) <= 1.0 / 61.0
  {
    RrfOfTwo(ranks, longest, RRF_K);
    if LEXICAL in ranks {
      ShareBounds(ranks, LEXICAL, longest);
    }
    if VECTOR in ranks {
      ShareBounds(ranks, VECTOR, longest);
    }
  }

  ghost predicate FoundByBoth(lexical: seq<int>, vector: seq<int>, id: int) {
    id in lexical && id in vector
  }

  /** Every chunk found by both retrievers is before every chunk found by one. */
  ghost predicate AgreementFirst(hits: seq<FusedHit>, lexical: seq<int>, vector: seq<int>) {
    forall i, j ::
      (0 <= i < |hits| && 0 <= j < |hits| && FoundByBoth(lexical, vector, hits[i].chunkId)
       && !FoundByBoth(lexical, vector, hits[j].chunkId)) ==> i < j
  }

  /** And so in every fusion of two lists up to that long. */
  ghost predicate AgreementWins(longest: nat) {
    forall hits, lexical, vector ::
      (FusionOfTwo(hits, lexical, vector) && |lexical| <= longest && |vector| <= longest) ==>
      AgreementFirst(hits, lexical, vector)
  }

  lemma BothBeforeOne(hits: seq<FusedHit>, lexical: seq<int>, vector: seq<int>)
    requires FusionOfTwo(hits, lexical, vector) && |lexical| <= 61 && |vector| <= 61
    ensures AgreementFirst(hits, lexical, vector)
  {
    ScoresFall(hits, lexical, vector);
    forall i, j | 0 <= i < |hits| && 0 <= j < |hits| && FoundByBoth(lexical, vector, hits[i].chunkId)
                  && !FoundByBoth(lexical, vector, hits[j].chunkId)
      ensures i < j
    {
      BothScoresMore(hits, lexical, vector, i, j);
    }
  }

  lemma BothScoresMore(hits: seq<FusedHit>, lexical: seq<int>, vector: seq<int>, i: nat, j: nat)
    requires FusionOfTwo(hits, lexical, vector) && |lexical| <= 61 && |vector| <= 61 && i < |hits| && j < |hits|
    requires FoundByBoth(lexical, vector, hits[i].chunkId) && !FoundByBoth(lexical, vector, hits[j].chunkId)
    ensures hits[i].score > hits[j].score
  {
    HitIs(hits, lexical, vector, i);
    HitIs(hits, lexical, vector, j);
    RanksAreTwo(lexical, vector, hits[i].chunkId);
    RanksAreTwo(lexical, vector, hits[j].chunkId);
    AgreementBounds(hits[i].ranks, 61);
    AgreementBounds(hits[j].ranks, 61);
    FloorApart(Rrf(hits[j].ranks, RRF_K), Rrf(hits[i].ranks, RRF_K));
  }

  /** Agreement comes before one list alone exactly with up to 61 candidates a list. */
  lemma AgreementWinsExactlyUpTo61(longest: nat)
    ensures AgreementWins(longest) <==> longest <= 61
  {
    if longest <= 61 {
      forall hits, lexical, vector | FusionOfTwo(hits, lexical, vector) && |lexical| <= longest && |vector| <= longest
        ensures AgreementFirst(hits, lexical, vector)
      {
        BothBeforeOne(hits, lexical, vector);
      }
    } else {
      var hits := LastPlacesTie();
      assert FusionOfTwo(hits, UpTo61(), DownTo61()) && !AgreementFirst(hits, UpTo61(), DownTo61());
    }
  }

  function UpTo61(): (ids: seq<int>)
    ensures |ids| == 62 && NoDup(ids) && ids[0] == 0 && ids[61] == 61
  {
    seq(62, r => r)
  }

  function DownTo61(): (ids: seq<int>)
    ensures |ids| == 62 && NoDup(ids) && ids[61] == 61 && 0 !in ids
  {
    seq(62, r => 122 - r)
  }

  /** Last of 62 in both lists ties with first of one, as 2/122 is 1/61, and the tie goes to the smaller id. */
  lemma LastPlacesTie() returns (hits: seq<FusedHit>)
    ensures FusionOfTwo(hits, UpTo61(), DownTo61()) && !AgreementFirst(hits, UpTo61(), DownTo61())
  {
    var lexical, vector := UpTo61(), DownTo61();
    hits := FusionExists(TwoLists(lexical, vector), RRF_K);
    TiedSums();
    var i := HitOf(hits, lexical, vector, 61);
    var j := HitOf(hits, lexical, vector, 0);
    SmallerIdFirst(hits, j, i);
  }

  lemma SmallerIdFirst(hits: seq<FusedHit>, i: nat, j: nat)
    requires Ordered(Keys(hits)) && i < |hits| && j < |hits|
    requires hits[i].score == hits[j].score && hits[i].chunkId < hits[j].chunkId
    ensures i < j
  {
    var mine, other := Keys(hits)[i], Keys(hits)[j];
    assert !Before(other, mine);
  }

  lemma TiedSums()
    ensures var r, r' := RanksOf(UpTo61(), DownTo61(), 0), RanksOf(UpTo61(), DownTo61(), 61);
            Positive(r) && Positive(r') && Rrf(r, RRF_K) == Rrf(r', RRF_K)
  {
    var lexical, vector := UpTo61(), DownTo61();
    RankIs(lexical, vector, LEXICAL, lexical, 0);
    RankIs(lexical, vector, LEXICAL, lexical, 61);
    RankIs(lexical, vector, VECTOR, vector, 61);
    RanksAreTwo(lexical, vector, 0);
    RanksAreTwo(lexical, vector, 61);
    SumOf(RanksOf(lexical, vector, 0), map[LEXICAL := 1]);
    SumOf(RanksOf(lexical, vector, 61), map[LEXICAL := 62, VECTOR := 62]);
  }

  lemma SumOf(ranks: Ranks, ranks': Ranks)
    requires TwoRanks(ranks, 62) && TwoRanks(ranks', 62)
    requires LEXICAL in ranks && LEXICAL in ranks' && (VECTOR in ranks <==> VECTOR in ranks')
    requires ranks[LEXICAL] == ranks'[LEXICAL] && (VECTOR in ranks ==> ranks[VECTOR] == ranks'[VECTOR])
    ensures Positive(ranks) && Rrf(ranks, RRF_K) == ShareOf(ranks', LEXICAL, RRF_K) + ShareOf(ranks', VECTOR, RRF_K)
  {
    RrfOfTwo(ranks, 62, RRF_K);
  }

  /** Where a list names a chunk once, that is its rank there. */
  lemma RankIs(lexical: seq<int>, vector: seq<int>, name: string, ids: seq<int>, r: nat)
    requires (name == LEXICAL && ids == lexical) || (name == VECTOR && ids == vector)
    requires NoDup(ids) && r < |ids|
    ensures name in RanksOf(lexical, vector, ids[r]) && RanksOf(lexical, vector, ids[r])[name] == r + 1
  {
    var places := Places(TwoLists(lexical, vector));
    Found(lexical, vector, name, ids, ids[r], r);
    BestRanksLeast(places, ids[r], name);
    PlacesOfTwo(lexical, vector, Place(name, ids[r], RanksOf(lexical, vector, ids[r])[name]));
  }

  /** A listed chunk has its hit. */
  lemma HitOf(hits: seq<FusedHit>, lexical: seq<int>, vector: seq<int>, id: int) returns (i: nat)
    requires FusionOfTwo(hits, lexical, vector) && (id in lexical || id in vector)
    ensures i < |hits| && hits[i] == HitFor(Places(TwoLists(lexical, vector)), RRF_K, id)
  {
    var places := Places(TwoLists(lexical, vector));
    RanksAreTwo(lexical, vector, id);
    PlacesRanked(TwoLists(lexical, vector));
    BestRanksPositive(places, id);
    i :| 0 <= i < |hits| && hits[i] == HitFor(places, RRF_K, id);
  }

  lemma ScoresFall(hits: seq<FusedHit>, lexical: seq<int>, vector: seq<int>)
    requires FusionOfTwo(hits, lexical, vector)
    ensures forall p, q :: 0 <= p <= q < |hits| ==> hits[p].score >= hits[q].score
  {
    forall p, q | 0 <= p < q < |hits| ensures hits[p].score >= hits[q].score {
      assert Before(Keys(hits)[p], Keys(hits)[q]);
    }
  }

  // ------------------------------------------------------------- the gate

  const MIN_RRF_SCORE := 0.02

  datatype GateVerdict = Passed | NoAdmissibleSource | LowConfidence

  /** `pre_flight` */
  function PreFlight(hits: seq<FusedHit>): GateVerdict {
    if hits == [] then NoAdmissibleSource
    else if hits[0].score < MIN_RRF_SCORE then LowConfidence
    else Passed
  }

  /** A chunk both retrievers rank well enough for the threshold. */
  ghost predicate Agreed(lexical: seq<int>, vector: seq<int>, id: int) {
    var ranks := RanksOf(lexical, vector, id);
    && Both(ranks) && Positive(ranks)
    && Share(RRF_K, ranks[LEXICAL]) + Share(RRF_K, ranks[VECTOR]) >= MIN_RRF_SCORE
  }

  /** The threshold is a multiple of 1e-12, so flooring does not move a sum across it. */
  lemma ThresholdFloor(x: real)
    ensures Floor12(x) >= MIN_RRF_SCORE <==> x >= MIN_RRF_SCORE
  {
    assert MIN_RRF_SCORE * SCALE == 20000000000.0;
    if x >= MIN_RRF_SCORE {
      ScaledOrder(MIN_RRF_SCORE, x, 0.0);
      UnscaledOrder(20000000000, (x * SCALE).Floor);
    } else {
      ScaledOrder(x, MIN_RRF_SCORE, 0.0);
      assert x * SCALE < 20000000000.0;
      UnscaledOrder((x * SCALE).Floor, 19999999999);
    }
  }

  lemma ShareAtMost(ranks: Ranks, name: string, longest: nat)
    requires TwoRanks(ranks, longest)
    ensures ShareOf(ranks, name, RRF_K) <= 1.0 / 61.0
  {
    if name in ranks {
      Reciprocal(61, 60 + ranks[name]);
    }
  }

  /** One retriever alone is worth at most 1/61, however long the lists. */
  lemma LoneShare(ranks: Ranks, longest: nat)
    requires TwoRanks(ranks, longest)
    ensures Positive(ranks) && (!Both(ranks) ==> Rrf(ranks, RRF_K) <= 1.0 / 61.0 < MIN_RRF_SCORE)
  {
    RrfOfTwo(ranks, longest, RRF_K);
    ShareAtMost(ranks, LEXICAL, longest);
    ShareAtMost(ranks, VECTOR, longest);
  }

  lemma GateTop(hits: seq<FusedHit>, lexical: seq<int>, vector: seq<int>)
    requires FusionOfTwo(hits, lexical, vector) && hits != []
    ensures hits[0].score >= MIN_RRF_SCORE <==> Agreed(lexical, vector, hits[0].chunkId)
  {
    HitIs(hits, lexical, vector, 0);
    LoneShare(hits[0].ranks, Max(|lexical|, |vector|));
    RrfOfTwo(hits[0].ranks, Max(|lexical|, |vector|), RRF_K);
    ThresholdFloor(Rrf(hits[0].ranks, RRF_K));
  }

  /**
   The gate passes exactly when some chunk is ranked well enough by both retrievers, and then its
   top hit is such a chunk. The answer it sees is the fused ranking up to `limit`; a limit of zero or
   less may leave it nothing to see.
   */
  lemma GateExactly(hits: seq<FusedHit>, lexical: seq<int>, vector: seq<int>, limit: int)
    requires FusionOfTwo(hits, lexical, vector)
    ensures var seen := hits[..Cut(|hits|, Some(limit))];
            && (PreFlight(seen).Passed? <==> seen != [] && exists id :: Agreed(lexical, vector, id))
            && (PreFlight(seen).Passed? ==> Agreed(lexical, vector, seen[0].chunkId))
            && (PreFlight(seen).NoAdmissibleSource? <==> seen == [])
            && (limit >= 1 ==> (seen == [] <==> lexical == [] && vector == []))
            && (limit <= 0 ==> (seen == [] <==> limit == 0 || |hits| <= -limit))
  {
    var places := Places(TwoLists(lexical, vector));
    forall id ensures Listed(places, id) <==> id in lexical || id in vector {
      RanksAreTwo(lexical, vector, id);
      PlacesRanked(TwoLists(lexical, vector));
      BestRanksPositive(places, id);
      assert BestRanks(places, id) != map[] <==> Both(BestRanks(places, id)) || LEXICAL in BestRanks(places, id)
                                                 || VECTOR in BestRanks(places, id) by {
        OnlyTwo(BestRanks(places, id), Max(|lexical|, |vector|));
      }
    }
    if lexical != [] {
      assert Listed(places, lexical[0]);
    }
    if vector != [] {
      assert Listed(places, vector[0]);
    }
    if hits != [] {
      GateTop(hits, lexical, vector);
      assert Listed(places, hits[0].chunkId);
    }
    if id :| Agreed(lexical, vector, id) {
      AgreedIsFirst(hits, lexical, vector, id);
    }
  }

  lemma OnlyTwo(ranks: Ranks, longest: nat)
    requires TwoRanks(ranks, longest)
    ensures ranks != map[] <==> LEXICAL in ranks || VECTOR in ranks
  {
    if LEXICAL !in ranks && VECTOR !in ranks {
      assert ranks.Keys == {};
    }
  }

  /** If any chunk is agreed on, the top hit scores at least as much. */
  lemma AgreedIsFirst(hits: seq<FusedHit>, lexical: seq<int>, vector: seq<int>, id: int)
    requires FusionOfTwo(hits, lexical, vector) && Agreed(lexical, vector, id)
    ensures hits != [] && hits[0].score >= MIN_RRF_SCORE
  {
    RanksAreTwo(lexical, vector, id);
    var i := HitOf(hits, lexical, vector, id);
    HitIs(hits, lexical, vector, i);
    RrfOfTwo(hits[i].ranks, Max(|lexical|, |vector|), RRF_K);
    ThresholdFloor(Rrf(hits[i].ranks, RRF_K));
    assert i > 0 ==> Before(Keys(hits)[0], Keys(hits)[i]);
  }

  /** Ranks of 40 or better from both are always enough; one retriever alone never is. */
  lemma FortyIsEnough(lexical: seq<int>, vector: seq<int>, id: int)
    ensures var ranks := RanksOf(lexical, vector, id);
            && (Both(ranks) && ranks[LEXICAL] <= 40 && ranks[VECTOR] <= 40 ==> Agreed(lexical, vector, id))
            && (Agreed(lexical, vector, id) ==> id in lexical && id in vector)
  {
    RanksAreTwo(lexical, vector, id);
    var ranks := RanksOf(lexical, vector, id);
    if Both(ranks) && ranks[LEXICAL] <= 40 && ranks[VECTOR] <= 40 {
      Reciprocal(60 + ranks[LEXICAL], 100);
      Reciprocal(60 + ranks[VECTOR], 100);
    }
  }

  /** Two fractions of one reach a fiftieth exactly when fifty of both denominators reach their product. */
  lemma FiftiethExactly(a: int, b: int)
    requires a > 0 && b > 0
    ensures 1.0 / a as real + 1.0 / b as real >= 0.02 <==> 50 * (a + b) >= a * b
  {
    var x, y := a as real, b as real;
    var sum, xy := 1.0 / x + 1.0 / y, x * y;
    assert xy > 0.0 && xy == (a * b) as real;
    assert sum * xy == x + y by {
      assert 1.0 / x * x == 1.0 && 1.0 / y * y == 1.0;
      assert sum * xy == (1.0 / x * x) * y + (1.0 / y * y) * x;
    }
    SameSign(sum - 0.02, xy);
    assert (sum - 0.02) * xy == x + y - 0.02 * xy;
    assert 50.0 * (x + y - 0.02 * xy) == (50 * (a + b) - a * b) as real;
  }

  lemma SameSign(a: real, b: real)
    requires b > 0.0
    ensures a * b >= 0.0 <==> a >= 0.0
  {
  }

  /**
   The two ranks that pass: 1 / (60 + r) + 1 / (60 + r') reaches 0.02 exactly when
   (r + 10) * (r' + 10) <= 2500.
   */
  lemma AgreedExactly(lexical: seq<int>, vector: seq<int>, id: int)
    ensures id in lexical <==> "lexical" in RanksOf(lexical, vector, id)
    ensures id in vector <==> "vector" in RanksOf(lexical, vector, id)
    ensures Agreed(lexical, vector, id) <==>
              && id in lexical && id in vector
              && var ranks := RanksOf(lexical, vector, id);
                 (ranks["lexical"] + 10) * (ranks["vector"] + 10) <= 2500
  {
    RanksAreTwo(lexical, vector, id);
    var ranks := RanksOf(lexical, vector, id);
    if Both(ranks) {
      RanksPass(ranks[LEXICAL], ranks[VECTOR]);
    }
  }

  lemma RanksPass(r: int, r': int)
    requires r >= 1 && r' >= 1
    ensures Share(RRF_K, r) + Share(RRF_K, r') >= MIN_RRF_SCORE <==> (r + 10) * (r' + 10) <= 2500
  {
    FiftiethExactly(60 + r, 60 + r');
    assert 50 * (60 + r + 60 + r') - (60 + r) * (60 + r') == 2500 - (r + 10) * (r' + 10);
  }

  /** The same rank from both is enough exactly up to 40. */
  lemma EqualRanks(lexical: seq<int>, vector: seq<int>, id: int)
    requires Both(RanksOf(lexical, vector, id))
    requires RanksOf(lexical, vector, id)[LEXICAL] == RanksOf(lexical, vector, id)[VECTOR]
    ensures Agreed(lexical, vector, id) <==> RanksOf(lexical, vector, id)[LEXICAL] <= 40
  {
    RanksAreTwo(lexical, vector, id);
    var r := RanksOf(lexical, vector, id)[LEXICAL];
    if r <= 40 {
      FortyIsEnough(lexical, vector, id);
    } else {
      Reciprocal(101, 60 + r);
    }
  }
}
