/** Reciprocal rank fusion (`reciprocal_rank_fusion`, `_floor12`), over exact reals. */
module Fusion {
  import opened Seqs
  import opened Heaps

  const RRF_K: nat := 60

  /** One retriever's opinion, best first. */
  datatype RankedList = RankedList(name: string, ids: seq<int>)

  datatype FusedHit = FusedHit(chunkId: int, score: real, ranks: map<string, nat>)

  // ------------------------------------------------------------- what was ranked where

  /** An id at a 1-based position of a list. */
  datatype Place = Place(name: string, id: int, position: nat)

  function PlacesOf(ranked: RankedList): (r: seq<Place>)
    ensures |r| == |ranked.ids|
    ensures forall i :: 0 <= i < |r| ==> r[i] == Place(ranked.name, ranked.ids[i], i + 1)
  {
    seq(|ranked.ids|, i requires 0 <= i < |ranked.ids| => Place(ranked.name, ranked.ids[i], i + 1))
  }

  /** All places, in the order the loops meet them. */
  function Places(lists: seq<RankedList>): seq<Place>
    decreases |lists|
  {
    if lists == [] then [] else Places(lists[..|lists| - 1]) + PlacesOf(lists[|lists| - 1])
  }

  type Ranks = map<string, nat>

  /** The best rank of an id under each retriever name that lists it. */
  function BestRanks(places: seq<Place>, id: int): Ranks
    decreases |places|
  {
    if places == [] then map[]
    else
      var before, p := BestRanks(places[..|places| - 1], id), places[|places| - 1];
      if p.id != id || (p.name in before && before[p.name] <= p.position) then before
      else before[p.name := p.position]
  }

  ghost predicate RankedAt(places: seq<Place>, name: string, id: int, position: nat) {
    Place(name, id, position) in places
  }

  /** Exactly the names that list the id, each with the least of its positions. */
  lemma {:induction false} BestRanksLeast(places: seq<Place>, id: int, name: string)
    ensures name in BestRanks(places, id) ==> RankedAt(places, name, id, BestRanks(places, id)[name])
    ensures forall p: nat :: RankedAt(places, name, id, p) ==>
              name in BestRanks(places, id) && BestRanks(places, id)[name] <= p
    decreases |places|
  {
    if places != [] {
      var before, last := places[..|places| - 1], places[|places| - 1];
      assert places == before + [last];
      BestRanksLeast(before, id, name);
      forall p: nat | RankedAt(places, name, id, p)
        ensures name in BestRanks(places, id) && BestRanks(places, id)[name] <= p
      {
        assert Place(name, id, p) == last || RankedAt(before, name, id, p);
      }
    }
  }

  /** Best ranks depend on which places there are, not on their order or repetition. */
  lemma BestRanksOrderFree(places: seq<Place>, places': seq<Place>, id: int)
    requires forall p :: p in places <==> p in places'
    ensures BestRanks(places, id) == BestRanks(places', id)
  {
    forall name ensures name in BestRanks(places, id) <==> name in BestRanks(places', id)
                ensures name in BestRanks(places, id) ==> BestRanks(places, id)[name] == BestRanks(places', id)[name]
    {
      BestRanksLeast(places, id, name);
      BestRanksLeast(places', id, name);
      assert forall p: nat :: RankedAt(places, name, id, p) <==> RankedAt(places', name, id, p);
    }
  }

  // ------------------------------------------------------------- the score

  /** What one rank is worth; the loop never reads it where it would divide by zero. */
  function Share(k: int, rank: int): real {
    if k + rank == 0 then 0.0 else 1.0 / (k + rank) as real
  }

  ghost predicate Positive(ranks: Ranks) {
    forall name :: name in ranks ==> ranks[name] >= 1
  }

  /** The sum over retriever names of 1 / (k + best rank), in whatever order. */
  ghost function Rrf(ranks: Ranks, k: int): real
    decreases |ranks|
  {
    if |ranks| == 0 then 0.0
    else
      var name := SomeName(ranks);
      Share(k, ranks[name]) + Rrf(ranks - {name}, k)
  }

  ghost function SomeName(ranks: Ranks): (name: string)
    requires |ranks| > 0
    ensures name in ranks
  {
    assert ranks.Keys != {};
    var name :| name in ranks;
    name
  }

  /** The order of summation does not matter: any name can be taken out first. */
  lemma {:induction false} RrfTakes(ranks: Ranks, k: int, name: string)
    requires name in ranks
    ensures Rrf(ranks, k) == Share(k, ranks[name]) + Rrf(ranks - {name}, k)
    decreases |ranks|
  {
    var first := SomeName(ranks);
    if first != name {
      RrfTakes(ranks - {first}, k, name);
      RrfTakes(ranks - {name}, k, first);
      assert ranks - {first} - {name} == ranks - {name} - {first};
    }
  }

  /** A first rank adds its share; a better one takes the old share out again. */
  lemma RrfUpdate(ranks: Ranks, k: int, name: string, position: nat)
    ensures Rrf(ranks[name := position], k) ==
            Rrf(ranks, k) - (if name in ranks then Share(k, ranks[name]) else 0.0) + Share(k, position)
  {
    var after := ranks[name := position];
    RrfTakes(after, k, name);
    assert after - {name} == ranks - {name};
    if name in ranks {
      RrfTakes(ranks, k, name);
    } else {
      assert ranks - {name} == ranks;
    }
  }

  const SCALE := 1000000000000.0

  /** `_floor12` */
  function Floor12(x: real): real {
    (x * SCALE).Floor as real / SCALE
  }

  // ------------------------------------------------------------- the loops

  type ScoreDict = map<int, real>

  type RankDict = map<int, Ranks>

  function RanksIn(ranks: RankDict, id: int): Ranks {
    if id in ranks then ranks[id] else map[]
  }

  ghost predicate Ranked(places: seq<Place>) {
    forall i :: 0 <= i < |places| ==> places[i].position >= 1
  }

  ghost predicate Listed(places: seq<Place>, id: int) {
    exists i :: 0 <= i < |places| && places[i].id == id
  }

  lemma {:induction false} BestRanksPositive(places: seq<Place>, id: int)
    requires Ranked(places)
    ensures Positive(BestRanks(places, id))
    ensures BestRanks(places, id) != map[] <==> Listed(places, id)
    decreases |places|
  {
    if places != [] {
      var before, last := places[..|places| - 1], places[|places| - 1];
      BestRanksPositive(before, id);
      if Listed(before, id) {
        var i :| 0 <= i < |before| && before[i].id == id;
        assert places[i].id == id;
      }
      if last.id == id {
        assert places[|places| - 1].id == id && last.name in BestRanks(places, id);
      }
    }
  }

  /** An id's entries after some places: there once it was listed, with its best ranks and their sum. */
  ghost predicate Kept(scores: ScoreDict, ranks: RankDict, places: seq<Place>, k: int, id: int) {
    && (id in scores <==> Listed(places, id)) && (id in ranks <==> Listed(places, id))
    && RanksIn(ranks, id) == BestRanks(places, id) && Positive(BestRanks(places, id))
    && (id in scores ==> scores[id] == Rrf(BestRanks(places, id), k))
  }

  ghost predicate Fused(scores: ScoreDict, ranks: RankDict, places: seq<Place>, k: int) {
    forall id {:trigger Kept(scores, ranks, places, k, id)} :: Kept(scores, ranks, places, k, id)
  }

  /** A place the loop does not skip: the first of its name for the id, or a better one. */
  predicate Improves(places: seq<Place>, p: Place) {
    p.name !in BestRanks(places, p.id) || p.position < BestRanks(places, p.id)[p.name]
  }

  ghost predicate Raises(places: seq<Place>, k: int, i: int) {
    0 <= i < |places| && Improves(places[..i], places[i]) && k + places[i].position == 0
  }

  /** Some place that counts is at position -k: the loop divides by zero. */
  ghost predicate DividesByZero(places: seq<Place>, k: int) {
    exists i :: Raises(places, k, i)
  }

  /** The body of the inner loop, with its three branches; false is the ZeroDivisionError. */
  method FuseOne(scores: ScoreDict, ranks: RankDict, k: int, name: string, id: int, position: nat,
                 ghost places: seq<Place>) returns (ok: bool, scores': ScoreDict, ranks': RankDict)
    requires Fused(scores, ranks, places, k) && position >= 1
    ensures ok <==> !(Improves(places, Place(name, id, position)) && k + position == 0)
    ensures ok ==> Fused(scores', ranks', places + [Place(name, id, position)], k)
  {
    assert Kept(scores, ranks, places, k, id);
    var mine := RanksIn(ranks, id);
    ok, scores', ranks' := true, scores, ranks[id := mine];
    if name !in mine || mine[name] > position {
      if k + position == 0 {
        return false, scores', ranks';
      }
      if name in mine {
        NamedIsListed(places, id, name);
        scores' := scores'[id := scores'[id] - Share(k, mine[name])];
      }
      scores' := scores'[id := (if id in scores' then scores'[id] else 0.0) + Share(k, position)];
      ranks' := ranks'[id := mine[name := position]];
    }
    FusedOne(scores, ranks, places, k, Place(name, id, position), scores', ranks');
  }

  function ScoreIn(scores: ScoreDict, id: int): real {
    if id in scores then scores[id] else 0.0
  }

  /** The entry of the id that was met: its best ranks with the new place, and their sum. */
  lemma KeptMine(scores: ScoreDict, ranks: RankDict, places: seq<Place>, k: int, p: Place)
    requires Kept(scores, ranks, places, k, p.id) && p.position >= 1
    ensures var mine, after := RanksIn(ranks, p.id), BestRanks(places + [p], p.id);
            && after == (if Improves(places, p) then mine[p.name := p.position] else mine) && Positive(after)
            && Rrf(after, k) == (if Improves(places, p)
                                 then ScoreIn(scores, p.id) - (if p.name in mine then Share(k, mine[p.name]) else 0.0)
                                      + Share(k, p.position)
                                 else ScoreIn(scores, p.id))
  {
    assert (places + [p])[..|places|] == places;
    RrfNothing(k);
    RrfUpdate(RanksIn(ranks, p.id), k, p.name, p.position);
  }

  /** One place, counted or skipped, leaves every other id alone. */
  lemma FusedOne(scores: ScoreDict, ranks: RankDict, places: seq<Place>, k: int, p: Place, scores': ScoreDict,
                 ranks': RankDict)
    requires Fused(scores, ranks, places, k) && p.position >= 1
    requires var mine := RanksIn(ranks, p.id);
             if !Improves(places, p) then scores' == scores && ranks' == ranks[p.id := mine]
             else
               && ranks' == ranks[p.id := mine[p.name := p.position]]
               && scores' == scores[p.id := ScoreIn(scores, p.id)
                                            - (if p.name in mine then Share(k, mine[p.name]) else 0.0)
                                            + Share(k, p.position)]
    ensures Fused(scores', ranks', places + [p], k)
  {
    forall other ensures Kept(scores', ranks', places + [p], k, other) {
      assert Kept(scores, ranks, places, k, other);
      ListedMore(places, p, other);
      if other == p.id {
        KeptMine(scores, ranks, places, k, p);
        if !Improves(places, p) {
          NamedIsListed(places, p.id, p.name);
        }
      } else {
        assert (places + [p])[..|places|] == places;
      }
    }
  }

  lemma RrfNothing(k: int)
    ensures Rrf(map[], k) == 0.0
  {
  }

  lemma ListedMore(places: seq<Place>, p: Place, id: int)
    ensures Listed(places + [p], id) <==> Listed(places, id) || p.id == id
  {
    var more := places + [p];
    if Listed(places, id) {
      var i :| 0 <= i < |places| && places[i].id == id;
      assert more[i].id == id;
    }
    if p.id == id {
      assert more[|places|].id == id;
    }
  }

  lemma {:induction false} NamedIsListed(places: seq<Place>, id: int, name: string)
    requires name in BestRanks(places, id)
    ensures Listed(places, id)
  {
    BestRanksLeast(places, id, name);
    var i :| 0 <= i < |places| && places[i] == Place(name, id, BestRanks(places, id)[name]);
    assert places[i].id == id;
  }

  /** The next place raises exactly if the places with it do and those before it do not. */
  lemma RaisesMore(places: seq<Place>, p: Place, k: int)
    requires !DividesByZero(places, k)
    ensures DividesByZero(places + [p], k) <==> Improves(places, p) && k + p.position == 0
  {
    var more := places + [p];
    assert more[..|places|] == places && more[|places|] == p;
    forall i | 0 <= i < |places| ensures !Raises(more, k, i) {
      assert more[..i] == places[..i] && !Raises(places, k, i);
    }
    if Improves(places, p) && k + p.position == 0 {
      assert Raises(more, k, |places|);
    }
  }

  lemma RaisesOn(places: seq<Place>, more: seq<Place>, k: int)
    requires places <= more && DividesByZero(places, k)
    ensures DividesByZero(more, k)
  {
    var i :| Raises(places, k, i);
    assert more[..i] == places[..i] && Raises(more, k, i);
  }

  lemma {:induction false} PlacesPrefix(lists: seq<RankedList>, n: nat)
    requires n <= |lists|
    ensures Places(lists[..n]) <= Places(lists)
    decreases |lists|
  {
    if n == |lists| {
      assert lists[..n] == lists;
    } else {
      assert lists[..|lists| - 1][..n] == lists[..n];
      PlacesPrefix(lists[..|lists| - 1], n);
    }
  }

  /** The places up to one position of one list come first. */
  lemma PlacesUpTo(lists: seq<RankedList>, i: nat, j: nat)
    requires i < |lists| && j <= |lists[i].ids|
    ensures Places(lists[..i]) + PlacesOf(lists[i])[..j] <= Places(lists)
  {
    assert lists[..i + 1][..i] == lists[..i];
    PlacesPrefix(lists, i + 1);
  }

  /** Both loops; false when a division by zero ended them. */
  method FuseAll(lists: seq<RankedList>, k: int) returns (ok: bool, scores: ScoreDict, ranks: RankDict)
    ensures ok <==> !DividesByZero(Places(lists), k)
    ensures ok ==> Fused(scores, ranks, Places(lists), k)
  {
    ok, scores, ranks := true, map[], map[];
    NothingFused(k);
    for i := 0 to |lists|
      invariant Fused(scores, ranks, Places(lists[..i]), k) && !DividesByZero(Places(lists[..i]), k) && ok
    {
      var ranked := lists[i];
      ghost var before, mine := Places(lists[..i]), PlacesOf(ranked);
      assert lists[..i + 1][..i] == lists[..i];
      assert before + mine[..0] == before;
      for j := 0 to |ranked.ids|
        invariant Fused(scores, ranks, before + mine[..j], k) && !DividesByZero(before + mine[..j], k) && ok
      {
        assert before + mine[..j] + [mine[j]] == before + mine[..j + 1];
        RaisesMore(before + mine[..j], mine[j], k);
        ok, scores, ranks := FuseOne(scores, ranks, k, ranked.name, ranked.ids[j], j + 1, before + mine[..j]);
        if !ok {
          PlacesUpTo(lists, i, j + 1);
          RaisesOn(before + mine[..j + 1], Places(lists), k);
          return;
        }
      }
      assert mine[..|ranked.ids|] == mine;
    }
    assert lists[..|lists|] == lists;
  }

  /** One list of one id and the damping constant -1: the loop divides by -1 + 1. */
  lemma NegativeDampingRaises(name: string, id: int)
    ensures DividesByZero(Places([RankedList(name, [id])]), -1)
  {
    var lists := [RankedList(name, [id])];
    assert lists[..0] == [] && Places(lists) == Places([]) + PlacesOf(lists[0]);
    assert PlacesOf(lists[0])[0] == Place(name, id, 1);
    var places := Places(lists);
    assert places[0] == Place(name, id, 1) && places[..0] == [];
    assert Raises(places, -1, 0);
  }

  /** The damping constants in use never divide by zero. */
  lemma DampedIsSafe(lists: seq<RankedList>, k: int)
    requires k >= 0
    ensures !DividesByZero(Places(lists), k)
  {
    PlacesRanked(lists);
  }

  lemma NothingFused(k: int)
    ensures Fused(map[], map[], [], k) && !DividesByZero([], k)
  {
    RrfNothing(k);
    forall id ensures Kept(map[], map[], [], k, id) {
    }
  }

  // ------------------------------------------------------------- the fused ranking

  ghost function HitFor(places: seq<Place>, k: int, id: int): FusedHit {
    FusedHit(id, Floor12(Rrf(BestRanks(places, id), k)), BestRanks(places, id))
  }

  /** The sort key: score descending, then chunk id. */
  function Keys(hits: seq<FusedHit>): (r: seq<Scored>)
    ensures |r| == |hits| && forall i :: 0 <= i < |hits| ==> r[i] == Scored(-hits[i].score, hits[i].chunkId)
  {
    seq(|hits|, i requires 0 <= i < |hits| => Scored(-hits[i].score, hits[i].chunkId))
  }

  /** Exactly the listed ids, each with its floored score and its ranks, in order. */
  ghost predicate IsFusion(hits: seq<FusedHit>, places: seq<Place>, k: int) {
    && Ranked(places) && Ordered(Keys(hits))
    && (forall id :: Positive(BestRanks(places, id)))
    && (forall i :: 0 <= i < |hits| ==>
          Listed(places, hits[i].chunkId) && hits[i] == HitFor(places, k, hits[i].chunkId))
    && (forall id {:trigger Listed(places, id)} :: Listed(places, id) ==> HitFor(places, k, id) in hits)
  }

  lemma {:induction false} PlacesRanked(lists: seq<RankedList>)
    ensures Ranked(Places(lists)) && forall id :: Positive(BestRanks(Places(lists), id))
    decreases |lists|
  {
    if lists != [] {
      PlacesRanked(lists[..|lists| - 1]);
    }
    forall id ensures Positive(BestRanks(Places(lists), id)) {
      BestRanksPositive(Places(lists), id);
    }
  }

  /** `fused[:limit]` */
  function Cut(n: nat, limit: Option<int>): nat {
    if limit.None? then n else SliceTo(n, limit.value)
  }

  /** `reciprocal_rank_fusion`: a prefix of the whole fused ranking, or None for its ZeroDivisionError. */
  method ReciprocalRankFusion(lists: seq<RankedList>, k: int, limit: Option<int>) returns (hits: Option<seq<FusedHit>>)
    ensures hits.None? <==> DividesByZero(Places(lists), k)
    ensures hits.Some? ==> exists all :: IsFusion(all, Places(lists), k) && hits.value == all[..Cut(|all|, limit)]
  {
    var ok, scores, ranks := FuseAll(lists, k);
    if !ok {
      return None;
    }
    var keys := ScoreItems(scores);
    var sorted := Sorted(keys);
    var fused := HitsInOrder(sorted, ranks);
    SortedIsFusion(fused, sorted, scores, ranks, lists, k);
    hits := Some(fused[..Cut(|fused|, limit)]);
  }

  /** The hits of the sorted keys. */
  function HitsInOrder(sorted: seq<Scored>, ranks: RankDict): (fused: seq<FusedHit>)
    ensures |fused| == |sorted|
    ensures forall j :: 0 <= j < |fused| ==>
              fused[j] == FusedHit(sorted[j].id, -sorted[j].key, RanksIn(ranks, sorted[j].id))
  {
    seq(|sorted|, j requires 0 <= j < |sorted| => FusedHit(sorted[j].id, -sorted[j].key, RanksIn(ranks, sorted[j].id)))
  }

  /** Every list of opinions has its fused ranking. */
  lemma FusionExists(lists: seq<RankedList>, k: int) returns (all: seq<FusedHit>)
    ensures IsFusion(all, Places(lists), k)
  {
    var places := Places(lists);
    var ids := set i | 0 <= i < |places| :: places[i].id;
    var scores := map id | id in ids :: Rrf(BestRanks(places, id), k);
    var ranks := map id | id in ids :: BestRanks(places, id);
    PlacesRanked(lists);
    forall id ensures Kept(scores, ranks, places, k, id) {
      BestRanksPositive(places, id);
    }
    var keys := KeyList(scores);
    all := HitsInOrder(Sorted(keys), ranks);
    SortedIsFusion(all, Sorted(keys), scores, ranks, lists, k);
  }

  lemma {:induction false} KeyList(scores: ScoreDict) returns (items: seq<Scored>)
    ensures NoDup(items)
    ensures forall x :: x in items <==> x.id in scores && x.key == -Floor12(scores[x.id])
    decreases |scores|
  {
    items := [];
    if |scores| > 0 {
      var id := Spare(scores.Keys, {});
      var rest := KeyList(scores - {id});
      items := rest + [Scored(-Floor12(scores[id]), id)];
    }
  }

  lemma SortedIsFusion(fused: seq<FusedHit>, sorted: seq<Scored>, scores: ScoreDict, ranks: RankDict,
                       lists: seq<RankedList>, k: int)
    requires Fused(scores, ranks, Places(lists), k) && Ordered(sorted) && |fused| == |sorted|
    requires forall x :: x in sorted <==> x.id in scores && x.key == -Floor12(scores[x.id])
    requires forall j :: 0 <= j < |fused| ==>
              fused[j] == FusedHit(sorted[j].id, -sorted[j].key, RanksIn(ranks, sorted[j].id))
    ensures IsFusion(fused, Places(lists), k)
  {
    var places := Places(lists);
    PlacesRanked(lists);
    assert Keys(fused) == sorted;
    forall i | 0 <= i < |fused|
      ensures Listed(places, fused[i].chunkId) && fused[i] == HitFor(places, k, fused[i].chunkId)
    {
      assert sorted[i] in sorted && Kept(scores, ranks, places, k, sorted[i].id);
    }
    forall id | Listed(places, id) ensures HitFor(places, k, id) in fused {
      assert Kept(scores, ranks, places, k, id);
      var j := PositionOf(sorted, Scored(-Floor12(scores[id]), id));
      assert fused[j] == HitFor(places, k, id);
    }
  }

  lemma PositionOf(sorted: seq<Scored>, x: Scored) returns (j: nat)
    requires x in sorted
    ensures j < |sorted| && sorted[j] == x
  {
    j :| 0 <= j < |sorted| && sorted[j] == x;
  }

  method ScoreItems(scores: ScoreDict) returns (items: seq<Scored>)
    ensures NoDup(items)
    ensures forall x :: x in items <==> x.id in scores && x.key == -Floor12(scores[x.id])
  {
    items := [];
    var left := scores.Keys;
    while |left| > 0
      invariant left <= scores.Keys && NoDup(items)
      invariant forall x :: x in items <==> x.id in scores && x.id !in left && x.key == -Floor12(scores[x.id])
      decreases |left|
    {
      ghost var w := Spare(left, {});
      var id :| id in left;
      items, left := items + [Scored(-Floor12(scores[id]), id)], left - {id};
    }
  }

  // ------------------------------------------------------------- order of the lists

  lemma {:induction false} PlacesExactly(lists: seq<RankedList>, p: Place)
    ensures p in Places(lists) <==> exists l :: l in lists && p in PlacesOf(l)
    decreases |lists|
  {
    if lists != [] {
      var before, last := lists[..|lists| - 1], lists[|lists| - 1];
      assert lists == before + [last];
      PlacesExactly(before, p);
      if l: RankedList :| l in lists && p in PlacesOf(l) {
        assert l in before || l == last;
      }
      if p in PlacesOf(last) {
        assert last in lists;
      }
    }
  }

  lemma SamePlaces(lists: seq<RankedList>, lists': seq<RankedList>, id: int)
    requires forall l :: l in lists <==> l in lists'
    ensures BestRanks(Places(lists), id) == BestRanks(Places(lists'), id)
    ensures Listed(Places(lists), id) <==> Listed(Places(lists'), id)
  {
    forall p ensures p in Places(lists) <==> p in Places(lists') {
      PlacesExactly(lists, p);
      PlacesExactly(lists', p);
    }
    BestRanksOrderFree(Places(lists), Places(lists'), id);
    PlacesRanked(lists);
    PlacesRanked(lists');
    BestRanksPositive(Places(lists), id);
    BestRanksPositive(Places(lists'), id);
  }

  lemma KeyedBy(hits: seq<FusedHit>, places: seq<Place>, k: int, x: Scored)
    requires IsFusion(hits, places, k)
    ensures x in Keys(hits) <==> Listed(places, x.id) && x.key == -HitFor(places, k, x.id).score
  {
    if x in Keys(hits) {
      var i :| 0 <= i < |hits| && Keys(hits)[i] == x;
    }
    if Listed(places, x.id) && x.key == -HitFor(places, k, x.id).score {
      var i :| 0 <= i < |hits| && hits[i] == HitFor(places, k, x.id);
      assert Keys(hits)[i] == x;
    }
  }

  /** The fused ranking is unchanged by any permutation of the lists (and by repeating one). */
  lemma FusionOrderFree(lists: seq<RankedList>, lists': seq<RankedList>, k: int, hits: seq<FusedHit>,
                        hits': seq<FusedHit>)
    requires forall l :: l in lists <==> l in lists'
    requires IsFusion(hits, Places(lists), k) && IsFusion(hits', Places(lists'), k)
    ensures hits == hits'
  {
    forall x ensures x in Keys(hits) <==> x in Keys(hits') {
      SamePlaces(lists, lists', x.id);
      KeyedBy(hits, Places(lists), k, x);
      KeyedBy(hits', Places(lists'), k, x);
    }
    OrderedUnique(Keys(hits), Keys(hits'));
    forall i | 0 <= i < |hits| ensures hits[i] == hits'[i] {
      assert Keys(hits)[i] == Keys(hits')[i];
      SamePlaces(lists, lists', hits[i].chunkId);
    }
  }

  // ------------------------------------------------------------- flooring

  lemma ScaledOrder(x: real, y: real, gap: real)
    requires x + gap <= y
    ensures x * SCALE + gap * SCALE <= y * SCALE
  {
  }

  lemma UnscaledOrder(a: int, b: int)
    ensures a <= b ==> a as real / SCALE <= b as real / SCALE
    ensures a < b ==> a as real / SCALE < b as real / SCALE
  {
  }

  lemma FloorMonotone(x: real, y: real)
    requires x <= y
    ensures Floor12(x) <= Floor12(y)
  {
    ScaledOrder(x, y, 0.0);
    UnscaledOrder((x * SCALE).Floor, (y * SCALE).Floor);
  }

  /** Sums at least 1e-12 apart keep their order when floored. */
  lemma FloorApart(x: real, y: real)
    requires x + 1.0 / SCALE <= y
    ensures Floor12(x) < Floor12(y)
  {
    ScaledOrder(x, y, 1.0 / SCALE);
    UnscaledOrder((x * SCALE).Floor, (y * SCALE).Floor);
  }
}
