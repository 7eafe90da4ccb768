/** `hybrid_search`: both retrievers under one admissible set, fused, over each of the three vector indexes. */
module Retrieve {
  import opened Seqs
  import opened LayerSearch
  import opened UnionFind
  import Nearest
  import Brute
  import Bm25
  import Hnsw
  import HnswSearch
  import Ivf
  import opened Inverted
  import opened LexicalFile
  import opened Fusion
  import opened Hybrid

  function ChunkIds(hits: seq<Bm25.Hit>): (ids: seq<int>)
    ensures |ids| == |hits| && forall i :: 0 <= i < |hits| ==> ids[i] == hits[i].chunkId
  {
    seq(|hits|, i requires 0 <= i < |hits| => hits[i].chunkId)
  }

  function NeighborIds(hits: seq<Nearest.Neighbor>): (ids: seq<int>)
    ensures |ids| == |hits| && forall i :: 0 <= i < |hits| ==> ids[i] == hits[i].id
  {
    seq(|hits|, i requires 0 <= i < |hits| => hits[i].id)
  }

  lemma LexicalAdmissible(docs: seq<Doc>, w: Bm25.Weights, query: seq<Term>, mask: seq<bool>, k: int,
                          admissible: set<int>)
    requires |mask| == |docs| && forall i :: 0 <= i < |docs| ==> (mask[i] <==> docs[i].id in admissible)
    ensures forall h :: h in Bm25.FirstHits(docs, Bm25.Ranking(docs, w, query, Some(mask), |docs|), k) ==>
              h.chunkId in admissible
  {
    var ranking := Bm25.Ranking(docs, w, query, Some(mask), |docs|);
    var hits := Bm25.FirstHits(docs, ranking, k);
    forall h | h in hits ensures h.chunkId in admissible {
      var i :| 0 <= i < |hits| && hits[i] == h;
      assert ranking[i] in ranking;
    }
  }

  lemma VectorAdmissible(rows: seq<int>, dist: int -> real, ids: seq<int>, admissible: set<int>)
    requires Elems(rows) <= AdmissibleRows(ids, admissible)
    ensures forall id :: id in NeighborIds(Nearest.HitsOf(rows, dist, ids)) ==> id in admissible
  {
    var found := NeighborIds(Nearest.HitsOf(rows, dist, ids));
    forall id | id in found ensures id in admissible {
      var i :| 0 <= i < |found| && found[i] == id;
      var r := rows[i];
      assert r in Elems(rows);
      assert r in Upto(|ids|);
    }
  }

  lemma ListedIn(lexical: seq<int>, vector: seq<int>, all: seq<FusedHit>, i: nat)
    requires FusionOfTwo(all, lexical, vector) && i < |all|
    ensures all[i].chunkId in lexical || all[i].chunkId in vector
  {
    var places, id := Places(TwoLists(lexical, vector)), all[i].chunkId;
    HitIs(all, lexical, vector, i);
    RanksAreTwo(lexical, vector, id);
    PlacesRanked(TwoLists(lexical, vector));
    BestRanksPositive(places, id);
    OnlyTwo(BestRanks(places, id), Max(|lexical|, |vector|));
  }

  /** A prefix of the fused ranking, and nothing that neither list holds. */
  ghost predicate FusedFrom(hits: seq<FusedHit>, lexical: seq<int>, vector: seq<int>, k: int) {
    exists all :: FusionOfTwo(all, lexical, vector) && hits == all[..Cut(|all|, Some(k))]
  }

  lemma FusedAreListed(hits: seq<FusedHit>, lexical: seq<int>, vector: seq<int>, k: int, admissible: set<int>)
    requires FusedFrom(hits, lexical, vector, k)
    requires (forall id :: id in lexical ==> id in admissible) && forall id :: id in vector ==> id in admissible
    ensures forall i :: 0 <= i < |hits| ==> hits[i].chunkId in admissible
  {
    var all :| FusionOfTwo(all, lexical, vector) && hits == all[..Cut(|all|, Some(k))];
    forall i | 0 <= i < |hits| ensures hits[i].chunkId in admissible {
      ListedIn(lexical, vector, all, i);
    }
  }

  /** The first candidates of the ranking of the admissible documents. */
  ghost predicate LexicalSide(ids: seq<int>, docs: seq<Doc>, w: Bm25.Weights, query: seq<Term>, candidates: int,
                              admissible: set<int>) {
    var ranking := Bm25.Ranking(docs, w, query, Some(Bm25.DocMask(docs, admissible)), |docs|);
    ids == ChunkIds(Bm25.FirstHits(docs, ranking, candidates))
  }

  ghost function AdmissibleRows(ids: seq<int>, admissible: set<int>): set<int> {
    AdmissibleIn(Upto(|ids|), Some(Brute.CompileMask(ids, admissible)))
  }

  /** The ids of the nearest rows of a pool of admissible ones: all of them for an exact answer. */
  ghost predicate VectorSide(found: seq<int>, ids: seq<int>, dist: int -> real, candidates: int, admissible: set<int>,
                             pool: set<int>) {
    && pool <= AdmissibleRows(ids, admissible)
    && exists rows :: found == NeighborIds(Nearest.HitsOf(rows, dist, ids)) && Nearest.SortedRows(rows, dist, ids) &&
        Nearest.KNearest(rows, pool, dist, Max(candidates, 0))
  }

  /** The answer of a vector index is a vector side, and lists admissible chunks only. */
  lemma VectorSideIs(hits: seq<Nearest.Neighbor>, rows: seq<int>, ids: seq<int>, dist: int -> real, candidates: int,
                     admissible: set<int>, pool: set<int>)
    requires pool <= AdmissibleRows(ids, admissible)
    requires hits == Nearest.HitsOf(rows, dist, ids) && Nearest.SortedRows(rows, dist, ids)
    requires Nearest.KNearest(rows, pool, dist, Max(candidates, 0))
    ensures VectorSide(NeighborIds(hits), ids, dist, candidates, admissible, pool)
    ensures |hits| <= Max(candidates, 0) && forall id :: id in NeighborIds(hits) ==> id in admissible
  {
    VectorAdmissible(rows, dist, ids, admissible);
  }

  lemma NothingNearest(dist: int -> real, ids: seq<int>, pool: set<int>, k: nat)
    requires k == 0 || pool == {}
    ensures Nearest.KNearest([], pool, dist, k) && Nearest.HitsOf([], dist, ids) == []
  {
    assert Elems<int>([]) == {};
  }

  lemma NoRows(ids: seq<int>, admissible: set<int>)
    requires ids == []
    ensures AdmissibleRows(ids, admissible) == {}
  {
  }

  /** What every hybrid search returns, whatever index found the vector side. */
  ghost predicate Hybridised(hits: seq<FusedHit>, lexicalIds: seq<int>, vectorIds: seq<int>, docs: seq<Doc>,
                             w: Bm25.Weights, query: seq<Term>, candidates: int, admissible: set<int>, k: int) {
    && |lexicalIds| <= Max(candidates, 0) && |vectorIds| <= Max(candidates, 0)
    && LexicalSide(lexicalIds, docs, w, query, candidates, admissible)
    && FusedFrom(hits, lexicalIds, vectorIds, k)
    && forall i :: 0 <= i < |hits| ==> hits[i].chunkId in admissible
  }

  /** The lexical side, and both sides fused. */
  method FuseSides(lexical: Index, w: Bm25.Weights, query: seq<Term>, vectorIds: seq<int>, admissible: set<int>, k: int,
                   candidates: int, ghost docs: seq<Doc>)
    returns (hits: seq<FusedHit>, lexicalIds: seq<int>)
    requires Bm25.Serves(lexical, docs) && Bm25.Averages(w, docs)
    requires |vectorIds| <= Max(candidates, 0) && forall id :: id in vectorIds ==> id in admissible
    ensures Hybridised(hits, lexicalIds, vectorIds, docs, w, query, candidates, admissible, k)
  {
    var mask := Bm25.CompileFilter(lexical, admissible);
    assert mask == Bm25.DocMask(docs, admissible);
    var lexicalHits := Bm25.Search(lexical, w, query, candidates, Some(mask), docs);
    LexicalAdmissible(docs, w, query, mask, candidates, admissible);
    lexicalIds := ChunkIds(lexicalHits);
    DampedIsSafe(TwoLists(lexicalIds, vectorIds), RRF_K);
    var fused := ReciprocalRankFusion(TwoLists(lexicalIds, vectorIds), RRF_K, Some(k));
    hits := fused.value;
    FusedAreListed(hits, lexicalIds, vectorIds, k, admissible);
  }

  /** `hybrid_search` over the exact scan. */
  method HybridSearch<V>(lexical: Index, w: Bm25.Weights, vector: Brute.BruteForceIndex<V>, query: seq<Term>,
                         queryVector: V, admissible: set<int>, k: int, candidates: int, ghost docs: seq<Doc>)
    returns (hits: seq<FusedHit>, lexicalIds: seq<int>, vectorIds: seq<int>)
    requires Bm25.Serves(lexical, docs) && Bm25.Averages(w, docs) && |vector.ids| == |vector.vectors|
    ensures Hybridised(hits, lexicalIds, vectorIds, docs, w, query, candidates, admissible, k)
    ensures VectorSide(vectorIds, vector.ids, Brute.RowDist(vector.metric, vector.vectors, queryVector), candidates,
                       admissible, AdmissibleRows(vector.ids, admissible))
  {
    ghost var dist := Brute.RowDist(vector.metric, vector.vectors, queryVector);
    ghost var pool := AdmissibleRows(vector.ids, admissible);
    var found, rows := vector.Search(queryVector, candidates, Some(Brute.CompileMask(vector.ids, admissible)));
    if candidates <= 0 {
      NothingNearest(dist, vector.ids, pool, 0);
    }
    VectorSideIs(found, rows, vector.ids, dist, candidates, admissible, pool);
    vectorIds := NeighborIds(found);
    hits, lexicalIds := FuseSides(lexical, w, query, vectorIds, admissible, k, candidates, docs);
  }

  /** `hybrid_search` over the graph: its pool is what the walk saw, everything admissible at full effort and budget. */
  method HybridSearchGraph(lexical: Index, w: Bm25.Weights, vector: Hnsw.HnswIndex, query: seq<Term>, dist: int -> real,
                           admissible: set<int>, k: int, candidates: int, effort: Option<int>, ghost docs: seq<Doc>)
    returns (hits: seq<FusedHit>, lexicalIds: seq<int>, vectorIds: seq<int>, ghost pool: set<int>)
    requires Bm25.Serves(lexical, docs) && Bm25.Averages(w, docs) && |vector.ids| == |vector.levels|
    requires vector.ids != [] ==> HnswSearch.Searchable(vector.graph, vector.levels, vector.entry, vector.maxLevel)
    modifies vector`lastVisits
    ensures Hybridised(hits, lexicalIds, vectorIds, docs, w, query, candidates, admissible, k)
    ensures VectorSide(vectorIds, vector.ids, dist, candidates, admissible, pool)
    ensures var all := AdmissibleRows(vector.ids, admissible);
            (&& vector.maxVisits >= |vector.ids| - 1
             && (|| candidates >= |all|
                 || (effort.Some? && effort.value != 0 && effort.value >= |all|)
                 || ((effort.None? || effort.value == 0) && vector.efSearch >= |all|))) ==> pool == all
  {
    ghost var all, rows, seen := AdmissibleRows(vector.ids, admissible), [], {};
    var mask := Some(Brute.CompileMask(vector.ids, admissible));
    var found;
    found, rows, seen := vector.Search(dist, candidates, effort, mask);
    pool := all;
    if vector.ids == [] || candidates <= 0 {
      rows := [];
      if vector.ids == [] {
        NoRows(vector.ids, admissible);
      }
      NothingNearest(dist, vector.ids, all, Max(candidates, 0));
    } else if !Nearest.KNearest(rows, all, dist, candidates) {
      pool := AdmissibleIn(seen, mask);
    }
    VectorSideIs(found, rows, vector.ids, dist, candidates, admissible, pool);
    vectorIds := NeighborIds(found);
    hits, lexicalIds := FuseSides(lexical, w, query, vectorIds, admissible, k, candidates, docs);
  }

  /** What a filtered search of the cells has to choose from. */
  lemma CellsPool(rows: seq<int>, walked: seq<int>, offsets: seq<int>, cdist: int -> real, dist: int -> real,
                  lists: nat, n: nat, k: nat, probes: nat, mask: Mask)
    requires mask.Some? && Ivf.CutIntoCells(offsets, lists, n)
    requires Ivf.Walks(walked, offsets, cdist, lists, Min(k, n), probes, mask)
    requires Nearest.KNearest(rows, Elems(Ivf.Collected(offsets, mask, walked)), dist, Min(k, n))
    ensures var all, pool := AdmissibleIn(Upto(n), mask), Elems(Ivf.Collected(offsets, mask, walked));
            && pool <= all && |rows| == Min(k, |all|) && Nearest.KNearest(rows, pool, dist, k)
            && (probes == lists ==> pool == all)
  {
    Ivf.FilteredPool(walked, offsets, cdist, lists, n, Min(k, n), probes, mask);
    Ivf.FilteredAnswer(rows, walked, offsets, cdist, dist, lists, n, k, probes, mask);
    SubsetSize(AdmissibleIn(Upto(n), mask), Upto(n));
    SubsetSize(Elems(Ivf.Collected(offsets, mask, walked)), AdmissibleIn(Upto(n), mask));
    if probes == lists {
      Ivf.AllProbesExact(walked, offsets, cdist, lists, n, Min(k, n), mask);
    }
  }

  /**
   `hybrid_search` over the cells: its pool is what the probed cells hold, everything admissible with all
   of them probed.
   */
  method HybridSearchCells<V>(lexical: Index, w: Bm25.Weights, vector: Ivf.IvfFlatIndex<V>, query: seq<Term>,
                              queryVector: V, admissible: set<int>, k: int, candidates: int, effort: Option<int>,
                              ghost docs: seq<Doc>)
    returns (hits: seq<FusedHit>, lexicalIds: seq<int>, vectorIds: seq<int>, ghost pool: set<int>)
    requires Bm25.Serves(lexical, docs) && Bm25.Averages(w, docs) && vector.Valid()
    modifies vector`lastProbes
    ensures Hybridised(hits, lexicalIds, vectorIds, docs, w, query, candidates, admissible, k)
    ensures var all := AdmissibleRows(vector.ids, admissible);
            var dist := Brute.RowDist(vector.metric, vector.vectors, queryVector);
            && VectorSide(vectorIds, vector.ids, dist, candidates, admissible, pool)
            && |vectorIds| == Min(Max(candidates, 0), |all|)
            && (effort.Some? && effort.value >= |vector.centroids| > 0 ==> pool == all)
  {
    ghost var all, rows, walked := AdmissibleRows(vector.ids, admissible), [], [];
    ghost var dist, n := Brute.RowDist(vector.metric, vector.vectors, queryVector), |vector.ids|;
    ghost var cdist, lists := Brute.RowDist(vector.metric, vector.centroids, queryVector), |vector.centroids|;
    var mask := Some(Brute.CompileMask(vector.ids, admissible));
    var found;
    found, rows, walked := vector.Search(queryVector, candidates, effort, mask);
    pool := all;
    if vector.ids == [] || candidates <= 0 {
      rows := [];
      if vector.ids == [] {
        NoRows(vector.ids, admissible);
      }
      NothingNearest(dist, vector.ids, all, Max(candidates, 0));
    } else {
      pool := Elems(Ivf.Collected(vector.offsets, mask, walked));
      CellsPool(rows, walked, vector.offsets, cdist, dist, lists, n, candidates,
                Ivf.Probes(effort, vector.defaultProbe, lists),
                mask);
    }
    VectorSideIs(found, rows, vector.ids, dist, candidates, admissible, pool);
    vectorIds := NeighborIds(found);
    hits, lexicalIds := FuseSides(lexical, w, query, vectorIds, admissible, k, candidates, docs);
  }
}
