/**
 What a user of the indexes sees, from the build to the answer: every vector index against the
 exact scan it is checked against, an HNSW index before and after its file, an IVF index at two
 efforts, and the lexical index from documents to hits. Each method runs the operations of the
 other modules one after the other.
 */
module EndToEnd {
  import opened Seqs
  import opened LayerSearch
  import opened UnionFind
  import opened Nearest
  import opened Brute
  import opened HnswSearch
  import opened Hnsw
  import opened Ivf
  import opened Inverted
  import opened Varint
  import Graphs
  import Descent
  import HnswInsert
  import Strategies
  import LexicalFile
  import LexicalIndex
  import Bm25

  // ------------------------------------------------------------- HNSW

  /** The distance between two rows. */
  function PairDist<V>(metric: (V, V) -> real, vectors: seq<V>): (pair: (int, int) -> real)
    ensures forall i, j :: 0 <= i < |vectors| && 0 <= j < |vectors| ==> pair(i, j) == metric(vectors[i], vectors[j])
  {
    (i: int, j: int) => if 0 <= i < |vectors| && 0 <= j < |vectors| then metric(vectors[i], vectors[j]) else 0.0
  }

  /**
   Built over the same rows, the graph and the exact scan answer the same distances when effort and budget
   cover the admissible rows.
   */
  method HnswAgainstScan<V>(index: HnswIndex, oracle: BruteForceIndex<V>, ids: seq<int>, vectors: seq<V>,
                            levels: seq<nat>, query: V, k: int, effort: Option<int>, admissible: Option<set<int>>)
    returns (hits: seq<Neighbor>, exact: seq<Neighbor>)
    requires 2 <= index.m && 1 <= index.efConstruction && |levels| == |ids| == |vectors|
    modifies index, oracle
    ensures var n := |AdmissibleIn(Upto(|ids|), MaskOf(ids, admissible))|;
            (&& index.maxVisits >= |ids| - 1
             && (|| k >= n
                 || (effort.Some? && effort.value != 0 && effort.value >= n)
                 || ((effort.None? || effort.value == 0) && index.efSearch >= n))) ==>
              Distances(hits) == Distances(exact)
    ensures admissible.Some? ==> forall h :: h in hits || h in exact ==> h.id in admissible.value
    ensures index.pair == PairDist(oracle.metric, vectors)
  {
    var dist := RowDist(oracle.metric, vectors, query);
    var ok, unrepaired, bridges, root, hub := index.Build(ids, |vectors|, PairDist(oracle.metric, vectors), levels);
    var built := oracle.Build(ids, vectors);
    ghost var rows, scanned;
    hits, rows := GraphHits(index, dist, k, effort, admissible);
    exact, scanned := ScanHits(oracle, query, k, admissible);
    var mask := MaskOf(ids, admissible);
    if k > 0 && ids != [] && KNearest(rows, AdmissibleIn(Upto(|ids|), mask), dist, k) {
      SameHitDistances(rows, scanned, AdmissibleIn(Upto(|ids|), mask), dist, k, ids, ids);
    }
  }

  /** The graph's hits for some filter, and the rows behind them. */
  method GraphHits(index: HnswIndex, dist: int -> real, k: int, effort: Option<int>, admissible: Option<set<int>>)
    returns (hits: seq<Neighbor>, ghost rows: seq<int>)
    requires |index.ids| == |index.levels|
    requires index.ids != [] ==> Searchable(index.graph, index.levels, index.entry, index.maxLevel)
    modifies index`lastVisits
    ensures index.ids == [] || k <= 0 ==> hits == []
    ensures index.ids != [] && k > 0 ==>
              var n := |index.ids|;
              var pool := AdmissibleIn(Upto(n), MaskOf(index.ids, admissible));
              && hits == HitsOf(rows, dist, index.ids)
              && (&& index.maxVisits >= n - 1
                  && |pool| <= Max(k, if effort.Some? && effort.value != 0 then effort.value else index.efSearch) ==>
                    KNearest(rows, pool, dist, k))
    ensures admissible.Some? ==> forall h :: h in hits ==> h.id in admissible.value
  {
    ghost var seen;
    hits, rows, seen := index.Search(dist, k, effort, MaskOf(index.ids, admissible));
    OnlyAdmissible(hits, rows, index.ids, admissible);
  }

  /** The exact scan's. */
  method ScanHits<V>(oracle: BruteForceIndex<V>, query: V, k: int, admissible: Option<set<int>>)
    returns (exact: seq<Neighbor>, ghost scanned: seq<int>)
    requires |oracle.ids| == |oracle.vectors|
    ensures var dist := RowDist(oracle.metric, oracle.vectors, query);
            && exact == HitsOf(scanned, dist, oracle.ids)
            && if k <= 0 then scanned == []
               else KNearest(scanned, AdmissibleIn(Upto(|oracle.ids|), MaskOf(oracle.ids, admissible)), dist, k)
    ensures admissible.Some? ==> forall h :: h in exact ==> h.id in admissible.value
  {
    exact, scanned := oracle.Search(query, k, MaskOf(oracle.ids, admissible));
    OnlyAdmissible(exact, scanned, oracle.ids, admissible);
  }

  /** The hits behind rows the compiled filter admits have admissible ids. */
  lemma OnlyAdmissible(hits: seq<Neighbor>, rows: seq<int>, ids: seq<int>, admissible: Option<set<int>>)
    requires |hits| <= |rows|
    requires forall i :: 0 <= i < |hits| ==>
               && 0 <= rows[i] < |ids| && Admits(MaskOf(ids, admissible), rows[i]) && hits[i].id == ids[rows[i]]
    ensures admissible.Some? ==> forall h :: h in hits ==> h.id in admissible.value
  {
    forall h | admissible.Some? && h in hits ensures h.id in admissible.value {
      var i :| 0 <= i < |hits| && hits[i] == h;
      assert MaskOf(ids, admissible).value[rows[i]];
    }
  }

  /** The compiled filter, if there is one. */
  function MaskOf(ids: seq<int>, admissible: Option<set<int>>): (mask: Mask)
    ensures mask.Some? <==> admissible.Some?
    ensures mask.Some? ==>
              |mask.value| == |ids| && forall i :: 0 <= i < |ids| ==> (mask.value[i] <==> ids[i] in admissible.value)
  {
    if admissible.None? then None else Some(CompileMask(ids, admissible.value))
  }

  /** Saved and loaded, an index with the default visit budget answers every search as before. */
  method SaveThenLoad(index: HnswIndex, ids: seq<int>, pair: (int, int) -> real, levels: seq<nat>, dist: int -> real,
                      k: int, effort: Option<int>, mask: Mask)
    returns (loaded: HnswIndex, hits: seq<Neighbor>, again: seq<Neighbor>)
    requires 2 <= index.m && 1 <= index.efConstruction && |levels| == |ids|
    modifies index
    ensures fresh(loaded)
    ensures index.maxVisits == 20000 ==> hits == again
  {
    var ok, unrepaired, bridges, root, hub := index.Build(ids, |ids|, pair, levels);
    var archive := index.Save();
    loaded := new HnswIndex.Load(archive);
    BuiltInside(index.graph, unrepaired, levels, index.entry, index.maxLevel, index.m, |ids|);
    SaveLoad(index.graph, levels, index.entry, index.maxLevel, archive.layers, loaded.graph, archive.entry);
    hits, again := SearchBoth(index, loaded, dist, k, effort, mask);
  }

  /** A search, and that the graph alone determines its answer. */
  method SearchAs(index: HnswIndex, dist: int -> real, k: int, effort: Option<int>, mask: Mask)
    returns (hits: seq<Neighbor>)
    requires |index.ids| == |index.levels| && Searchable(index.graph, index.levels, index.entry, index.maxLevel)
    modifies index`lastVisits
    ensures index.ids == [] || k <= 0 ==> hits == []
    ensures index.ids != [] && k > 0 ==>
              && index.entry.Some?
              && SearchFinds(index.graph, index.ids, dist, k, Effort(effort, index.efSearch, k), mask, index.maxVisits,
                             index.entry.value, index.maxLevel, hits)
  {
    ghost var rows, seen;
    hits, rows, seen := index.Search(dist, k, effort, mask);
  }

  /** Two indexes alike in all but the representation of their layers answer alike. */
  method SearchBoth(index: HnswIndex, other: HnswIndex, dist: int -> real, k: int, effort: Option<int>, mask: Mask)
    returns (hits: seq<Neighbor>, again: seq<Neighbor>)
    requires index != other && index.ids == other.ids && index.levels == other.levels && |index.ids| == |index.levels|
    requires index.entry == other.entry && index.maxLevel == other.maxLevel && index.efSearch == other.efSearch
    requires Searchable(index.graph, index.levels, index.entry, index.maxLevel)
    requires Searchable(other.graph, other.levels, other.entry, other.maxLevel)
    requires Descent.SameNeighbours(index.graph, other.graph)
    modifies index`lastVisits, other`lastVisits
    ensures index.maxVisits == other.maxVisits ==> hits == again
  {
    ghost var graph, graph', ids, entry, maxLevel := index.graph, other.graph, index.ids, index.entry, index.maxLevel;
    ghost var ef, budget := Effort(effort, index.efSearch, k), index.maxVisits;
    hits := SearchAs(index, dist, k, effort, mask);
    again := SearchAs(other, dist, k, effort, mask);
    if ids != [] && k > 0 && budget == other.maxVisits {
      SearchOnce(graph, graph', ids, dist, k, ef, mask, budget, entry.value, maxLevel, hits, again);
    }
  }

  /** A built graph has no other nodes than its rows. */
  lemma BuiltInside(graph: seq<Graphs.Layer>, unrepaired: Graphs.Layer, levels: seq<nat>, entry: Option<int>,
                    maxLevel: nat, m: nat, n: nat)
    requires |graph| == maxLevel + 1 && n == |levels| && graph[0].Keys == unrepaired.Keys
    requires HnswInsert.Layered(graph[0 := unrepaired], levels, Upto(n), entry, maxLevel, m)
    ensures forall l :: 0 <= l < |graph| ==> graph[l].Keys <= Upto(n)
  {
    var before := graph[0 := unrepaired];
    forall l | 0 <= l < |graph| ensures graph[l].Keys <= Upto(n) {
      assert HnswInsert.LayerOk(before[l], levels, Upto(n), l, m);
      assert graph[l].Keys == before[l].Keys;
    }
  }

  // ------------------------------------------------------------- IVF

  /** With every cell probed the permuted rows answer the distances of the exact scan, under any filter. */
  method IvfAgainstScan<V>(index: IvfFlatIndex<V>, oracle: BruteForceIndex<V>, ids: seq<int>, vectors: seq<V>,
                           centroids: seq<V>, query: V, k: int, effort: Option<int>, admissible: Option<set<int>>)
    returns (hits: seq<Neighbor>, exact: seq<Neighbor>)
    requires index.metric == oracle.metric && centroids != [] && |ids| == |vectors|
    modifies index, oracle
    ensures effort.Some? && effort.value >= |centroids| ==> Distances(hits) == Distances(exact)
    ensures admissible.Some? ==> forall h :: h in hits || h in exact ==> h.id in admissible.value
  {
    var ok, order := index.Build(ids, vectors, centroids);
    var built := oracle.Build(ids, vectors);
    ghost var rows, scanned;
    hits, rows := CellHits(index, query, k, effort, admissible);
    exact, scanned := ScanHits(oracle, query, k, admissible);
    if ids != [] && k > 0 && effort.Some? && effort.value >= |centroids| {
      var dist, dist' := RowDist(index.metric, vectors, query), RowDist(index.metric, index.vectors, query);
      IvfMatchesScan(order, |ids|, dist, dist', MaskOf(ids, admissible), MaskOf(index.ids, admissible), rows, scanned,
                     k);
      HitDistances(rows, dist', index.ids);
      HitDistances(scanned, dist, ids);
    }
  }

  /** The hits of the cells, the nearest of all admissible rows when every cell is asked for. */
  method CellHits<V>(index: IvfFlatIndex<V>, query: V, k: int, effort: Option<int>, admissible: Option<set<int>>)
    returns (hits: seq<Neighbor>, ghost rows: seq<int>)
    requires index.Valid()
    modifies index`lastProbes
    ensures index.ids == [] || k <= 0 ==> hits == []
    ensures index.ids != [] && k > 0 ==>
              var dist, n := RowDist(index.metric, index.vectors, query), |index.ids|;
              && hits == HitsOf(rows, dist, index.ids)
              && (effort.Some? && effort.value >= |index.centroids| ==>
                    KNearest(rows, AdmissibleIn(Upto(n), MaskOf(index.ids, admissible)), dist, k))
    ensures admissible.Some? ==> forall h :: h in hits ==> h.id in admissible.value
  {
    var mask := MaskOf(index.ids, admissible);
    ghost var walked;
    hits, rows, walked := index.Search(query, k, effort, mask);
    OnlyAdmissible(hits, rows, index.ids, admissible);
    if index.ids != [] && k > 0 && effort.Some? && effort.value >= |index.centroids| {
      ghost var cdist := RowDist(index.metric, index.centroids, query);
      AllProbesExact(walked, index.offsets, cdist, |index.centroids|, |index.ids|, Min(k, |index.ids|), mask);
      AnyNearest(rows, |index.ids|, mask, RowDist(index.metric, index.vectors, query), k);
    }
  }

  /** Asking for more rows than there are is asking for all. */
  lemma AnyNearest(rows: seq<int>, n: nat, mask: Mask, dist: int -> real, k: nat)
    requires KNearest(rows, AdmissibleIn(Upto(n), mask), dist, Min(k, n))
    ensures KNearest(rows, AdmissibleIn(Upto(n), mask), dist, k)
  {
    SubsetSize(AdmissibleIn(Upto(n), mask), Upto(n));
  }

  lemma HitDistances(rows: seq<int>, dist: int -> real, ids: seq<int>)
    ensures Distances(HitsOf(rows, dist, ids)) == DistancesOf(rows, dist)
  {
  }

  /**
   One index, one query, two efforts: at more probes no answered distance is greater, and a
   filter leaves the number of answers alone. Without a filter, no tied distance may span both cuts.
   */
  method IvfMoreEffort<V>(index: IvfFlatIndex<V>, query: V, k: int, effort: int, more: int, mask: Mask)
    returns (hits: seq<Neighbor>, better: seq<Neighbor>)
    requires index.Valid() && effort != 0 && more != 0 && effort <= more
    requires mask.Some? || ClearCut(RowDist(index.metric, index.centroids, query), |index.centroids|,
                                    Max(1, Min(effort, |index.centroids|)), Max(1, Min(more, |index.centroids|)))
    modifies index`lastProbes
    ensures |hits| <= |better| && (mask.Some? ==> |hits| == |better|)
    ensures forall i :: 0 <= i < |hits| ==> better[i].distance <= hits[i].distance
  {
    ghost var few, many, walkedFew, walkedMany;
    hits, few, walkedFew := index.Search(query, k, Some(effort), mask);
    better, many, walkedMany := index.Search(query, k, Some(more), mask);
    if index.ids != [] && k > 0 {
      MoreProbesNoFarther(few, many, walkedFew, walkedMany, index.offsets,
                          RowDist(index.metric, index.centroids, query), RowDist(index.metric, index.vectors, query),
                          |index.centroids|, |index.ids|, Min(k, |index.ids|),
                          Max(1, Min(effort, |index.centroids|)), Max(1, Min(more, |index.centroids|)), mask);
    }
  }

  // ------------------------------------------------------------- post-filtering

  /** Post-filtering answers a prefix of the filtered scan's distances, and all of them once it fetches the corpus. */
  method PostFilterAgainstScan<V>(index: BruteForceIndex<V>, query: V, k: nat, admissible: set<int>, overfetch: int)
    returns (hits: seq<Neighbor>, exact: seq<Neighbor>)
    requires |index.ids| == |index.vectors|
    ensures Distances(hits) <= Distances(exact)
    ensures k * overfetch >= |index.ids| ==> Distances(hits) == Distances(exact)
  {
    ghost var raw, scanned;
    var mask := CompileMask(index.ids, admissible);
    var dist := RowDist(index.metric, index.vectors, query);
    hits, raw := Strategies.PostFilterSearch(index, query, k, admissible, overfetch);
    exact, scanned := index.Search(query, k, Some(mask));
    HitDistances(Strategies.PostRows(raw, Some(mask), k), dist, index.ids);
    HitDistances(scanned, dist, index.ids);
    if k > 0 {
      Strategies.PostFilterIsPrefix(raw, scanned, |index.ids|, dist, Some(mask), k, overfetch);
    }
  }

  // ------------------------------------------------------------- the lexical index

  /** What the double in the header may lose: not the sign of an average of fewer than 2^32 documents. */
  ghost predicate KeepsSign(pack: real -> seq<Byte>, unpack: seq<Byte> -> real) {
    forall x {:trigger pack(x)} :: |pack(x)| == 8 && (x * LexicalFile.TWO_32 as real >= 1.0 ==> unpack(pack(x)) > 0.0)
  }

  /** The file can be written and opened: ids and lengths fit, and so do the counts and offsets. */
  ghost predicate Writable(docs: seq<Doc>, f: LexicalFile.File) {
    && (forall d :: d in docs ==> 0 <= d.id < LexicalFile.TWO_63 && |d.terms| < LexicalFile.TWO_31)
    && LexicalFile.Packs(f)
  }

  /** The weights the file of these documents leads to. */
  function FileWeights(docs: seq<Doc>, pack: real -> seq<Byte>, unpack: seq<Byte> -> real,
                       log: real -> real): Bm25.Weights {
    Bm25.Weights(log, unpack(pack(LexicalIndex.Average(Bm25.Lens(docs)))))
  }

  lemma AverageIsKept(docs: seq<Doc>, pack: real -> seq<Byte>, unpack: seq<Byte> -> real, log: real -> real)
    requires KeepsSign(pack, unpack) && |docs| < LexicalFile.TWO_32
    ensures Bm25.Averages(FileWeights(docs, pack, unpack, log), docs)
  {
    var average, total := LexicalIndex.Average(Bm25.Lens(docs)), LexicalIndex.Total(Bm25.Lens(docs));
    if average > 0.0 {
      AtLeastShare(average, total, |docs|);
      assert |pack(average)| == 8;
    }
  }

  lemma AtLeastShare(average: real, total: nat, n: nat)
    requires 0 < n < LexicalFile.TWO_32 && average == total as real / n as real && average > 0.0
    ensures average * LexicalFile.TWO_32 as real >= 1.0
  {
    assert average * n as real == total as real;
    assert total >= 1;
    assert average * (LexicalFile.TWO_32 - n) as real >= 0.0;
  }

  /** What opening the file of some documents gives. */
  lemma OpenedServes(docs: seq<Doc>, f: LexicalFile.File, pack: real -> seq<Byte>, unpack: seq<Byte> -> real,
                     log: real -> real, text: LexicalFile.Text)
    requires KeepsSign(pack, unpack) && LexicalFile.Packs(f) && LexicalIndex.Texts(docs, text)
    requires LexicalIndex.FileOf(f, docs, pack(LexicalIndex.Average(f.lens)))
    ensures var opening := LexicalFile.OpenFile(LexicalFile.FileBytes(f), text);
            && (opening.Opened? <==>
                  forall d :: d in docs ==> d.id < LexicalFile.TWO_63 && |d.terms| < LexicalFile.TWO_31)
            && (opening.Opened? ==>
                  && Bm25.Serves(opening.index, docs)
                  && Bm25.WeightsOf(opening.index, log, unpack) == FileWeights(docs, pack, unpack, log))
    ensures Bm25.Averages(FileWeights(docs, pack, unpack, log), docs)
  {
    var average := LexicalIndex.Average(f.lens);
    assert f.lens == Bm25.Lens(docs);
    assert |pack(average)| == 8;
    AverageIsKept(docs, pack, unpack, log);
    LexicalIndex.OpenOfBuild(f, docs, pack(average), text);
    if LexicalFile.OpenFile(LexicalFile.FileBytes(f), text).Opened? {
      Bm25.OpenServes(f, docs, pack(average), text);
    }
  }

  /** Searching an opened index under a compiled filter. */
  method SearchOpened(index: LexicalFile.Index, w: Bm25.Weights, query: seq<Term>, k: int, admissible: Option<set<int>>,
                      ghost docs: seq<Doc>)
    returns (hits: seq<Bm25.Hit>)
    requires Bm25.Serves(index, docs) && Bm25.Averages(w, docs)
    ensures hits == Bm25.FirstHits(docs, Bm25.Ranking(docs, w, query, DocsMask(docs, admissible), |docs|), k)
  {
    var mask: Mask := None;
    if admissible.Some? {
      var compiled := Bm25.CompileFilter(index, admissible.value);
      assert compiled == Bm25.DocMask(docs, admissible.value);
      mask := Some(compiled);
    }
    hits := Bm25.Search(index, w, query, k, mask, docs);
  }

  function DocsMask(docs: seq<Doc>, admissible: Option<set<int>>): (mask: Mask)
    ensures mask.Some? <==> admissible.Some?
    ensures mask.Some? ==>
              && |mask.value| == |docs|
              && forall i :: 0 <= i < |docs| ==> (mask.value[i] <==> docs[i].id in admissible.value)
  {
    if admissible.None? then None else Some(Bm25.DocMask(docs, admissible.value))
  }

  /**
   From documents to hits by way of the file: the first k of the BM25 ranking of the admissible
   documents, by the average length the file keeps; None where building or opening raises.
   */
  method BuildOpenSearch(docs: seq<Doc>, pack: real -> seq<Byte>, unpack: seq<Byte> -> real, log: real -> real,
                         query: seq<Term>, k: int, admissible: Option<set<int>>, text: LexicalFile.Text)
    returns (hits: Option<seq<Bm25.Hit>>, ghost f: LexicalFile.File)
    requires KeepsSign(pack, unpack) && LexicalIndex.Texts(docs, text)
    ensures hits.Some? <==> Writable(docs, f)
    ensures hits.Some? ==> LexicalIndex.FileOf(f, docs, pack(LexicalIndex.Average(f.lens)))
    ensures hits.Some? ==>
              var w := FileWeights(docs, pack, unpack, log);
              hits.value == Bm25.FirstHits(docs, Bm25.Ranking(docs, w, query, DocsMask(docs, admissible), |docs|), k)
  {
    var bytes;
    bytes, f := LexicalIndex.BuildIndex(docs, pack);
    if bytes.None? {
      return None, f;
    }
    OpenedServes(docs, f, pack, unpack, log, text);
    var opening := LexicalIndex.Open(bytes.value, text);
    if !opening.Opened? {
      return None, f;
    }
    var found := SearchOpened(opening.index, Bm25.WeightsOf(opening.index, log, unpack), query, k, admissible, docs);
    hits := Some(found);
  }
}
