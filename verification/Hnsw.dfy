/**
 The HNSW index (`HNSWIndex`): a stack of symmetric layers, built by insertion and repair,
 searched, saved and loaded. The levels a build draws at random come in as data, and distances
 between rows are an arbitrary real-valued function.
 */
module Hnsw {
  import opened Seqs
  import opened Heaps
  import opened Graphs
  import opened LayerSearch
  import opened Descent
  import opened HnswInsert
  import opened HnswSearch
  import opened UnionFind
  import opened Repair
  import Csr
  import Nearest

  const DEFAULT_MAX_VISITS := 20_000

  /** Distances to a row of the index, as a query sees them. */
  function DistTo(pair: (int, int) -> real, node: int): int -> real {
    (i: int) => pair(i, node)
  }

  /** A built index can be searched. */
  lemma BuiltSearchable(graph: seq<Layer>, levels: seq<nat>, entry: Option<int>, maxLevel: nat, m: nat, repaired: Layer)
    requires Layered(graph, levels, Upto(|levels|), entry, maxLevel, m)
    requires repaired.Keys == graph[0].Keys && Simple(repaired) && Connected(repaired, Upto(|levels|))
    ensures Searchable(graph[0 := repaired], levels, entry, maxLevel)
  {
    var all := Upto(|levels|);
    var g := graph[0 := repaired];
    forall l | 0 <= l < |g| ensures Walkable(g[l], AtLevel(levels, all, l)) {
      assert LayerOk(graph[l], levels, all, l, m);
      SimpleWalkable(g[l]);
    }
    assert levels == [] ==> all == {};
    assert levels != [] ==> 0 in all;
  }

  lemma TinyConnected(g: Layer, n: nat)
    requires n <= 1
    ensures Connected(g, Upto(n))
  {
    LinkedSelf(g, 0);
  }

  /** `_repair_connectivity` over the fields it reads. */
  method RepairGraph(pair: (int, int) -> real, graph: seq<Layer>, levels: seq<nat>, entry: Option<int>, maxLevel: nat,
                     m: nat)
    returns (graph': seq<Layer>, bridges: seq<Bridge>, ghost root: seq<int>, ghost hub: int)
    requires Layered(graph, levels, Upto(|levels|), entry, maxLevel, m)
    ensures Searchable(graph', levels, entry, maxLevel) && graph' == graph[0 := graph'[0]]
    ensures if |levels| <= 1 then graph' == graph
            else |root| == |levels| && Repaired(pair, graph[0], graph'[0], bridges, root, hub)
  {
    assert LayerOk(graph[0], levels, Upto(|levels|), 0, m);
    graph', bridges, root, hub := graph, [], [], 0;
    if |levels| <= 1 || entry.None? {
      TinyConnected(graph[0], |levels|);
      BuiltSearchable(graph, levels, entry, maxLevel, m, graph[0]);
      assert graph[0 := graph[0]] == graph;
      return;
    }
    var g;
    g, bridges, root, hub := RepairLayer(pair, graph[0], |levels|);
    BuiltSearchable(graph, levels, entry, maxLevel, m, g);
    graph' := graph[0 := g];
  }

  // ------------------------------------------------------------- runs of insertions

  /** What the index is after each number of insertions. */
  datatype Moment = Moment(graph: seq<Layer>, entry: Option<int>)

  /** Row i, of that level, is inserted. */
  ghost predicate InsertedAt(pair: (int, int) -> real, level: nat, efc: nat, m: nat, i: nat, before: Moment,
                             after: Moment) {
    exists start, found ::
      Inserts(before.graph, after.graph, pair, DistTo(pair, i), i, level, before.entry, after.entry, start, found,
              efc, m)
  }

  /** The first rows are inserted one after the other, in the order of their numbers, into an empty index. */
  ghost predicate InsertionRun(pair: (int, int) -> real, levels: seq<nat>, efc: nat, m: nat, run: seq<Moment>) {
    && 1 <= |run| <= |levels| + 1 && run[0] == Moment([map[]], None)
    && forall i :: 0 <= i < |run| - 1 ==> InsertedAt(pair, levels[i], efc, m, i, run[i], run[i + 1])
  }

  ghost predicate RunEnds(pair: (int, int) -> real, levels: seq<nat>, efc: nat, m: nat, end: Moment) {
    exists run :: InsertionRun(pair, levels, efc, m, run) && |run| == |levels| + 1 && run[|levels|] == end
  }

  lemma RunMore(pair: (int, int) -> real, levels: seq<nat>, efc: nat, m: nat, run: seq<Moment>, now: Moment)
    requires InsertionRun(pair, levels, efc, m, run) && |run| <= |levels|
    requires InsertedAt(pair, levels[|run| - 1], efc, m, |run| - 1, run[|run| - 1], now)
    ensures InsertionRun(pair, levels, efc, m, run + [now])
  {
  }

  /** The search of a non-empty index for k > 0 rows, and what its hits are. */
  method SearchRows(graph: seq<Layer>, ids: seq<int>, dist: int -> real, k: nat, ef: nat, mask: Mask, budget: nat,
                    entry: int, maxLevel: nat, ghost levels: seq<nat>)
    returns (hits: seq<Nearest.Neighbor>, visits: nat, ghost rows: seq<int>, ghost seen: set<int>)
    requires 0 < k <= ef && |ids| == |levels| && Searchable(graph, levels, Some(entry), maxLevel)
    ensures hits == Nearest.HitsOf(rows, dist, ids) && Nearest.SortedRows(rows, dist, ids)
    ensures seen <= Upto(|ids|) && Nearest.KNearest(rows, AdmissibleIn(seen, mask), dist, k)
    ensures |AdmissibleIn(Upto(|ids|), mask)| <= ef && budget >= |ids| - 1 ==>
              Nearest.KNearest(rows, AdmissibleIn(Upto(|ids|), mask), dist, k)
    ensures forall degree :: MaxDegree(graph[0], Upto(|ids|), degree) ==> visits < Max(budget, 1) + degree
    ensures SearchFinds(graph, ids, dist, k, ef, mask, budget, entry, maxLevel, hits)
    ensures forall i, j :: 0 <= i < j < |hits| ==>
              hits[i].distance < hits[j].distance || (hits[i].distance == hits[j].distance && hits[i].id <= hits[j].id)
    ensures forall i :: 0 <= i < |hits| ==>
              && 0 <= rows[i] < |ids| && Admits(mask, rows[i])
              && hits[i].id == ids[rows[i]] && hits[i].distance == dist(rows[i])
  {
    hits, visits, rows, seen := SearchGraph(graph, ids, dist, k, ef, mask, budget, entry, maxLevel, levels);
    Nearest.HitsInOrder(rows, dist, ids);
    Nearest.HitsAnswer(rows, AdmissibleIn(seen, mask), dist, ids, k);
  }

  /** The candidates looked for: what was asked for, or the default, and no fewer than k. */
  lemma EffortIs(effort: Option<int>, default: int, k: int)
    ensures var asked := if effort.Some? && effort.value != 0 then effort.value else default;
            Effort(effort, default, k) == if asked >= k then asked else k
  {
  }

  datatype Archive = Archive(ids: seq<int>, pair: (int, int) -> real, levels: seq<nat>, m: nat, efConstruction: nat,
                             efSearch: nat, entry: int, maxLevel: nat, layers: seq<Csr.Rows>)

  class HnswIndex {
    const m: nat
    const efConstruction: nat
    const efSearch: nat

    var maxVisits: nat
    var lastVisits: nat
    var ids: seq<int>
    var pair: (int, int) -> real
    var levels: seq<nat>
    var graph: seq<Layer>
    var entry: Option<int>
    var maxLevel: nat
    ghost var inserted: set<int>

    /** What every sequence of insertions keeps. */
    ghost predicate Valid()
      reads this
    {
      && 2 <= m && 1 <= efConstruction
      && |ids| == |levels|
      && Layered(graph, levels, inserted, entry, maxLevel, m)
    }

    constructor (m: nat, efConstruction: nat, efSearch: nat, maxVisits: nat)
      requires 2 <= m && 1 <= efConstruction
      ensures ids == [] && levels == [] && graph == [] && entry == None && maxLevel == 0
      ensures this.m == m && this.efConstruction == efConstruction && this.efSearch == efSearch
      ensures this.maxVisits == maxVisits
    {
      this.m, this.efConstruction, this.efSearch, this.maxVisits := m, efConstruction, efSearch, maxVisits;
      ids, levels, graph, entry, maxLevel, lastVisits := [], [], [], None, 0, 0;
      pair := (i, j) => 0.0;
    }

    /** `_insert` */
    method Insert(node: int) returns (ghost start: int, ghost found: seq<seq<Scored>>)
      requires Valid() && 0 <= node < |levels| && node !in inserted
      modifies `graph, `entry, `maxLevel, `lastVisits, `inserted
      ensures Valid() && inserted == old(inserted) + {node}
      ensures Inserts(old(graph), graph, pair, DistTo(pair, node), node, levels[node], old(entry), entry, start, found,
                      efConstruction, m)
    {
      var before, was, top, row, all := graph, entry, maxLevel, pair, levels;
      ghost var done := inserted;
      var graph', entry', maxLevel', visits;
      graph', entry', maxLevel', start, found, visits :=
        InsertNode(before, row, DistTo(row, node), node, all, done, was, top, efConstruction, m);
      graph, entry, maxLevel, lastVisits, inserted := graph', entry', maxLevel', visits, done + {node};
      assert graph == graph' && entry == entry' && pair == row && levels == all;
    }

    /** `_repair_connectivity` */
    method RepairConnectivity() returns (bridges: seq<Bridge>, ghost root: seq<int>, ghost hub: int)
      requires Valid() && inserted == Upto(|levels|)
      modifies `graph
      ensures Searchable(graph, levels, entry, maxLevel)
      ensures graph == old(graph)[0 := graph[0]]
      ensures if |levels| <= 1 then graph == old(graph)
              else |root| == |levels| && Repaired(pair, old(graph)[0], graph[0], bridges, root, hub)
    {
      graph, bridges, root, hub := RepairGraph(pair, graph, levels, entry, maxLevel, m);
    }

    /** The index has inserted its first i rows, and `run` is how. */
    ghost predicate Running(i: nat, run: seq<Moment>)
      reads this
    {
      && Valid() && i <= |levels| && inserted == Upto(i)
      && |run| == i + 1 && InsertionRun(pair, levels, efConstruction, m, run) && run[i] == Moment(graph, entry)
    }

    /** The next row of a run. */
    method InsertNext(i: nat, ghost run: seq<Moment>) returns (ghost run': seq<Moment>)
      requires Running(i, run) && i < |levels|
      modifies `graph, `entry, `maxLevel, `lastVisits, `inserted
      ensures Running(i + 1, run')
    {
      UptoNext(i);
      var start, found := Insert(i);
      ghost var now := Moment(graph, entry);
      assert InsertedAt(pair, levels[i], efConstruction, m, i, run[i], now);
      RunMore(pair, levels, efConstruction, m, run, now);
      run' := run + [now];
    }

    /** The insertion loop of `build`. */
    method InsertAll() returns (ghost run: seq<Moment>)
      requires Running(0, [Moment([map[]], None)])
      modifies `graph, `entry, `maxLevel, `lastVisits, `inserted
      ensures Running(|levels|, run)
    {
      run := [Moment([map[]], None)];
      for i := 0 to |levels|
        invariant Running(i, run)
      {
        run := InsertNext(i, run);
      }
    }

    /**
     The index holds these rows: layer 0 is `unrepaired`, which with the layers above it is as a run of
     the insertions of all rows in order left them, plus the bridges that connect it.
     */
    ghost predicate BuiltFrom(ids: seq<int>, pair: (int, int) -> real, levels: seq<nat>, unrepaired: Layer,
                              bridges: seq<Bridge>, root: seq<int>, hub: int)
      reads this
    {
      && this.ids == ids && this.pair == pair && this.levels == levels && |levels| == |ids|
      && Searchable(graph, levels, entry, maxLevel)
      && Layered(graph[0 := unrepaired], levels, Upto(|ids|), entry, maxLevel, m)
      && RunEnds(pair, levels, efConstruction, m, Moment(graph[0 := unrepaired], entry))
      && (if |ids| <= 1 then graph[0] == unrepaired
          else |root| == |ids| && Repaired(pair, unrepaired, graph[0], bridges, root, hub))
    }

    /** `build` over `count` vectors: refuses unequal lengths, otherwise inserts every row and repairs layer 0. */
    method Build(ids: seq<int>, count: nat, pair: (int, int) -> real, levels: seq<nat>)
      returns (ok: bool, ghost unrepaired: Layer, bridges: seq<Bridge>, ghost root: seq<int>, ghost hub: int)
      requires 2 <= m && 1 <= efConstruction && |levels| == |ids|
      modifies this
      ensures ok <==> |ids| == count
      ensures !ok ==> unchanged(this)
      ensures ok ==> maxVisits == old(maxVisits) && BuiltFrom(ids, pair, levels, unrepaired, bridges, root, hub)
    {
      unrepaired, bridges, root, hub := map[], [], [], 0;
      ok := |ids| == count;
      if ok {
        this.ids, this.pair, this.levels := ids, pair, levels;
        unrepaired, bridges, root, hub := BuildLayers();
      }
    }

    /** From an empty graph, every row. */
    method InsertRows()
      requires 2 <= m && 1 <= efConstruction && |levels| == |ids|
      modifies `graph, `entry, `maxLevel, `lastVisits, `inserted
      ensures Valid() && inserted == Upto(|levels|)
      ensures RunEnds(pair, levels, efConstruction, m, Moment(graph, entry))
    {
      graph, entry, maxLevel, inserted := [map[]], None, 0, {};
      assert LayerOk(graph[0], levels, {}, 0, m);
      ghost var run := InsertAll();
    }

    /** The rest of `build`, once the rows are in place. */
    method BuildLayers() returns (ghost unrepaired: Layer, bridges: seq<Bridge>, ghost root: seq<int>, ghost hub: int)
      requires 2 <= m && 1 <= efConstruction && |levels| == |ids|
      modifies `graph, `entry, `maxLevel, `lastVisits, `inserted
      ensures BuiltFrom(ids, pair, levels, unrepaired, bridges, root, hub)
    {
      InsertRows();
      unrepaired := graph[0];
      ghost var before := graph;
      bridges, root, hub := RepairConnectivity();
      assert graph[0 := unrepaired] == before;
    }

    /**
     `search`: `dist` is the distance of each row to the query, `rows` the rows behind the hits,
     `seen` the nodes layer 0 was walked over.
     */
    method Search(dist: int -> real, k: int, effort: Option<int>, mask: Mask)
      returns (hits: seq<Nearest.Neighbor>, ghost rows: seq<int>, ghost seen: set<int>)
      requires |ids| == |levels| && (ids != [] ==> Searchable(graph, levels, entry, maxLevel))
      modifies `lastVisits
      ensures ids == [] || k <= 0 ==> hits == []
      ensures ids != [] && k > 0 ==>
                && hits == Nearest.HitsOf(rows, dist, ids)
                && seen <= Upto(|ids|) && Nearest.KNearest(rows, AdmissibleIn(seen, mask), dist, k)
                && Nearest.SortedRows(rows, dist, ids)
      ensures ids != [] && k > 0 && maxVisits >= |ids| - 1
              && |AdmissibleIn(Upto(|ids|), mask)| <= Max(k, if effort.Some? && effort.value != 0 then effort.value
                                                             else efSearch) ==>
                Nearest.KNearest(rows, AdmissibleIn(Upto(|ids|), mask), dist, k)
      ensures ids != [] && k > 0 ==>
                forall degree :: MaxDegree(graph[0], Upto(|ids|), degree) ==> lastVisits < Max(maxVisits, 1) + degree
      ensures forall i, j :: 0 <= i < j < |hits| ==>
                || hits[i].distance < hits[j].distance
                || (hits[i].distance == hits[j].distance && hits[i].id <= hits[j].id)
      ensures forall i :: 0 <= i < |hits| ==>
                && 0 <= rows[i] < |ids| && (mask.Some? ==> rows[i] < |mask.value| && mask.value[rows[i]])
                && hits[i].id == ids[rows[i]] && hits[i].distance == dist(rows[i])
      ensures ids != [] && k > 0 ==> entry.Some?
      ensures ids != [] && k > 0 && effort.Some? && effort.value >= k ==>
                SearchFinds(graph, ids, dist, k, effort.value, mask, maxVisits, entry.value, maxLevel, hits)
      ensures ids != [] && k > 0 && (effort.None? || effort.value == 0) && efSearch >= k ==>
                SearchFinds(graph, ids, dist, k, efSearch, mask, maxVisits, entry.value, maxLevel, hits)
      ensures ids != [] && k > 0 && (if effort.Some? && effort.value != 0 then effort.value else efSearch) < k ==>
                SearchFinds(graph, ids, dist, k, k, mask, maxVisits, entry.value, maxLevel, hits)
    {
      rows, seen := [], {};
      if |ids| == 0 || k <= 0 || entry.None? {
        return [], rows, seen;
      }
      var ef := Effort(effort, efSearch, k);
      EffortIs(effort, efSearch, k);
      hits, lastVisits, rows, seen :=
        SearchRows(graph, ids, dist, k, ef, mask, maxVisits, entry.value, maxLevel, levels);
    }

    /** `save`: the arrays of the archive. */
    method Save() returns (a: Archive)
      requires |ids| == |levels|
      ensures a.ids == ids && a.pair == pair && a.levels == levels
      ensures a.m == m && a.efConstruction == efConstruction && a.efSearch == efSearch
      ensures a.entry == (if entry.Some? then entry.value else -1) && a.maxLevel == maxLevel
      ensures |a.layers| == |graph| && forall l :: 0 <= l < |graph| ==> Csr.Stores(a.layers[l], graph[l], |ids|)
    {
      var layers := [];
      for l := 0 to |graph|
        invariant |layers| == l && forall k :: 0 <= k < l ==> Csr.Stores(layers[k], graph[k], |ids|)
      {
        var rows := Csr.SaveLayer(graph[l], |ids|);
        layers := layers + [rows];
      }
      a := Archive(ids, pair, levels, m, efConstruction, efSearch, if entry.Some? then entry.value else -1, maxLevel,
                   layers);
    }

    /** `load`: the visit budget is not saved, so it is the default again. */
    constructor Load(a: Archive)
      requires forall l :: 0 <= l < |a.layers| ==> Csr.WellCut(a.layers[l])
      ensures ids == a.ids && pair == a.pair && levels == a.levels
      ensures m == a.m && efConstruction == a.efConstruction && efSearch == a.efSearch
      ensures entry == (if a.entry < 0 then None else Some(a.entry)) && maxLevel == a.maxLevel
      ensures maxVisits == DEFAULT_MAX_VISITS
      ensures |graph| == |a.layers|
      ensures forall l :: 0 <= l < |graph| ==> Csr.LoadedAs(a.layers[l], graph[l])
    {
      m, efConstruction, efSearch, maxVisits := a.m, a.efConstruction, a.efSearch, DEFAULT_MAX_VISITS;
      ids, pair, levels, lastVisits := a.ids, a.pair, a.levels, 0;
      entry, maxLevel := if a.entry < 0 then None else Some(a.entry), a.maxLevel;
      var g := LoadLayers(a.layers);
      graph := g;
    }
  }

  method LoadLayers(layers: seq<Csr.Rows>) returns (graph: seq<Layer>)
    requires forall l :: 0 <= l < |layers| ==> Csr.WellCut(layers[l])
    ensures |graph| == |layers|
    ensures forall l :: 0 <= l < |graph| ==> Csr.LoadedAs(layers[l], graph[l])
  {
    graph := [];
    for l := 0 to |layers|
      invariant |graph| == l
      invariant forall k :: 0 <= k < l ==> Csr.LoadedAs(layers[k], graph[k])
    {
      var g := Csr.LoadLayer(layers[l]);
      graph := graph + [g];
    }
  }

  /** What `save` writes, `load` reads back: the same lists, the same entry and top level, still searchable. */
  lemma SaveLoad(graph: seq<Layer>, levels: seq<nat>, entry: Option<int>, maxLevel: nat, layers: seq<Csr.Rows>,
                 loaded: seq<Layer>, entryCode: int)
    requires Searchable(graph, levels, entry, maxLevel)
    requires |layers| == |loaded| == |graph| && entryCode == (if entry.Some? then entry.value else -1)
    requires forall l :: 0 <= l < |graph| ==> graph[l].Keys <= Upto(|levels|)
    requires forall l :: 0 <= l < |graph| ==> Csr.Stores(layers[l], graph[l], |levels|)
    requires forall l :: 0 <= l < |graph| ==> Csr.LoadedAs(layers[l], loaded[l])
    ensures SameNeighbours(graph, loaded)
    ensures (if entryCode < 0 then None else Some(entryCode)) == entry
    ensures Searchable(loaded, levels, entry, maxLevel)
  {
    var all := Upto(|levels|);
    forall l | 0 <= l < |graph|
      ensures forall x :: Nbrs(loaded[l], x) == Nbrs(graph[l], x)
      ensures Walkable(loaded[l], AtLevel(levels, all, l))
    {
      Csr.LoadOfSave(graph[l], |levels|, layers[l], loaded[l]);
      assert Walkable(graph[l], AtLevel(levels, all, l));
      Csr.SameLists(graph[l], loaded[l], AtLevel(levels, all, l));
    }
    Csr.SameLists(graph[0], loaded[0], all);
  }
}
