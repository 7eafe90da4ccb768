/**
 Inserting a node into the stack of layers (`HNSWIndex._insert`): descend the express lanes,
 then search, select and wire on every layer from the node's own down to 0.
 `pair` is the distance between two nodes, `dist` the distance to the node being inserted.
 */
module HnswInsert {
  import opened Seqs
  import opened Heaps
  import opened Graphs
  import opened LayerSearch
  import opened Neighbours
  import opened Wiring
  import opened Descent
  import UF = UnionFind

  function Budget(m: nat, layer: nat): nat {
    if layer == 0 then 2 * m else m
  }

  /**
   The layers of an index holding the nodes `inserted`: layer l holds exactly those of level l or
   more, is symmetric and within its budget, and the entry point lives on the top layer.
   */
  ghost predicate Layered(graph: seq<Layer>, levels: seq<nat>, inserted: set<int>, entry: Option<int>, maxLevel: nat,
                          m: nat) {
    && |graph| == maxLevel + 1
    && inserted <= UF.Upto(|levels|)
    && (inserted == {} <==> entry == None)
    && (entry.Some? ==> entry.value in inserted && levels[entry.value] == maxLevel)
    && (inserted == {} ==> maxLevel == 0)
    && (forall i :: i in inserted ==> levels[i] <= maxLevel)
    && (forall l {:trigger LayerOk(graph[l], levels, inserted, l, m)} :: 0 <= l < |graph| ==>
          LayerOk(graph[l], levels, inserted, l, m))
  }

  ghost predicate LayerOk(g: Layer, levels: seq<nat>, inserted: set<int>, layer: nat, m: nat) {
    g.Keys == AtLevel(levels, inserted, layer) && Sound(g, Budget(m, layer))
  }

  /** How layer `l` came about when `node` was wired into it from `entryPoints`. */
  ghost predicate WiredBySearch(before: Layer, after: Layer, pair: (int, int) -> real, dist: int -> real, node: int,
                                entryPoints: seq<int>, efc: nat, budget: nat, candidates: seq<Scored>) {
    && NoDup(candidates)
    && (exists seen, expanded :: Walked(before, entryPoints, seen, expanded)
                                 && Answers(candidates, dist, efc, None, seen)
                                 && Exhausted(candidates, dist, efc, seen, expanded))
    && Fits(before, node, Selected(pair, candidates, budget), budget) && 0 < budget
    && after == Wired(pair, before, node, Selected(pair, candidates, budget), budget)
  }

  /** Layer `after` is layer `before` with `node` wired in, and as sound. */
  ghost predicate Grown(before: Layer, after: Layer, pair: (int, int) -> real, dist: int -> real, node: int,
                        entryPoints: seq<int>, efc: nat, budget: nat, candidates: seq<Scored>) {
    && Sound(after, budget) && after.Keys == before.Keys + {node}
    && WiredBySearch(before, after, pair, dist, node, entryPoints, efc, budget, candidates)
  }

  lemma CandidatesFit(g: Layer, pair: (int, int) -> real, dist: int -> real, node: int, candidates: seq<Scored>,
                      ef: nat, budget: nat, seen: set<int>)
    requires Sound(g, budget) && node !in g && seen <= g.Keys && Answers(candidates, dist, ef, None, seen)
    ensures NoDup(candidates) && Fits(g, node, Selected(pair, candidates, budget), budget)
    ensures NoDup(Ids(candidates)) && Elems(Ids(candidates)) <= g.Keys && |candidates| <= ef
    ensures seen != {} && ef > 0 ==> candidates != []
  {
    IdsDistinct(candidates, dist);
    forall i, j | 0 <= i < j < |candidates| ensures candidates[i].id != candidates[j].id {
      assert Ids(candidates)[i] != Ids(candidates)[j];
    }
    SelectionIsChoice(pair, candidates, budget);
    forall x | x in Ids(candidates) ensures x in g {
      assert Scored(dist(x), x) in candidates;
    }
    assert AdmissibleIn(seen, None) == seen;
  }

  lemma LayersNested(graph: seq<Layer>, levels: seq<nat>, inserted: set<int>, entry: Option<int>, maxLevel: nat, m: nat)
    requires Layered(graph, levels, inserted, entry, maxLevel, m)
    ensures forall l :: 0 <= l < |graph| ==> Simple(graph[l]) && Sound(graph[l], Budget(m, l))
    ensures forall l :: 0 < l < |graph| ==> graph[l].Keys <= graph[l - 1].Keys
    ensures forall l, x :: 0 <= l < |graph| && x in graph[l] ==> |graph[l][x]| <= if l == 0 then 2 * m else m
    ensures entry.Some? ==> entry.value in graph[maxLevel]
  {
    forall l | 0 <= l < |graph| ensures Simple(graph[l]) && Sound(graph[l], Budget(m, l)) {
      assert LayerOk(graph[l], levels, inserted, l, m);
    }
    forall l | 0 < l < |graph| ensures graph[l].Keys <= graph[l - 1].Keys {
      assert LayerOk(graph[l], levels, inserted, l, m) && LayerOk(graph[l - 1], levels, inserted, l - 1, m);
    }
    assert LayerOk(graph[maxLevel], levels, inserted, maxLevel, m);
  }

  /** The nodes layer `l` is searched from: the descent's answer, below it the candidates of the layer above. */
  function EntryPoints(start: int, found: seq<seq<Scored>>, l: int): seq<int> {
    if l + 1 < 0 || l + 1 >= |found| then [start] else Ids(found[l + 1])
  }

  /** Good entry points for a layer: some of its nodes, each once, at most ef. */
  ghost predicate StartsWell(g: Layer, entryPoints: seq<int>, ef: nat) {
    NoDup(entryPoints) && entryPoints != [] && |entryPoints| <= ef && Elems(entryPoints) <= g.Keys
  }

  /** A layer the node can be inserted into from these entry points. */
  ghost predicate Ready(g: Layer, node: int, entryPoints: seq<int>, ef: nat, budget: nat) {
    Sound(g, budget) && node !in g && StartsWell(g, entryPoints, ef)
  }

  /** A stack the node can be inserted into from layer `top` down. */
  ghost predicate ReadyBelow(graph: seq<Layer>, node: int, top: nat, m: nat) {
    && top < |graph|
    && (forall l {:trigger Sound(graph[l], Budget(m, l))} :: 0 <= l <= top ==>
          Sound(graph[l], Budget(m, l)) && node !in graph[l])
    && (forall l :: 0 < l <= top ==> graph[l].Keys <= graph[l - 1].Keys)
  }

  lemma ReadyNext(graph: seq<Layer>, node: int, top: nat, m: nat, l: nat, entryPoints: seq<int>, ef: nat)
    requires ReadyBelow(graph, node, top, m) && 0 < l <= top && StartsWell(graph[l], entryPoints, ef)
    ensures Ready(graph[l - 1], node, entryPoints, ef, Budget(m, l - 1))
  {
    assert Sound(graph[l - 1], Budget(m, l - 1));
  }

  lemma ReadyFirst(graph: seq<Layer>, node: int, top: nat, m: nat, start: int, ef: nat)
    requires ReadyBelow(graph, node, top, m) && start in graph[top] && 0 < ef
    ensures Ready(graph[top], node, [start], ef, Budget(m, top))
  {
    assert Sound(graph[top], Budget(m, top));
    assert Elems([start]) == {start};
  }

  /** The stack while layers `left` and up to the top searched one hold the new node. */
  ghost predicate Sunk(before: seq<Layer>, graph: seq<Layer>, pair: (int, int) -> real, dist: int -> real, node: int,
                       start: int, found: seq<seq<Scored>>, efc: nat, m: nat, left: nat) {
    && |found| <= |graph| == |before|
    && left <= |found| && (forall l :: 0 <= l < left ==> graph[l] == before[l])
    && (forall l :: |found| <= l < |graph| ==> graph[l] == before[l])
    && (forall l {:trigger Grown(before[l], graph[l], pair, dist, node, EntryPoints(start, found, l), efc, Budget(m, l),
                                 found[l])} :: left <= l < |found| ==>
          Grown(before[l], graph[l], pair, dist, node, EntryPoints(start, found, l), efc, Budget(m, l), found[l]))
  }

  lemma SinkOne(before: seq<Layer>, above: seq<Layer>, graph: seq<Layer>, pair: (int, int) -> real, dist: int -> real,
                node: int, start: int, found: seq<seq<Scored>>, efc: nat, m: nat, left: nat, candidates: seq<Scored>)
    requires left < |found| && Sunk(before, above, pair, dist, node, start, found, efc, m, left + 1)
    requires |graph| == |above| && graph == above[left := graph[left]]
    requires Grown(before[left], graph[left], pair, dist, node, EntryPoints(start, found, left), efc, Budget(m, left),
                   candidates)
    ensures Sunk(before, graph, pair, dist, node, start, found[left := candidates], efc, m, left)
  {
    var now := found[left := candidates];
    forall l | left <= l < |now|
      ensures Grown(before[l], graph[l], pair, dist, node, EntryPoints(start, now, l), efc, Budget(m, l), now[l])
    {
      SameEntryPoints(start, found, left, candidates, l);
      if l > left {
        assert graph[l] == above[l] && now[l] == found[l];
        assert Grown(before[l], above[l], pair, dist, node, EntryPoints(start, found, l), efc, Budget(m, l), found[l]);
      } else {
        assert now[l] == candidates;
      }
    }
  }

  lemma SameEntryPoints(start: int, found: seq<seq<Scored>>, left: nat, candidates: seq<Scored>, l: int)
    requires left < |found| && left <= l
    ensures EntryPoints(start, found[left := candidates], l) == EntryPoints(start, found, l)
  {
  }

  /** `while len(self._graph) <= level: self._graph.append({})` */
  method PadLayers(graph: seq<Layer>, level: nat) returns (padded: seq<Layer>)
    ensures |padded| == Max(|graph|, level + 1) && graph <= padded
    ensures forall l :: |graph| <= l < |padded| ==> padded[l] == map[]
  {
    padded := graph;
    while |padded| <= level
      invariant |graph| <= |padded| <= Max(|graph|, level + 1) && graph <= padded
      invariant forall l :: |graph| <= l < |padded| ==> padded[l] == map[]
    {
      padded := padded + [map[]];
    }
  }

  /** The node is alone on the layers from `low` up to `high`. */
  method AloneOn(graph: seq<Layer>, node: int, low: nat, high: nat) returns (graph': seq<Layer>)
    requires low <= high + 1 && high < |graph|
    requires forall l :: low <= l <= high ==> graph[l] == map[]
    ensures |graph'| == |graph|
    ensures forall l :: 0 <= l < |graph| ==> graph'[l] == if low <= l <= high then map[node := []] else graph[l]
  {
    graph' := graph;
    for l := low to high + 1
      invariant |graph'| == |graph|
      invariant forall k :: 0 <= k < |graph| ==> graph'[k] == if low <= k < l then map[node := []] else graph[k]
    {
      graph' := graph'[l := graph'[l][node := []]];
    }
  }

  /**
   What an insertion does to layer `l`: on layers nobody reached before the node is alone, layers
   above its own are untouched, the others were searched and wired. The topmost of these is
   searched from `start`, a local minimum of the layer above.
   */
  ghost predicate LayerStep(before: seq<Layer>, after: seq<Layer>, pair: (int, int) -> real, dist: int -> real,
                            node: int, level: nat, first: bool, start: int, found: seq<seq<Scored>>, efc: nat, m: nat,
                            l: nat)
    requires l < |after|
  {
    if first || l >= |before| then after[l] == map[node := []]
    else if l > level then after[l] == before[l]
    else
      && l < |found|
      && Grown(before[l], after[l], pair, dist, node, EntryPoints(start, found, l), efc, Budget(m, l), found[l])
      && (l + 1 == |found| ==> start in before[l] && (l + 1 < |before| ==> LocalMin(before[l + 1], dist, start)))
  }

  /** A whole insertion: every layer, and the entry point. */
  ghost predicate Inserts(before: seq<Layer>, after: seq<Layer>, pair: (int, int) -> real, dist: int -> real, node: int,
                          level: nat, entry: Option<int>, entry': Option<int>, start: int, found: seq<seq<Scored>>,
                          efc: nat, m: nat) {
    && |after| == Max(|before|, level + 1)
    && entry' == (if entry.None? || level >= |before| then Some(node) else entry)
    && (entry.Some? ==> |found| == Min(|before|, level + 1))
    && (forall l {:trigger LayerStep(before, after, pair, dist, node, level, entry.None?, start, found, efc, m, l)} ::
          0 <= l < |after| ==> LayerStep(before, after, pair, dist, node, level, entry.None?, start, found, efc, m, l))
  }

  /**
   A layer the node is wired into is searched from the nodes found on the layer above, the topmost of
   them from where the descent ended, with ef_construction; the neighbours are selected from what was
   found, up to m, on layer 0 up to 2m.
   */
  lemma WiredFromAbove(before: seq<Layer>, after: seq<Layer>, pair: (int, int) -> real, dist: int -> real, node: int,
                       level: nat, entry: Option<int>, entry': Option<int>, start: int, found: seq<seq<Scored>>,
                       efc: nat, m: nat, l: nat)
    requires Inserts(before, after, pair, dist, node, level, entry, entry', start, found, efc, m)
    requires entry.Some? && l < |before| && l <= level
    ensures l < |found| && NoDup(found[l]) && node in after[l]
    ensures after[l][node] == Selected(pair, found[l], if l == 0 then 2 * m else m)
    ensures var from := if l + 1 < |found| then Ids(found[l + 1]) else [start];
            exists seen, expanded :: Walked(before[l], from, seen, expanded) && Answers(found[l], dist, efc, None, seen)
                                     && Exhausted(found[l], dist, efc, seen, expanded)
    ensures l + 1 == |found| && l + 1 < |before| ==> start in before[l] && LocalMin(before[l + 1], dist, start)
  {
    assert LayerStep(before, after, pair, dist, node, level, false, start, found, efc, m, l);
    WiredSound(pair, before[l], node, Selected(pair, found[l], Budget(m, l)), Budget(m, l));
  }

  /** The invariant survives every insertion. */
  lemma InsertKeepsLayers(before: seq<Layer>, after: seq<Layer>, pair: (int, int) -> real, dist: int -> real, node: int,
                          levels: seq<nat>, inserted: set<int>, entry: Option<int>, entry': Option<int>, maxLevel: nat,
                          start: int, found: seq<seq<Scored>>, efc: nat, m: nat)
    requires Layered(before, levels, inserted, entry, maxLevel, m) && 0 <= node < |levels| && node !in inserted
    requires Inserts(before, after, pair, dist, node, levels[node], entry, entry', start, found, efc, m)
    ensures Layered(after, levels, inserted + {node}, entry', |after| - 1, m)
  {
    forall l | 0 <= l < |after| ensures LayerOk(after[l], levels, inserted + {node}, l, m) {
      assert LayerStep(before, after, pair, dist, node, levels[node], entry.None?, start, found, efc, m, l);
      if l < |before| {
        assert LayerOk(before[l], levels, inserted, l, m);
        StepKeepsLayer(before[l], after[l], levels, inserted, node, l, m, entry.None?);
      } else {
        StepKeepsLayer(map[], after[l], levels, inserted, node, l, m, true);
      }
    }
  }

  lemma StepKeepsLayer(was: Layer, now: Layer, levels: seq<nat>, inserted: set<int>, node: int, l: nat, m: nat,
                       first: bool)
    requires LayerOk(was, levels, inserted, l, m) && 0 <= node < |levels| && (first ==> was == map[])
    requires if first then now == map[node := []] && l <= levels[node]
             else if l > levels[node] then now == was
             else Sound(now, Budget(m, l)) && now.Keys == was.Keys + {node}
    ensures LayerOk(now, levels, inserted + {node}, l, m)
  {
  }

  lemma FirstLayers(graph: seq<Layer>, levels: seq<nat>, maxLevel: nat, m: nat)
    requires Layered(graph, levels, {}, None, maxLevel, m)
    ensures graph == [map[]]
  {
    assert LayerOk(graph[0], levels, {}, 0, m);
  }

  lemma InsertReady(before: seq<Layer>, padded: seq<Layer>, levels: seq<nat>, inserted: set<int>, entry: Option<int>,
                    maxLevel: nat, m: nat, node: int, low: nat)
    requires Layered(before, levels, inserted, entry, maxLevel, m) && before <= padded && low <= maxLevel
    requires node !in inserted && entry.Some?
    requires forall l :: |before| <= l < |padded| ==> padded[l] == map[]
    ensures ReadyBelow(padded, node, low, m) && Lanes(padded, levels, inserted)
    ensures entry.value in AtLevel(levels, inserted, maxLevel)
    ensures padded[low].Keys == AtLevel(levels, inserted, low)
  {
    LayersNested(before, levels, inserted, entry, maxLevel, m);
    forall l | 0 <= l < |padded|
      ensures l < |before| ==> padded[l] == before[l] && node !in before[l]
      ensures Walkable(padded[l], AtLevel(levels, inserted, l))
    {
      if l < |before| {
        assert LayerOk(before[l], levels, inserted, l, m);
        SimpleWalkable(before[l]);
      }
    }
    assert LayerOk(before[low], levels, inserted, low, m);
  }

  lemma Assemble(before: seq<Layer>, padded: seq<Layer>, sunk: seq<Layer>, after: seq<Layer>, pair: (int, int) -> real,
                 dist: int -> real, node: int, level: nat, entry: int, start: int, found: seq<seq<Scored>>, efc: nat,
                 m: nat)
    requires before != [] && before <= padded && |padded| == Max(|before|, level + 1)
    requires |found| == Min(|before|, level + 1)
    requires start in padded[|found| - 1] && (level + 1 < |before| ==> LocalMin(padded[level + 1], dist, start))
    requires Sunk(padded, sunk, pair, dist, node, start, found, efc, m, 0)
    requires |after| == |sunk|
    requires forall l :: 0 <= l < |sunk| ==> after[l] == if |before| <= l <= level then map[node := []] else sunk[l]
    ensures Inserts(before, after, pair, dist, node, level, Some(entry),
                    if level >= |before| then Some(node) else Some(entry),
                    start, found, efc, m)
  {
    forall l | 0 <= l < |after|
      ensures LayerStep(before, after, pair, dist, node, level, false, start, found, efc, m, l)
    {
      assert l < |before| ==> padded[l] == before[l];
      assert l + 1 < |before| ==> padded[l + 1] == before[l + 1];
      assert after[l] == if |before| <= l <= level then map[node := []] else sunk[l];
      if l < |found| {
        AssembleLayer(padded[l], sunk[l], pair, dist, node, start, padded, sunk, found, efc, m, l);
      }
    }
  }

  lemma AssembleLayer(was: Layer, now: Layer, pair: (int, int) -> real, dist: int -> real, node: int, start: int,
                      padded: seq<Layer>, sunk: seq<Layer>, found: seq<seq<Scored>>, efc: nat, m: nat, l: nat)
    requires Sunk(padded, sunk, pair, dist, node, start, found, efc, m, 0)
    requires l < |found| && was == padded[l] && now == sunk[l]
    ensures Grown(was, now, pair, dist, node, EntryPoints(start, found, l), efc, Budget(m, l), found[l])
  {
    assert Grown(padded[l], sunk[l], pair, dist, node, EntryPoints(start, found, l), efc, Budget(m, l), found[l]);
  }

  /** One layer of the insertion: search it, select neighbours, wire the node in. */
  method InsertIntoLayer(g: Layer, pair: (int, int) -> real, dist: int -> real, node: int, entryPoints: seq<int>,
                         efc: nat, budget: nat)
    returns (g': Layer, candidates: seq<Scored>, visits: nat)
    requires 0 < efc && 0 < budget && Ready(g, node, entryPoints, efc, budget)
    ensures Grown(g, g', pair, dist, node, entryPoints, efc, budget, candidates)
    ensures StartsWell(g, Ids(candidates), efc)
  {
    SimpleWalkable(g);
    ghost var seen, expanded;
    candidates, visits, seen, expanded := SearchLayer(g, dist, entryPoints, efc, None, None, g.Keys);
    assert entryPoints[0] in Elems(entryPoints);
    CandidatesFit(g, pair, dist, node, candidates, efc, budget, seen);
    var neighbours := SelectNeighbours(pair, candidates, budget);
    WiredSound(pair, g, node, neighbours, budget);
    g' := Wire(pair, g, node, neighbours, budget);
  }

  /** The layers from `top` down to `left` hold the node, and the next below is to be searched from `entryPoints`. */
  ghost predicate Sinking(before: seq<Layer>, graph: seq<Layer>, pair: (int, int) -> real, dist: int -> real, node: int,
                          start: int, found: seq<seq<Scored>>, efc: nat, m: nat, left: nat, entryPoints: seq<int>) {
    && Sunk(before, graph, pair, dist, node, start, found, efc, m, left)
    && entryPoints == EntryPoints(start, found, left - 1)
    && (left > 0 ==> Ready(before[left - 1], node, entryPoints, efc, Budget(m, left - 1)))
  }

  /** One layer more. */
  method SinkNext(ghost before: seq<Layer>, graph: seq<Layer>, pair: (int, int) -> real, dist: int -> real, node: int,
                  ghost start: int, ghost found: seq<seq<Scored>>, efc: nat, m: nat, left: nat, entryPoints: seq<int>)
    returns (graph': seq<Layer>, entryPoints': seq<int>, ghost found': seq<seq<Scored>>, visits: nat)
    requires 0 < m && 0 < efc && left < |found| && ReadyBelow(before, node, |found| - 1, m)
    requires Sinking(before, graph, pair, dist, node, start, found, efc, m, left + 1, entryPoints)
    ensures |found'| == |found|
    ensures Sinking(before, graph', pair, dist, node, start, found', efc, m, left, entryPoints')
  {
    assert graph[left] == before[left];
    var g', candidates;
    g', candidates, visits := InsertIntoLayer(graph[left], pair, dist, node, entryPoints, efc, Budget(m, left));
    graph' := graph[left := g'];
    SinkOne(before, graph, graph', pair, dist, node, start, found, efc, m, left, candidates);
    found' := found[left := candidates];
    entryPoints' := Ids(candidates);
    if left > 0 {
      ReadyNext(before, node, |found| - 1, m, left, entryPoints', efc);
    }
  }

  /** Phase 2: from layer `top` down to 0, each layer searched from the candidates of the one above. */
  method InsertBelow(graph: seq<Layer>, pair: (int, int) -> real, dist: int -> real, node: int, start: int, top: nat,
                     efc: nat, m: nat)
    returns (graph': seq<Layer>, ghost found: seq<seq<Scored>>, visits: nat)
    requires 0 < m && 0 < efc && ReadyBelow(graph, node, top, m) && start in graph[top]
    ensures Sunk(graph, graph', pair, dist, node, start, found, efc, m, 0) && |found| == top + 1
  {
    graph', visits := graph, 0;
    found := seq(top + 1, i => []);
    var entryPoints := [start];
    ReadyFirst(graph, node, top, m, start, efc);
    var left := top + 1;
    while left > 0
      invariant 0 <= left <= top + 1 == |found|
      invariant Sinking(graph, graph', pair, dist, node, start, found, efc, m, left, entryPoints)
    {
      left := left - 1;
      graph', entryPoints, found, visits :=
        SinkNext(graph, graph', pair, dist, node, start, found, efc, m, left, entryPoints);
    }
  }

  /** Both phases, and the layers above the previous maximum. */
  method InsertLayers(graph: seq<Layer>, pair: (int, int) -> real, dist: int -> real, node: int, levels: seq<nat>,
                      ghost inserted: set<int>, entry: int, maxLevel: nat, efc: nat, m: nat)
    returns (graph': seq<Layer>, ghost start: int, ghost found: seq<seq<Scored>>, visits: nat)
    requires 0 < m && 0 < efc && Layered(graph, levels, inserted, Some(entry), maxLevel, m)
    requires 0 <= node < |levels| && node !in inserted
    ensures Inserts(graph, graph', pair, dist, node, levels[node], Some(entry),
                    if levels[node] > maxLevel then Some(node) else Some(entry), start, found, efc, m)
  {
    var level := levels[node];
    var padded := PadLayers(graph, level);
    var low := Min(level, maxLevel);
    InsertReady(graph, padded, levels, inserted, Some(entry), maxLevel, m, node, low);
    var rest;
    rest, visits := Descend(padded, dist, entry, maxLevel, low, levels, inserted);
    start := rest;
    var sunk;
    sunk, found, visits := InsertBelow(padded, pair, dist, node, rest, low, efc, m);
    graph' := AloneOn(sunk, node, maxLevel + 1, Max(maxLevel, level));
    Assemble(graph, padded, sunk, graph', pair, dist, node, level, entry, start, found, efc, m);
  }

  /** `_insert`: the layers, the entry point and the top level afterwards. */
  method InsertNode(graph: seq<Layer>, pair: (int, int) -> real, dist: int -> real, node: int, levels: seq<nat>,
                    ghost inserted: set<int>, entry: Option<int>, maxLevel: nat, efc: nat, m: nat)
    returns (graph': seq<Layer>, entry': Option<int>, maxLevel': nat, ghost start: int, ghost found: seq<seq<Scored>>,
             visits: nat)
    requires 0 < m && 0 < efc && Layered(graph, levels, inserted, entry, maxLevel, m)
    requires 0 <= node < |levels| && node !in inserted
    ensures Inserts(graph, graph', pair, dist, node, levels[node], entry, entry', start, found, efc, m)
    ensures Layered(graph', levels, inserted + {node}, entry', maxLevel', m)
  {
    start, found, visits := node, [], 0;
    if entry.None? {
      FirstLayers(graph, levels, maxLevel, m);
      graph' := PadLayers(graph, levels[node]);
      graph' := AloneOn(graph', node, 0, levels[node]);
      entry', maxLevel' := Some(node), levels[node];
    } else {
      graph', start, found, visits :=
        InsertLayers(graph, pair, dist, node, levels, inserted, entry.value, maxLevel, efc, m);
      if levels[node] > maxLevel {
        entry', maxLevel' := Some(node), levels[node];
      } else {
        entry', maxLevel' := entry, maxLevel;
      }
    }
    InsertKeepsLayers(graph, graph', pair, dist, node, levels, inserted, entry, entry', maxLevel, start, found, efc, m);
  }
}
