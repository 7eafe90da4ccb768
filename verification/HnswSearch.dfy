/** What a filtered layer-0 search guarantees, at any effort and at full effort. */
module HnswSearch {
  import opened Seqs
  import opened Heaps
  import opened Graphs
  import opened LayerSearch
  import opened Descent
  import opened UnionFind
  import Nearest

  /**
   At any ef: once the answer is full, no admissible neighbour of an answered node is both missing
   from the answer and nearer than the worst answer, unless the visit budget cut the search short.
   */
  lemma NoNearerNeighbour(g: Layer, dist: int -> real, entry: seq<int>, ef: nat, mask: Mask, found: seq<Scored>,
                          seen: set<int>, expanded: set<int>, f: Scored, y: int)
    requires Answers(found, dist, ef, mask, seen) && Walked(g, entry, seen, expanded)
    requires Exhausted(found, dist, ef, seen, expanded)
    requires f in found && y in Nbrs(g, f.id) && Admits(mask, y)
    ensures Scored(dist(y), y) in found || forall a :: a in found ==> a.key <= dist(y)
  {
    assert f == Scored(dist(f.id), f.id) && f.id in seen;
    assert f.id in expanded;
    assert y in seen;
    assert y in AdmissibleIn(seen, mask);
  }

  /**
   At full effort: if ef covers the admissible nodes and the budget did not stop the search early,
   it saw every admissible node of a connected layer, even from an inadmissible entry point.
   */
  lemma SeesEverything(g: Layer, all: set<int>, dist: int -> real, entry: seq<int>, ef: nat, mask: Mask,
                       found: seq<Scored>, seen: set<int>, expanded: set<int>)
    requires Connected(g, all) && seen <= all && entry != []
    requires Answers(found, dist, ef, mask, seen) && Walked(g, entry, seen, expanded)
    requires Exhausted(found, dist, ef, seen, expanded) || |seen| == |all|
    requires |AdmissibleIn(all, mask)| <= ef
    ensures AdmissibleIn(seen, mask) == AdmissibleIn(all, mask)
  {
    SubsetSize(seen, all);
    SubsetSize(AdmissibleIn(seen, mask), AdmissibleIn(all, mask));
    if |seen| != |all| && |found| != ef {
      assert forall x :: x in seen ==> x in expanded;
      ClosedIsAll(g, all, entry, seen, expanded);
    }
  }

  lemma ClosedIsAll(g: Layer, all: set<int>, entry: seq<int>, seen: set<int>, expanded: set<int>)
    requires Connected(g, all) && seen <= all && entry != [] && Walked(g, entry, seen, expanded)
    requires seen <= expanded
    ensures seen == all
  {
    assert entry[0] in Elems(entry);
    forall y | y in all ensures y in seen {
      LinkedStays(g, seen, entry[0], y);
    }
  }

  /** The best-ef answer, sorted and cut, lists the k nearest admissible nodes seen. */
  lemma AnswersNearest(found: seq<Scored>, dist: int -> real, ef: nat, mask: Mask, seen: set<int>, ids: seq<int>,
                       k: nat)
    requires Answers(found, dist, ef, mask, seen) && k <= ef
    ensures var rows := Nearest.SortRows(Ids(found), dist, ids);
            && |rows| == |found|
            && Nearest.KNearest(rows[..Min(k, |found|)], AdmissibleIn(seen, mask), dist, k)
            && Nearest.SortedRows(rows[..Min(k, |found|)], dist, ids)
  {
    IdsDistinct(found, dist);
    var choice, pool := Ids(found), AdmissibleIn(seen, mask);
    forall x | x in choice ensures x in pool {
      assert Scored(dist(x), x) in found;
    }
    forall r, x | r in choice && x in pool && x !in choice ensures dist(r) <= dist(x) {
      assert Scored(dist(r), r) in found;
    }
    Nearest.SortedChoicePrefix(choice, pool, dist, ids, ef, k);
  }

  /** What `search` needs of an index of n nodes, built or loaded. */
  ghost predicate Searchable(graph: seq<Layer>, levels: seq<nat>, entry: Option<int>, maxLevel: nat) {
    && |graph| == maxLevel + 1
    && (levels == [] <==> entry.None?)
    && Lanes(graph, levels, Upto(|levels|))
    && (entry.Some? ==> entry.value in AtLevel(levels, Upto(|levels|), maxLevel))
    && Connected(graph[0], Upto(|levels|))
  }

  /** `max(effort or ef_search, k)`: a missing or zero effort means the default. */
  function Effort(effort: Option<int>, default: int, k: int): (ef: int)
    ensures ef >= k
  {
    var e := if effort.Some? && effort.value != 0 then effort.value else default;
    if e >= k then e else k
  }

  /** The sorted answer cut to k. */
  function HitsFrom(found: seq<Scored>, ids: seq<int>, dist: int -> real, k: nat): seq<Nearest.Neighbor> {
    var sorted := Nearest.SortRows(Ids(found), dist, ids);
    Nearest.HitsOf(sorted[..Min(k, |sorted|)], dist, ids)
  }

  /** The answer of a search as the neighbour lists determine it. */
  ghost predicate SearchFinds(graph: seq<Layer>, ids: seq<int>, dist: int -> real, k: nat, ef: nat, mask: Mask,
                              budget: nat, entry: int, maxLevel: nat, hits: seq<Nearest.Neighbor>)
    requires |graph| == maxLevel + 1
  {
    exists start, found, visits ::
      && DescendsTo(graph, dist, entry, maxLevel, 0, start)
      && LayerFinds(graph[0], dist, [start], ef, mask, Some(budget), found, visits)
      && hits == HitsFrom(found, ids, dist, k)
  }

  /** Graphs with the same neighbour lists in the same order answer every search alike. */
  lemma SearchOnce(graph: seq<Layer>, graph': seq<Layer>, ids: seq<int>, dist: int -> real, k: nat, ef: nat, mask: Mask,
                   budget: nat, entry: int, maxLevel: nat, hits: seq<Nearest.Neighbor>, hits': seq<Nearest.Neighbor>)
    requires |graph| == maxLevel + 1 && SameNeighbours(graph, graph')
    requires SearchFinds(graph, ids, dist, k, ef, mask, budget, entry, maxLevel, hits)
    requires SearchFinds(graph', ids, dist, k, ef, mask, budget, entry, maxLevel, hits')
    ensures hits == hits'
  {
    var start, found, visits :| DescendsTo(graph, dist, entry, maxLevel, 0, start)
      && LayerFinds(graph[0], dist, [start], ef, mask, Some(budget), found, visits)
      && hits == HitsFrom(found, ids, dist, k);
    var start', found', visits' :| DescendsTo(graph', dist, entry, maxLevel, 0, start')
      && LayerFinds(graph'[0], dist, [start'], ef, mask, Some(budget), found', visits')
      && hits' == HitsFrom(found', ids, dist, k);
    DescentOnce(graph, graph', dist, entry, maxLevel, 0, start, start');
    FindsOnce(graph[0], graph'[0], dist, [start], ef, mask, Some(budget), found, visits, found', visits');
  }

  /**
   `search` on a non-empty index with k > 0: the descent is unfiltered, layer 0 is filtered and
   bounded, and the answer is sorted by (distance, id) and cut to k.
   */
  method SearchGraph(graph: seq<Layer>, ids: seq<int>, dist: int -> real, k: nat, ef: nat, mask: Mask, budget: nat,
                     entry: int, maxLevel: nat, ghost levels: seq<nat>)
    returns (hits: seq<Nearest.Neighbor>, visits: nat, ghost rows: seq<int>, ghost seen: set<int>)
    requires 0 < k <= ef && |ids| == |levels| && Searchable(graph, levels, Some(entry), maxLevel)
    ensures hits == Nearest.HitsOf(rows, dist, ids)
    ensures seen <= Upto(|ids|) && Nearest.KNearest(rows, AdmissibleIn(seen, mask), dist, k)
    ensures Nearest.SortedRows(rows, dist, ids)
    ensures |AdmissibleIn(Upto(|ids|), mask)| <= ef && budget >= |ids| - 1 ==>
              AdmissibleIn(seen, mask) == AdmissibleIn(Upto(|ids|), mask)
    ensures forall degree :: MaxDegree(graph[0], Upto(|ids|), degree) ==> visits < Max(budget, 1) + degree
    ensures SearchFinds(graph, ids, dist, k, ef, mask, budget, entry, maxLevel, hits)
  {
    var found;
    found, visits, seen := SearchBottom(graph, dist, ef, mask, budget, entry, maxLevel, levels);
    Ranked(graph, ids, dist, k, ef, mask, budget, entry, maxLevel, found, seen);
    if found == [] {
      return [], visits, [], seen;
    }
    var sorted := Nearest.SortRows(Ids(found), dist, ids);
    var cut := Min(Min(k, |ids|), |found|);
    rows := sorted[..cut];
    hits := Nearest.HitsOf(sorted[..cut], dist, ids);
  }

  /** Sorting what was found and cutting it gives the answer, and no more rows are cut to than there are. */
  lemma Ranked(graph: seq<Layer>, ids: seq<int>, dist: int -> real, k: nat, ef: nat, mask: Mask, budget: nat,
               entry: int, maxLevel: nat, found: seq<Scored>, seen: set<int>)
    requires |graph| == maxLevel + 1 && FindsNodes(graph, dist, ef, mask, budget, entry, maxLevel, found)
    requires Answers(found, dist, ef, mask, seen) && seen <= Upto(|ids|) && k <= ef
    ensures var sorted, cut := Nearest.SortRows(Ids(found), dist, ids), Min(Min(k, |ids|), |found|);
            && cut <= |sorted| && (found == [] ==> sorted == [] && Nearest.HitsOf([], dist, ids) == [])
            && Nearest.KNearest(sorted[..cut], AdmissibleIn(seen, mask), dist, k)
            && Nearest.SortedRows(sorted[..cut], dist, ids)
            && SearchFinds(graph, ids, dist, k, ef, mask, budget, entry, maxLevel,
                           Nearest.HitsOf(sorted[..cut], dist, ids))
  {
    AnswersNearest(found, dist, ef, mask, seen, ids, k);
    FoundFits(found, dist, ef, mask, seen, |ids|);
    FoundAnswers(graph, ids, dist, k, ef, mask, budget, entry, maxLevel, found);
  }

  /** The nodes a search finds, before they are ranked. */
  ghost predicate FindsNodes(graph: seq<Layer>, dist: int -> real, ef: nat, mask: Mask, budget: nat, entry: int,
                             maxLevel: nat, found: seq<Scored>)
    requires |graph| == maxLevel + 1
  {
    exists start, visits ::
      && DescendsTo(graph, dist, entry, maxLevel, 0, start)
      && LayerFinds(graph[0], dist, [start], ef, mask, Some(budget), found, visits)
  }

  lemma FoundAnswers(graph: seq<Layer>, ids: seq<int>, dist: int -> real, k: nat, ef: nat, mask: Mask, budget: nat,
                     entry: int, maxLevel: nat, found: seq<Scored>)
    requires |graph| == maxLevel + 1 && FindsNodes(graph, dist, ef, mask, budget, entry, maxLevel, found)
    ensures SearchFinds(graph, ids, dist, k, ef, mask, budget, entry, maxLevel, HitsFrom(found, ids, dist, k))
  {
    var start, visits :| DescendsTo(graph, dist, entry, maxLevel, 0, start)
                         && LayerFinds(graph[0], dist, [start], ef, mask, Some(budget), found, visits);
  }

  /** The unfiltered descent and the filtered, bounded search of layer 0. */
  method SearchBottom(graph: seq<Layer>, dist: int -> real, ef: nat, mask: Mask, budget: nat, entry: int, maxLevel: nat,
                      ghost levels: seq<nat>)
    returns (found: seq<Scored>, visits: nat, ghost seen: set<int>)
    requires 0 < ef && Searchable(graph, levels, Some(entry), maxLevel)
    ensures Answers(found, dist, ef, mask, seen) && seen <= Upto(|levels|)
    ensures |AdmissibleIn(Upto(|levels|), mask)| <= ef && budget >= |levels| - 1 ==>
              AdmissibleIn(seen, mask) == AdmissibleIn(Upto(|levels|), mask)
    ensures forall degree :: MaxDegree(graph[0], Upto(|levels|), degree) ==> visits < Max(budget, 1) + degree
    ensures FindsNodes(graph, dist, ef, mask, budget, entry, maxLevel, found)
  {
    ghost var all := Upto(|levels|);
    var start;
    start, visits := Descend(graph, dist, entry, maxLevel, 0, levels, all);
    assert AtLevel(levels, all, 0) == all;
    assert Walkable(graph[0], AtLevel(levels, all, 0));
    assert Elems([start]) == {start};
    ghost var expanded;
    found, visits, seen, expanded := SearchLayer(graph[0], dist, [start], ef, mask, Some(budget), all);
    SubsetSize(seen, all);
    if |AdmissibleIn(all, mask)| <= ef && budget >= |levels| - 1 {
      SeesEverything(graph[0], all, dist, [start], ef, mask, found, seen, expanded);
    }
  }

  lemma FoundFits(found: seq<Scored>, dist: int -> real, ef: nat, mask: Mask, seen: set<int>, n: nat)
    requires Answers(found, dist, ef, mask, seen) && seen <= Upto(n)
    ensures |found| <= n
  {
    SubsetSize(AdmissibleIn(seen, mask), Upto(n));
  }
}
