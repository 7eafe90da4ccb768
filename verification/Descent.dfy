/**
 The express lanes shared by insertion and search: a greedy walk with ef = 1 on every layer
 above the one that matters, each from the last one's answer.
 */
module Descent {
  import opened Seqs
  import opened Heaps
  import opened Graphs
  import opened LayerSearch

  /** The nodes that live on a layer: those whose level reaches it. */
  ghost function AtLevel(levels: seq<nat>, inserted: set<int>, layer: nat): set<int> {
    set i | i in inserted && 0 <= i < |levels| && levels[i] >= layer
  }

  /** A search that starts on `nodes` stays on them. */
  ghost predicate Walkable(g: Layer, nodes: set<int>) {
    Closed(g, nodes) && forall x :: x in nodes ==> NoDup(Nbrs(g, x))
  }

  ghost predicate Lanes(graph: seq<Layer>, levels: seq<nat>, all: set<int>) {
    forall l {:trigger Walkable(graph[l], AtLevel(levels, all, l))} :: 0 <= l < |graph| ==>
      Walkable(graph[l], AtLevel(levels, all, l))
  }

  lemma SimpleWalkable(g: Layer)
    requires Simple(g)
    ensures Walkable(g, g.Keys)
  {
  }

  /** No neighbour of `x` is nearer to the query: where a greedy descent comes to rest. */
  ghost predicate LocalMin(g: Layer, dist: int -> real, x: int) {
    forall y :: y in Nbrs(g, x) ==> dist(x) <= dist(y)
  }

  /** A search with ef = 1 answers one node, and it is a local minimum. */
  lemma SingleAnswer(g: Layer, dist: int -> real, entry: seq<int>, found: seq<Scored>, seen: set<int>,
                     expanded: set<int>)
    requires entry != [] && Walked(g, entry, seen, expanded)
    requires Answers(found, dist, 1, None, seen) && Exhausted(found, dist, 1, seen, expanded)
    ensures |found| == 1 && found[0].id in seen && LocalMin(g, dist, found[0].id)
  {
    assert AdmissibleIn(seen, None) == seen && entry[0] in Elems(entry);
    SubsetSize({entry[0]}, seen);
    assert found[0] in found;
    var x := found[0].id;
    assert x in expanded;
    forall y | y in Nbrs(g, x) ensures dist(x) <= dist(y) {
      assert y in seen;
      if Scored(dist(y), y) in found {
        assert found[0] == Scored(dist(y), y);
      }
    }
  }

  /** Where the walk on one layer comes to rest, as its neighbour lists determine it. */
  ghost predicate WalksTo(g: Layer, dist: int -> real, x: int, rest: int) {
    exists visits :: LayerFinds(g, dist, [x], 1, None, None, [Scored(dist(rest), rest)], visits)
  }

  /** Layer after layer from `high` to just above `low`. */
  ghost predicate DescendsTo(graph: seq<Layer>, dist: int -> real, start: int, high: nat, low: nat, rest: int)
    requires low <= high < |graph|
    decreases high - low
  {
    if low == high then rest == start
    else
      var above := low + 1;
      exists mid :: DescendsTo(graph, dist, start, high, above, mid) && WalksTo(graph[above], dist, mid, rest)
  }

  lemma WalkOnce(g: Layer, h: Layer, dist: int -> real, x: int, a: int, b: int)
    requires WalksTo(g, dist, x, a) && WalksTo(h, dist, x, b) && forall y :: Nbrs(g, y) == Nbrs(h, y)
    ensures a == b
  {
    var v :| LayerFinds(g, dist, [x], 1, None, None, [Scored(dist(a), a)], v);
    var w :| LayerFinds(h, dist, [x], 1, None, None, [Scored(dist(b), b)], w);
    FindsOnce(g, h, dist, [x], 1, None, None, [Scored(dist(a), a)], v, [Scored(dist(b), b)], w);
  }

  ghost predicate SameNeighbours(graph: seq<Layer>, graph': seq<Layer>) {
    |graph| == |graph'| && forall l, x {:trigger Nbrs(graph[l], x)} {:trigger Nbrs(graph'[l], x)} ::
      0 <= l < |graph| ==> Nbrs(graph[l], x) == Nbrs(graph'[l], x)
  }

  /** Where the last lane was entered. */
  lemma LastLane(graph: seq<Layer>, dist: int -> real, start: int, high: nat, low: nat, rest: int) returns (mid: int)
    requires low < high < |graph| && DescendsTo(graph, dist, start, high, low, rest)
    ensures DescendsTo(graph, dist, start, high, low + 1, mid) && WalksTo(graph[low + 1], dist, mid, rest)
  {
    mid :| DescendsTo(graph, dist, start, high, low + 1, mid) && WalksTo(graph[low + 1], dist, mid, rest);
  }

  lemma {:induction false} DescentOnce(graph: seq<Layer>, graph': seq<Layer>, dist: int -> real, start: int, high: nat,
                                       low: nat, a: int, b: int)
    requires low <= high < |graph| && SameNeighbours(graph, graph')
    requires DescendsTo(graph, dist, start, high, low, a) && DescendsTo(graph', dist, start, high, low, b)
    ensures a == b
    decreases high - low
  {
    if low < high {
      var mid := LastLane(graph, dist, start, high, low, a);
      var mid' := LastLane(graph', dist, start, high, low, b);
      DescentOnce(graph, graph', dist, start, high, low + 1, mid, mid');
      WalkOnce(graph[low + 1], graph'[low + 1], dist, mid, a, b);
    }
  }

  /** One layer of the descent: `_search_layer(query, [x], 1, layer)[0][1]`. */
  method GreedyWalk(g: Layer, dist: int -> real, x: int, ghost nodes: set<int>) returns (rest: int, visits: nat)
    requires Walkable(g, nodes) && x in nodes
    ensures rest in nodes && LocalMin(g, dist, rest) && WalksTo(g, dist, x, rest)
  {
    assert Elems([x]) == {x};
    var found;
    ghost var seen, expanded;
    found, visits, seen, expanded := SearchLayer(g, dist, [x], 1, None, None, nodes);
    SingleAnswer(g, dist, [x], found, seen, expanded);
    rest := found[0].id;
    assert found[0] in found && found == [Scored(dist(rest), rest)];
  }

  /** The descent from layer `high` to layer `low`; it never answers an empty list. */
  method Descend(graph: seq<Layer>, dist: int -> real, start: int, high: nat, low: nat, ghost levels: seq<nat>,
                 ghost all: set<int>)
    returns (rest: int, visits: nat)
    requires low <= high < |graph| && Lanes(graph, levels, all) && start in AtLevel(levels, all, high)
    ensures rest in AtLevel(levels, all, low)
    ensures if low < high then LocalMin(graph[low + 1], dist, rest) else rest == start
    ensures DescendsTo(graph, dist, start, high, low, rest)
  {
    rest, visits := start, 0;
    var layer := high;
    while layer > low
      invariant low <= layer <= high && rest in AtLevel(levels, all, layer)
      invariant if layer < high then LocalMin(graph[layer + 1], dist, rest) else rest == start
      invariant DescendsTo(graph, dist, start, high, layer, rest)
    {
      assert Walkable(graph[layer], AtLevel(levels, all, layer));
      rest, visits := GreedyWalk(graph[layer], dist, rest, AtLevel(levels, all, layer));
      layer := layer - 1;
    }
  }
}
