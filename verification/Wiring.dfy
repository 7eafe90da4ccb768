/**
 Wiring a new node into one layer (the reverse-link loop of `HNSWIndex._insert`): append the
 reverse edge, prune an overfull neighbour, protect the new node and nodes about to lose
 their last edge, then delete the stale reverse edges.
 */
module Wiring {
  import opened Seqs
  import opened Heaps
  import opened Graphs
  import opened LayerSearch
  import opened Neighbours

  function ScoreAll(pair: (int, int) -> real, base: int, nodes: seq<int>): (s: seq<Scored>)
    ensures |s| == |nodes| && forall i :: 0 <= i < |nodes| ==> s[i] == Scored(pair(base, nodes[i]), nodes[i])
  {
    seq(|nodes|, i requires 0 <= i < |nodes| => Scored(pair(base, nodes[i]), nodes[i]))
  }

  lemma ScoreAllDistinct(pair: (int, int) -> real, base: int, nodes: seq<int>)
    requires NoDup(nodes)
    ensures DistinctIds(ScoreAll(pair, base, nodes)) && NoDup(ScoreAll(pair, base, nodes))
    ensures Ids(ScoreAll(pair, base, nodes)) == nodes
  {
  }

  /** `other` hangs on `nb` by its only edge. */
  predicate LastEdge(g: Layer, nb: int, other: int) {
    nb in Nbrs(g, other) && |Nbrs(g, other)| == 1
  }

  /** The last position up to `i` whose member is not `node` and has another edge to lean on, or -1. */
  function LastSpare(g: Layer, node: int, pruned: seq<int>, i: int): (r: int)
    requires -1 <= i < |pruned|
    ensures -1 <= r <= i
    ensures r >= 0 ==> pruned[r] != node && |Nbrs(g, pruned[r])| > 1
    ensures forall j :: r < j <= i ==> pruned[j] == node || |Nbrs(g, pruned[j])| <= 1
    decreases i + 1
  {
    if i == -1 || (pruned[i] != node && |Nbrs(g, pruned[i])| > 1) then i
    else LastSpare(g, node, pruned, i - 1)
  }

  /** Orphan protection over the members of the old list still to be looked at. */
  function Rescue(g: Layer, nb: int, node: int, todo: seq<int>, pruned: seq<int>): seq<int> {
    if todo == [] then pruned
    else Rescue(g, nb, node, todo[1..], RescueOne(g, nb, node, todo[0], pruned))
  }

  function RescueOne(g: Layer, nb: int, node: int, other: int, pruned: seq<int>): seq<int> {
    if other !in pruned && LastEdge(g, nb, other) then
      var i := LastSpare(g, node, pruned, |pruned| - 1);
      if i >= 0 then pruned[i := other] else pruned
    else pruned
  }

  /** What an overfull list is cut down to. */
  function Cut(pair: (int, int) -> real, g: Layer, nb: int, node: int, budget: nat): seq<int>
    requires nb in g && NoDup(g[nb])
  {
    ScoreAllDistinct(pair, nb, g[nb]);
    var chosen := Selected(pair, ScoreAll(pair, nb, g[nb]), budget);
    Rescue(g, nb, node, g[nb], Spared(chosen, node))
  }

  /** The node being inserted must survive: it takes the last place if it was not chosen. */
  function Spared(chosen: seq<int>, node: int): seq<int> {
    if node in chosen || chosen == [] then chosen else chosen[|chosen| - 1 := node]
  }

  /** Whoever was cut from the list of `nb` forgets `nb` in turn. */
  function DropStale(g: Layer, nb: int, adjacency: seq<int>, pruned: seq<int>): Layer {
    map x | x in g :: if x in adjacency && x !in pruned then Without(g[x], nb) else g[x]
  }

  /** One round of the reverse-link loop. */
  function LinkBack(pair: (int, int) -> real, g: Layer, nb: int, node: int, budget: nat): Layer
    requires NoDup(Nbrs(g, nb)) && node !in Nbrs(g, nb)
  {
    var g1 := g[nb := Nbrs(g, nb) + [node]];
    if |g1[nb]| <= budget then g1
    else
      var pruned := Cut(pair, g1, nb, node, budget);
      DropStale(g1, nb, g1[nb], pruned)[nb := pruned]
  }

  // -------------------------------------------------------------- the loops

  lemma SwapMembers(pruned: seq<int>, i: nat, other: int)
    requires NoDup(pruned) && i < |pruned| && other !in pruned
    ensures NoDup(pruned[i := other])
    ensures Elems(pruned[i := other]) == Elems(pruned) - {pruned[i]} + {other}
  {
    var r := pruned[i := other];
    assert r[i] == other;
    forall x | x in pruned && x != pruned[i] ensures x in r {
      var j :| 0 <= j < |pruned| && pruned[j] == x;
      assert r[j] == x;
    }
  }

  /** The orphan-protection loops, with the mirrored `pruned_set`. */
  method RescueAll(g: Layer, nb: int, node: int, adjacency: seq<int>, chosen: seq<int>)
    returns (pruned: seq<int>, prunedSet: set<int>)
    requires NoDup(chosen)
    ensures pruned == Rescue(g, nb, node, adjacency, chosen) && prunedSet == Elems(pruned)
  {
    pruned := chosen;
    prunedSet := Elems(pruned);
    for k := 0 to |adjacency|
      invariant NoDup(pruned) && prunedSet == Elems(pruned)
      invariant Rescue(g, nb, node, adjacency[k..], pruned) == Rescue(g, nb, node, adjacency, chosen)
    {
      var other := adjacency[k];
      ghost var before := pruned;
      if other !in prunedSet && LastEdge(g, nb, other) {
        var idx := |pruned| - 1;
        while idx >= 0
          invariant -1 <= idx < |pruned| && pruned == before
          invariant LastSpare(g, node, pruned, idx) == LastSpare(g, node, pruned, |pruned| - 1)
        {
          var cand := pruned[idx];
          if cand != node && |Nbrs(g, cand)| > 1 {
            SwapMembers(pruned, idx, other);
            pruned := pruned[idx := other];
            prunedSet := prunedSet - {cand} + {other};
            break;
          }
          idx := idx - 1;
        }
      }
      assert pruned == RescueOne(g, nb, node, other, before);
    }
  }

  lemma DropStep(g: Layer, nb: int, done: seq<int>, other: int, pruned: seq<int>)
    requires other in g && other !in done
    ensures DropStale(g, nb, done, pruned)[other] == g[other]
    ensures DropStale(g, nb, done + [other], pruned) ==
            if other in pruned || nb !in g[other] then DropStale(g, nb, done, pruned)
            else DropStale(g, nb, done, pruned)[other := Without(g[other], nb)]
  {
  }

  /** `stale.remove(neighbour)`, for one member if it was cut. */
  method DropOne(g: Layer, nb: int, ghost done: seq<int>, other: int, pruned: seq<int>, prunedSet: set<int>, now: Layer)
    returns (next: Layer)
    requires other in g && other !in done && prunedSet == Elems(pruned) && now == DropStale(g, nb, done, pruned)
    ensures next == DropStale(g, nb, done + [other], pruned)
  {
    DropStep(g, nb, done, other, pruned);
    next := now;
    if other !in prunedSet && nb in now[other] {
      next := now[other := Without(now[other], nb)];
    }
  }

  /** The stale-edge loop, over every member of the old list. */
  method DropAll(g: Layer, nb: int, adjacency: seq<int>, pruned: seq<int>, prunedSet: set<int>) returns (g': Layer)
    requires NoDup(adjacency) && (forall x :: x in adjacency ==> x in g) && prunedSet == Elems(pruned)
    ensures g' == DropStale(g, nb, adjacency, pruned)
  {
    g' := g;
    DropNone(g, nb, pruned);
    ghost var done := [];
    for k := 0 to |adjacency|
      invariant done == adjacency[..k] && g' == DropStale(g, nb, done, pruned)
    {
      var other := adjacency[k];
      FreshAt(adjacency, k);
      assert other in adjacency;
      g' := DropOne(g, nb, done, other, pruned, prunedSet, g');
      done := done + [other];
    }
    assert adjacency[..|adjacency|] == adjacency;
  }

  lemma DropNone(g: Layer, nb: int, pruned: seq<int>)
    ensures DropStale(g, nb, [], pruned) == g
  {
  }

  /** Pruning an overfull list, protecting who must not be lost, and dropping the stale edges. */
  method CutBack(pair: (int, int) -> real, g: Layer, nb: int, node: int, budget: nat) returns (g': Layer)
    requires nb in g && NoDup(g[nb]) && (forall x :: x in g[nb] ==> x in g) && 0 < budget < |g[nb]|
    ensures g' == DropStale(g, nb, g[nb], Cut(pair, g, nb, node, budget))[nb := Cut(pair, g, nb, node, budget)]
  {
    var adjacency := g[nb];
    ScoreAllDistinct(pair, nb, adjacency);
    var scored := ScoreAll(pair, nb, adjacency);
    SelectionIsChoice(pair, scored, budget);
    var pruned := SelectNeighbours(pair, scored, budget);
    if node !in pruned {
      SwapMembers(pruned, |pruned| - 1, node);
      pruned := pruned[|pruned| - 1 := node];
    }
    var prunedSet;
    pruned, prunedSet := RescueAll(g, nb, node, adjacency, pruned);
    g' := DropAll(g, nb, adjacency, pruned, prunedSet);
    g' := g'[nb := pruned];
  }

  /** The body of the reverse-link loop for one neighbour. */
  method LinkOne(pair: (int, int) -> real, g: Layer, nb: int, node: int, budget: nat) returns (g': Layer)
    requires nb in g && node in g && NoDup(g[nb]) && node !in g[nb] && (forall x :: x in g[nb] ==> x in g) && 0 < budget
    ensures g' == LinkBack(pair, g, nb, node, budget)
  {
    var adjacency := Nbrs(g, nb) + [node];
    g' := g[nb := adjacency];
    if |adjacency| > budget {
      g' := CutBack(pair, g', nb, node, budget);
    }
  }

  // ------------------------------------------------- what the pruning promises

  /** Every member but the new node hangs on a single edge. */
  ghost predicate NoSpare(g: Layer, node: int, members: seq<int>) {
    forall x :: x in members ==> x == node || |Nbrs(g, x)| <= 1
  }

  lemma NoSpareLast(g: Layer, node: int, pruned: seq<int>)
    ensures LastSpare(g, node, pruned, |pruned| - 1) == -1 <==> NoSpare(g, node, pruned)
  {
    var i := LastSpare(g, node, pruned, |pruned| - 1);
    if i >= 0 {
      assert pruned[i] in pruned;
    }
  }

  lemma RescueOneKeeps(g: Layer, nb: int, node: int, other: int, pruned: seq<int>)
    requires NoDup(pruned) && node in pruned
    ensures var r := RescueOne(g, nb, node, other, pruned);
            && NoDup(r) && node in r && |r| == |pruned|
            && Elems(r) <= Elems(pruned) + {other}
            && (forall x :: x in pruned ==> x in r || |Nbrs(g, x)| > 1)
            && (other in r || !LastEdge(g, nb, other) || NoSpare(g, node, r))
            && (NoSpare(g, node, pruned) ==> r == pruned)
  {
    NoSpareLast(g, node, pruned);
    var i := LastSpare(g, node, pruned, |pruned| - 1);
    if other !in pruned && i >= 0 {
      SwapMembers(pruned, i, other);
      var r := pruned[i := other];
      assert forall x :: x in r <==> x in Elems(r);
    }
  }

  lemma {:induction false} RescueNothing(g: Layer, nb: int, node: int, todo: seq<int>, pruned: seq<int>)
    requires NoDup(pruned) && node in pruned && NoSpare(g, node, pruned)
    ensures Rescue(g, nb, node, todo, pruned) == pruned
  {
    if todo != [] {
      RescueOneKeeps(g, nb, node, todo[0], pruned);
      RescueNothing(g, nb, node, todo[1..], pruned);
    }
  }

  /** A member that hangs on `nb` alone is rescued unless nobody kept could take its place. */
  lemma {:induction false} RescueKeeps(g: Layer, nb: int, node: int, todo: seq<int>, pruned: seq<int>)
    requires NoDup(pruned) && node in pruned
    ensures var r := Rescue(g, nb, node, todo, pruned);
            && NoDup(r) && node in r && |r| == |pruned|
            && Elems(r) <= Elems(pruned) + Elems(todo)
            && (forall x :: x in pruned ==> x in r || |Nbrs(g, x)| > 1)
            && (forall x :: x in todo ==> x in r || !LastEdge(g, nb, x) || NoSpare(g, node, r))
  {
    if todo != [] {
      var next := RescueOne(g, nb, node, todo[0], pruned);
      RescueOneKeeps(g, nb, node, todo[0], pruned);
      RescueKeeps(g, nb, node, todo[1..], next);
      if NoSpare(g, node, next) {
        RescueNothing(g, nb, node, todo[1..], next);
      }
      assert forall x :: x in todo <==> x == todo[0] || x in todo[1..];
    }
  }

  /** An overfull list keeps `budget` different members, the new node among them. */
  lemma CutKeeps(pair: (int, int) -> real, g: Layer, nb: int, node: int, budget: nat)
    requires nb in g && NoDup(g[nb]) && node in g[nb] && 0 < budget < |g[nb]|
    ensures var r := Cut(pair, g, nb, node, budget);
            && NoDup(r) && node in r && |r| == budget && Elems(r) <= Elems(g[nb])
            && (forall x :: x in g[nb] ==> x in r || !LastEdge(g, nb, x) || NoSpare(g, node, r))
  {
    var scored := ScoreAll(pair, nb, g[nb]);
    ScoreAllDistinct(pair, nb, g[nb]);
    SelectionIsChoice(pair, scored, budget);
    var chosen := Selected(pair, scored, budget);
    if node !in chosen {
      SwapMembers(chosen, |chosen| - 1, node);
    }
    var spared := Spared(chosen, node);
    assert node in Elems(spared);
    RescueKeeps(g, nb, node, g[nb], spared);
  }

  /** Orphan protection brings in members that hang on `nb` alone, and only in the place of others that do not. */
  lemma {:induction false} RescueOnlyLone(g: Layer, nb: int, node: int, todo: seq<int>, pruned: seq<int>)
    requires NoDup(pruned) && node in pruned
    ensures var r := Rescue(g, nb, node, todo, pruned);
            && (forall x :: x in r ==> x in pruned || (x in todo && Nbrs(g, x) == [nb]))
            && (forall x :: x in pruned && x !in r ==> x != node && |Nbrs(g, x)| > 1)
            && ((forall x :: x in todo && x !in pruned ==> Nbrs(g, x) != [nb]) ==> r == pruned)
  {
    if todo != [] {
      var next := RescueOne(g, nb, node, todo[0], pruned);
      RescueOneKeeps(g, nb, node, todo[0], pruned);
      RescuesOne(g, nb, node, todo[0], pruned);
      RescueOnlyLone(g, nb, node, todo[1..], next);
      RescueKeeps(g, nb, node, todo, pruned);
      assert todo[0] in todo && forall x :: x in todo[1..] ==> x in todo;
    }
  }

  lemma RescuesOne(g: Layer, nb: int, node: int, other: int, pruned: seq<int>)
    ensures var r := RescueOne(g, nb, node, other, pruned);
            && (forall x :: x in r ==> x in pruned || (x == other && Nbrs(g, x) == [nb]))
            && (other in pruned || Nbrs(g, other) != [nb] ==> r == pruned)
  {
    assert LastEdge(g, nb, other) ==> Nbrs(g, other) == [nb];
  }

  /**
   What an overfull list keeps: the members selected by their distances to `nb`, the new node in the
   last place if it was not one of them. Others come in only if their one edge is to `nb`, and only
   for members that have another.
   */
  lemma CutSelects(pair: (int, int) -> real, g: Layer, nb: int, node: int, budget: nat, candidates: seq<Scored>)
    requires nb in g && NoDup(g[nb]) && node in g[nb] && 0 < budget < |g[nb]|
    requires |candidates| == |g[nb]|
    requires forall i :: 0 <= i < |g[nb]| ==> candidates[i] == Scored(pair(nb, g[nb][i]), g[nb][i])
    ensures NoDup(candidates) && |Selected(pair, candidates, budget)| == budget
    ensures var chosen, r := Selected(pair, candidates, budget), Cut(pair, g, nb, node, budget);
            var kept := if node in chosen then chosen else chosen[..budget - 1] + [node];
            && (forall x :: x in r ==> x in kept || (x in g[nb] && Nbrs(g, x) == [nb]))
            && (forall x :: x in kept && x !in r ==> x != node && |Nbrs(g, x)| > 1)
            && ((forall x :: x in g[nb] && x !in kept ==> Nbrs(g, x) != [nb]) ==> r == kept)
  {
    ScoreAllDistinct(pair, nb, g[nb]);
    assert candidates == ScoreAll(pair, nb, g[nb]);
    SelectionIsChoice(pair, candidates, budget);
    var chosen := Selected(pair, candidates, budget);
    if node !in chosen {
      SwapMembers(chosen, |chosen| - 1, node);
      assert chosen[|chosen| - 1 := node] == chosen[..budget - 1] + [node];
    }
    var kept := Spared(chosen, node);
    assert node in Elems(kept);
    RescueOnlyLone(g, nb, node, g[nb], kept);
  }

  /** With room the list only grows by the new node; else it is cut, and who was cut forgets `nb`. */
  lemma LinksBack(pair: (int, int) -> real, g: Layer, nb: int, node: int, budget: nat)
    requires NoDup(Nbrs(g, nb)) && node !in Nbrs(g, nb)
    ensures |Nbrs(g, nb)| < budget ==> LinkBack(pair, g, nb, node, budget) == g[nb := Nbrs(g, nb) + [node]]
    ensures |Nbrs(g, nb)| >= budget ==>
              var g1 := g[nb := Nbrs(g, nb) + [node]];
              var h, pruned := LinkBack(pair, g, nb, node, budget), Cut(pair, g1, nb, node, budget);
              && h.Keys == g1.Keys && h[nb] == pruned
              && forall x :: x in g1 && x != nb ==>
                   h[x] == if x in g1[nb] && x !in pruned then Without(g1[x], nb) else g1[x]
  {
  }

  // ------------------------------------------------- the graph invariant between rounds

  /** While `node` is wired in, its edges to `pending` still lack their reverse; nothing else does. */
  ghost predicate HalfWired(g: Layer, node: int, pending: set<int>, budget: nat) {
    Simple(g) && Within(g, budget) && node in g && Paired(g, node, pending)
  }

  ghost predicate Paired(g: Layer, node: int, pending: set<int>) {
    && (forall y :: y in pending ==> y in Nbrs(g, node) && node !in Nbrs(g, y))
    && (forall x, y :: y in Nbrs(g, x) ==> x in Nbrs(g, y) || (x == node && y in pending))
  }

  /** One round leaves one edge fewer to reverse, and the new node's own list alone. */
  lemma LinkBackKeeps(pair: (int, int) -> real, g: Layer, nb: int, node: int, pending: set<int>, budget: nat)
    requires HalfWired(g, node, pending, budget) && nb in pending && 0 < budget
    ensures HalfWired(LinkBack(pair, g, nb, node, budget), node, pending - {nb}, budget)
    ensures LinkBack(pair, g, nb, node, budget).Keys == g.Keys
    ensures LinkBack(pair, g, nb, node, budget)[node] == g[node]
  {
    AppendKeeps(g, nb, node, pending, budget);
    var g1 := g[nb := Nbrs(g, nb) + [node]];
    if |g1[nb]| > budget {
      CutKeeps(pair, g1, nb, node, budget);
      var pruned := Cut(pair, g1, nb, node, budget);
      CutEdges(g1, nb, node, pending - {nb}, pruned, budget);
    }
  }

  lemma AppendKeeps(g: Layer, nb: int, node: int, pending: set<int>, budget: nat)
    requires HalfWired(g, node, pending, budget) && nb in pending
    ensures nb != node && nb in g && node !in g[nb]
    ensures var g1 := g[nb := Nbrs(g, nb) + [node]];
            && g1.Keys == g.Keys && Simple(g1) && Paired(g1, node, pending - {nb})
            && node in g1[nb] && g1[node] == g[node]
            && forall x :: x in g1 && x != nb ==> |g1[x]| <= budget
  {
    assert nb in Elems(g[node]);
    var adjacency := Nbrs(g, nb) + [node];
    var g1 := g[nb := adjacency];
    assert adjacency[|g[nb]|] == node;
    assert forall z :: z in adjacency <==> z in g[nb] || z == node;
    forall x, y | y in Nbrs(g1, x)
      ensures x in Nbrs(g1, y) || (x == node && y in pending - {nb})
    {
      if x == nb && y == node {
        assert nb in Nbrs(g, node);
      } else {
        assert y in Nbrs(g, x);
        assert x in Nbrs(g, y) || (x == node && y in pending);
      }
    }
  }

  /** The layer after the list of `nb` was cut to `pruned` and the stale reverse edges are gone. */
  function CutLayer(g: Layer, nb: int, pruned: seq<int>): Layer
    requires nb in g
  {
    DropStale(g, nb, g[nb], pruned)[nb := pruned]
  }

  lemma CutList(g: Layer, nb: int, pruned: seq<int>, x: int)
    requires Simple(g) && nb in g && x in g && x != nb
    ensures var l := CutLayer(g, nb, pruned)[x];
            && NoDup(l) && |l| <= |g[x]|
            && (forall y :: y in l ==> y in g[x])
            && (forall y :: y in g[x] ==> y in l || (y == nb && x in g[nb] && x !in pruned))
            && (x in g[nb] && x !in pruned ==> nb !in l)
  {
    WithoutNoDup(g[x], nb);
  }

  lemma CutSimple(g: Layer, nb: int, pruned: seq<int>, budget: nat)
    requires Simple(g) && nb in g
    requires forall x :: x in g && x != nb ==> |g[x]| <= budget
    requires NoDup(pruned) && Elems(pruned) <= Elems(g[nb]) && |pruned| <= budget
    ensures Simple(CutLayer(g, nb, pruned)) && Within(CutLayer(g, nb, pruned), budget)
  {
    var h := CutLayer(g, nb, pruned);
    forall x | x in h
      ensures NoDup(h[x]) && x !in h[x] && |h[x]| <= budget && forall y :: y in h[x] ==> y in h
    {
      if x != nb {
        CutList(g, nb, pruned, x);
      } else {
        assert forall y :: y in pruned <==> y in Elems(pruned);
        assert forall y :: y in g[nb] <==> y in Elems(g[nb]);
      }
    }
  }

  /** Cutting one list and dropping the stale reverse edges keeps every other edge as it was. */
  lemma CutEdges(g: Layer, nb: int, node: int, pending: set<int>, pruned: seq<int>, budget: nat)
    requires Simple(g) && node in g && nb in g && nb != node && nb !in pending && node in pruned
    requires forall x :: x in g && x != nb ==> |g[x]| <= budget
    requires Paired(g, node, pending)
    requires NoDup(pruned) && Elems(pruned) <= Elems(g[nb]) && |pruned| <= budget
    ensures HalfWired(CutLayer(g, nb, pruned), node, pending, budget)
    ensures CutLayer(g, nb, pruned)[node] == g[node]
  {
    var h := CutLayer(g, nb, pruned);
    CutSimple(g, nb, pruned, budget);
    forall x, y | y in Nbrs(h, x) ensures x in Nbrs(h, y) || (x == node && y in pending) {
      CutPair(g, nb, node, pending, pruned, x, y);
    }
    forall y | y in pending ensures y in Nbrs(h, node) && node !in Nbrs(h, y) {
      assert y in Nbrs(g, node) && y in Elems(g[node]);
      CutList(g, nb, pruned, y);
    }
  }

  /** An edge left by the cut still has its reverse, if it had one. */
  lemma CutPair(g: Layer, nb: int, node: int, pending: set<int>, pruned: seq<int>, x: int, y: int)
    requires Simple(g) && nb in g && nb !in pending && Elems(pruned) <= Elems(g[nb])
    requires Paired(g, node, pending) && y in Nbrs(CutLayer(g, nb, pruned), x)
    ensures x in Nbrs(CutLayer(g, nb, pruned), y) || (x == node && y in pending)
  {
    CutEdge(g, nb, pruned, x, y);
    assert y in Nbrs(g, x);
    if x in Nbrs(g, y) {
      if y == nb {
        CutList(g, nb, pruned, x);
      } else {
        CutList(g, nb, pruned, y);
      }
    }
  }

  lemma CutEdge(g: Layer, nb: int, pruned: seq<int>, x: int, y: int)
    requires Simple(g) && nb in g && Elems(pruned) <= Elems(g[nb])
    requires y in Nbrs(CutLayer(g, nb, pruned), x)
    ensures x in g && y in g[x] && x != y && y in g
    ensures x == nb ==> y in pruned
  {
    if x == nb {
      assert y in Elems(pruned);
    } else {
      CutList(g, nb, pruned, x);
    }
    assert y in Elems(g[x]);
  }

  // ------------------------------------------------- all rounds of one layer

  lemma TailMembers(s: seq<int>)
    requires s != [] && NoDup(s)
    ensures Elems(s) - {s[0]} == Elems(s[1..]) && s[0] in Elems(s)
  {
    assert s == [s[0]] + s[1..];
  }

  function WireFrom(pair: (int, int) -> real, g: Layer, node: int, todo: seq<int>, budget: nat): (r: Layer)
    requires HalfWired(g, node, Elems(todo), budget) && NoDup(todo) && 0 < budget
    ensures HalfWired(r, node, {}, budget)
    ensures r.Keys == g.Keys && r[node] == g[node]
    decreases |todo|
  {
    if todo == [] then g
    else
      TailMembers(todo);
      AppendKeeps(g, todo[0], node, Elems(todo), budget);
      LinkBackKeeps(pair, g, todo[0], node, Elems(todo), budget);
      WireFrom(pair, LinkBack(pair, g, todo[0], node, budget), node, todo[1..], budget)
  }

  /** A layer that may be wired into: well formed, symmetric and within its budget. */
  ghost predicate Sound(g: Layer, budget: nat) {
    Simple(g) && Symmetric(g) && Within(g, budget)
  }

  ghost predicate Fits(g: Layer, node: int, neighbours: seq<int>, budget: nat) {
    Sound(g, budget) && node !in g && NoDup(neighbours) && Elems(neighbours) <= g.Keys && |neighbours| <= budget
  }

  lemma WireStart(g: Layer, node: int, neighbours: seq<int>, budget: nat)
    requires Fits(g, node, neighbours, budget)
    ensures HalfWired(g[node := neighbours], node, Elems(neighbours), budget)
  {
    var h := g[node := neighbours];
    assert forall y :: y in neighbours <==> y in Elems(neighbours);
    forall x, y | y in Nbrs(h, x)
      ensures x in Nbrs(h, y) || (x == node && y in Elems(neighbours))
    {
      if x != node {
        assert y in Nbrs(g, x) && x in Nbrs(g, y);
      }
    }
  }

  /** The layer after `node` was given `neighbours` and every reverse link was made. */
  function Wired(pair: (int, int) -> real, g: Layer, node: int, neighbours: seq<int>, budget: nat): Layer
    requires Fits(g, node, neighbours, budget) && 0 < budget
  {
    WireStart(g, node, neighbours, budget);
    WireFrom(pair, g[node := neighbours], node, neighbours, budget)
  }

  /** Wiring a node in keeps a layer sound and adds that node only. */
  lemma WiredSound(pair: (int, int) -> real, g: Layer, node: int, neighbours: seq<int>, budget: nat)
    requires Fits(g, node, neighbours, budget) && 0 < budget
    ensures var h := Wired(pair, g, node, neighbours, budget);
            Sound(h, budget) && h.Keys == g.Keys + {node} && h[node] == neighbours
  {
    WireStart(g, node, neighbours, budget);
    AllWired(Wired(pair, g, node, neighbours, budget), node, budget);
  }

  lemma AllWired(g: Layer, node: int, budget: nat)
    requires HalfWired(g, node, {}, budget)
    ensures Sound(g, budget)
  {
  }

  /** One round of the loop over the neighbours still to be linked back. */
  lemma WireRound(pair: (int, int) -> real, g: Layer, node: int, todo: seq<int>, budget: nat)
    requires HalfWired(g, node, Elems(todo), budget) && NoDup(todo) && todo != [] && 0 < budget
    ensures todo[0] in g && node !in g[todo[0]] && NoDup(g[todo[0]]) && forall x :: x in g[todo[0]] ==> x in g
    ensures var g' := LinkBack(pair, g, todo[0], node, budget);
            && HalfWired(g', node, Elems(todo[1..]), budget) && NoDup(todo[1..])
            && WireFrom(pair, g, node, todo, budget) == WireFrom(pair, g', node, todo[1..], budget)
  {
    TailMembers(todo);
    AppendKeeps(g, todo[0], node, Elems(todo), budget);
    LinkBackKeeps(pair, g, todo[0], node, Elems(todo), budget);
  }

  method Wire(pair: (int, int) -> real, g: Layer, node: int, neighbours: seq<int>, budget: nat) returns (g': Layer)
    requires Fits(g, node, neighbours, budget) && 0 < budget
    ensures g' == Wired(pair, g, node, neighbours, budget)
  {
    WireStart(g, node, neighbours, budget);
    g' := WireBack(pair, g[node := neighbours], node, neighbours, budget);
  }

  method LinkNext(pair: (int, int) -> real, g: Layer, node: int, nb: int, ghost todo: seq<int>, budget: nat)
    returns (g': Layer)
    requires HalfWired(g, node, Elems(todo), budget) && NoDup(todo) && todo != [] && nb == todo[0] && 0 < budget
    ensures HalfWired(g', node, Elems(todo[1..]), budget) && NoDup(todo[1..])
    ensures WireFrom(pair, g, node, todo, budget) == WireFrom(pair, g', node, todo[1..], budget)
  {
    WireRound(pair, g, node, todo, budget);
    g' := LinkOne(pair, g, nb, node, budget);
  }

  /** `for neighbour in neighbours:`, each made to point back. */
  method WireBack(pair: (int, int) -> real, g: Layer, node: int, neighbours: seq<int>, budget: nat) returns (g': Layer)
    requires HalfWired(g, node, Elems(neighbours), budget) && NoDup(neighbours) && 0 < budget
    ensures g' == WireFrom(pair, g, node, neighbours, budget)
  {
    g' := g;
    ghost var todo := neighbours;
    for k := 0 to |neighbours|
      invariant todo == neighbours[k..] && NoDup(todo) && HalfWired(g', node, Elems(todo), budget)
      invariant WireFrom(pair, g', node, todo, budget) == WireFrom(pair, g, node, neighbours, budget)
    {
      g' := LinkNext(pair, g', node, neighbours[k], todo, budget);
      todo := todo[1..];
    }
  }

  // ------------------------------------------------- orphans

  /**
   Orphan protection, exactly: cutting a full list strips somebody of the last edge if and only
   if every member of that list hangs on this one neighbour alone. The new node never suffers.
   */
  lemma OrphanedExactlyWhen(pair: (int, int) -> real, g: Layer, nb: int, node: int, pending: set<int>, budget: nat)
    requires HalfWired(g, node, pending, budget) && nb in pending && 0 < budget == |Nbrs(g, nb)|
    ensures nb in g && nb != node && node !in g[nb]
    ensures var h := LinkBack(pair, g, nb, node, budget);
            && node in Nbrs(h, nb)
            && ((exists x :: x in g[nb] && Nbrs(h, x) == []) <==> (forall x :: x in g[nb] ==> |Nbrs(g, x)| == 1))
  {
    AppendKeeps(g, nb, node, pending, budget);
    var g1 := g[nb := Nbrs(g, nb) + [node]];
    CutKeeps(pair, g1, nb, node, budget);
    var pruned := Cut(pair, g1, nb, node, budget);
    var h := LinkBack(pair, g, nb, node, budget);
    NoDupSize(g1[nb]);
    NoDupSize(pruned);
    var gone := Spare(Elems(g1[nb]), Elems(pruned));
    OnlyOneGone(g1[nb], pruned, gone);
    assert gone != node && gone in g[nb];
    StripsOne(g, g1, h, nb, node, pending, budget, pruned, gone);
  }

  /** A list cut by one loses exactly one member. */
  lemma OnlyOneGone(full: seq<int>, pruned: seq<int>, gone: int)
    requires NoDup(full) && NoDup(pruned) && Elems(pruned) <= Elems(full) && |full| == |pruned| + 1
    requires gone in full && gone !in pruned
    ensures forall x :: x in full <==> x in pruned || x == gone
  {
    NoDupSize(full);
    NoDupSize(pruned);
    SubsetSize(Elems(pruned) + {gone}, Elems(full));
    assert forall x :: x in full <==> x in Elems(full);
  }

  lemma StripsMember(g: Layer, g1: Layer, h: Layer, nb: int, node: int, pending: set<int>, budget: nat,
                     pruned: seq<int>, gone: int, x: int)
    requires HalfWired(g, node, pending, budget) && nb in pending && nb in g && nb != node && node !in g[nb]
    requires g1 == g[nb := Nbrs(g, nb) + [node]] && h == CutLayer(g1, nb, pruned)
    requires gone !in pruned && x in g[nb]
    requires forall x :: x in g1[nb] <==> x in pruned || x == gone
    ensures nb in Nbrs(g, x) && Nbrs(g1, x) == Nbrs(g, x) && x in g1[nb]
    ensures Nbrs(h, x) == if x == gone then Without(Nbrs(g, x), nb) else Nbrs(g, x)
  {
    assert x in Nbrs(g, nb) && x in Elems(g[nb]);
    assert x in Nbrs(g1, nb);
  }

  lemma StripsOne(g: Layer, g1: Layer, h: Layer, nb: int, node: int, pending: set<int>, budget: nat,
                  pruned: seq<int>, gone: int)
    requires HalfWired(g, node, pending, budget) && nb in pending && nb in g && nb != node && node !in g[nb]
    requires g1 == g[nb := Nbrs(g, nb) + [node]] && h == CutLayer(g1, nb, pruned)
    requires node in pruned && gone in g[nb] && gone !in pruned
    requires forall x :: x in g1[nb] <==> x in pruned || x == gone
    requires forall x :: x in g1[nb] ==> x in pruned || !LastEdge(g1, nb, x) || NoSpare(g1, node, pruned)
    ensures (exists x :: x in g[nb] && Nbrs(h, x) == []) <==> (forall x :: x in g[nb] ==> |Nbrs(g, x)| == 1)
  {
    forall x | x in g[nb]
      ensures |Nbrs(g, x)| >= 1 && Nbrs(g1, x) == Nbrs(g, x) && x in g1[nb]
      ensures LastEdge(g1, nb, x) == (|Nbrs(g, x)| == 1)
      ensures Nbrs(h, x) == if x == gone then Without(Nbrs(g, x), nb) else Nbrs(g, x)
    {
      StripsMember(g, g1, h, nb, node, pending, budget, pruned, gone, x);
    }
    if forall x :: x in g[nb] ==> |Nbrs(g, x)| == 1 {
      assert Nbrs(h, gone) == [];
    }
    if x :| x in g[nb] && Nbrs(h, x) == [] {
      assert x == gone && LastEdge(g1, nb, gone);
      forall y | y in g[nb] ensures |Nbrs(g, y)| == 1 {
        assert y in g1[nb];
      }
    }
  }
}
