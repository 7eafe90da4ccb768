/**
 A run of insertions that leaves a node without an edge: the orphan protection of
 `HNSWIndex._insert` does not keep every node at degree one or more. Row 0 is nearer to every
 row than they are to each other and one candidate is looked for, so all rows hang on row 0
 alone, until its list is full and the next row strips one of them.
 */
module Orphans {
  import opened Seqs
  import opened Heaps
  import opened Graphs
  import opened LayerSearch
  import opened Neighbours
  import opened Wiring
  import opened HnswInsert
  import opened Hnsw
  import UF = UnionFind

  // ------------------------------------------------------------- rows, and their distances

  /** Row 0 is the first axis; every other row has 3/5 of it and 4/5 of an axis of its own. */
  function Row(i: nat, width: nat): (row: seq<real>)
    ensures |row| == width
  {
    seq(width, c => if i == 0 then (if c == 0 then 1.0 else 0.0)
                    else if c == 0 then 0.6 else if c == i then 0.8 else 0.0)
  }

  function Dot(a: seq<real>, b: seq<real>): real
    requires |a| == |b|
    decreases |a|
  {
    if a == [] then 0.0 else Dot(a[..|a| - 1], b[..|b| - 1]) + a[|a| - 1] * b[|b| - 1]
  }

  /** `1 - vectors @ query` for rows of unit length. */
  function CosineDistance(a: seq<real>, b: seq<real>): real
    requires |a| == |b|
  {
    1.0 - Dot(a, b)
  }

  lemma {:induction false} DotOfRows(i: nat, j: nat, width: nat, n: nat)
    requires n <= width && i < width && j < width
    ensures Dot(Row(i, width)[..n], Row(j, width)[..n]) ==
            (if n == 0 then 0.0 else if i == 0 && j == 0 then 1.0 else if i == 0 || j == 0 then 0.6 else 0.36)
            + (if i == j && 0 < i < n then 0.64 else 0.0)
  {
    if n > 0 {
      var a, b := Row(i, width)[..n], Row(j, width)[..n];
      assert a[..n - 1] == Row(i, width)[..n - 1] && b[..n - 1] == Row(j, width)[..n - 1];
      DotOfRows(i, j, width, n - 1);
    }
  }

  /** The hub, row 0, is at distance 2/5 from every other row, and those are at distance 16/25 from each other. */
  function FromHub(i: int, j: int): real {
    if i == j then 0.0 else if i == 0 || j == 0 then 0.4 else 0.64
  }

  /** The rows are of unit length, and these are their distances. */
  lemma RowsAreApart(i: nat, j: nat, width: nat)
    requires i < width && j < width
    ensures Dot(Row(i, width), Row(i, width)) == 1.0
    ensures CosineDistance(Row(i, width), Row(j, width)) == FromHub(i, j)
  {
    assert Row(i, width)[..width] == Row(i, width) && Row(j, width)[..width] == Row(j, width);
    DotOfRows(i, i, width, width);
    DotOfRows(i, j, width, width);
  }

  ghost predicate DistancesOfRows(pair: (int, int) -> real, width: nat) {
    forall i: nat, j: nat :: i < width && j < width ==> pair(i, j) == CosineDistance(Row(i, width), Row(j, width))
  }

  lemma HubDistances(width: nat)
    ensures DistancesOfRows(FromHub, width)
  {
    forall i: nat, j: nat | i < width && j < width
      ensures FromHub(i, j) == CosineDistance(Row(i, width), Row(j, width))
    {
      RowsAreApart(i, j, width);
    }
  }

  // ------------------------------------------------------------- stars

  function Leaves(n: nat): (ids: seq<int>)
    ensures |ids| == n && forall i :: 0 <= i < n ==> ids[i] == i + 1
  {
    seq(n, i => i + 1)
  }

  /** Nodes 1 to n, each with the one edge to node 0. */
  function Star(n: nat): (g: Layer) {
    var nodes := UF.Upto(n + 1);
    map x | x in nodes :: if x == 0 then Leaves(n) else [0]
  }

  lemma StarLists(n: nat, x: int)
    ensures Nbrs(Star(n), x) == if x == 0 then Leaves(n) else if 1 <= x <= n then [0] else []
    ensures forall y :: y in Leaves(n) <==> 1 <= y <= n
  {
    forall y | 1 <= y <= n ensures y in Leaves(n) {
      assert Leaves(n)[y - 1] == y;
    }
  }

  lemma StarFits(n: nat, budget: nat)
    requires n <= budget && 1 <= budget
    ensures Fits(Star(n), n + 1, [0], budget)
  {
    assert Elems([0]) == {0};
    forall x, y | y in Nbrs(Star(n), x) ensures x in Nbrs(Star(n), y) {
      StarLists(n, x);
      StarLists(n, y);
    }
    forall x | x in Star(n)
      ensures NoDup(Star(n)[x]) && x !in Star(n)[x] && |Star(n)[x]| <= budget
      ensures forall y :: y in Star(n)[x] ==> y in Star(n)
    {
      StarLists(n, x);
    }
  }

  /** Selecting from one candidate selects it. */
  lemma OneSelected(pair: (int, int) -> real, c: Scored, m: nat)
    requires 1 <= m
    ensures Selected(pair, [c], m) == [c.id]
  {
    SelectionIsChoice(pair, [c], m);
    var chosen := Selected(pair, [c], m);
    assert chosen[0] in Elems(chosen);
    assert chosen == [chosen[0]] && Ids([c]) == [c.id];
  }

  /** Whatever it starts from, a search for one candidate in the star finds the hub. */
  lemma HubFound(n: nat, pair: (int, int) -> real, dist: int -> real, start: int, found: seq<Scored>, seen: set<int>,
                 expanded: set<int>, budget: nat)
    requires 0 <= start <= n && 1 <= budget && forall x :: 1 <= x <= n ==> dist(0) < dist(x)
    requires Walked(Star(n), [start], seen, expanded) && NoDup(found)
    requires Elems(Selected(pair, found, budget)) <= Star(n).Keys
    requires Answers(found, dist, 1, None, seen) && Exhausted(found, dist, 1, seen, expanded)
    ensures found == [Scored(dist(0), 0)]
  {
    assert AdmissibleIn(seen, None) == seen && start in Elems([start]);
    SubsetSize({start}, seen);
    assert found == [found[0]] && found[0] in found;
    OneSelected(pair, found[0], budget);
    var x := found[0].id;
    assert x in Elems([x]);
    StarLists(n, x);
    if x != 0 {
      assert x in expanded;
      assert 0 in Nbrs(Star(n), x);
    }
  }

  /** Wiring to one neighbour is one round of the reverse-link loop. */
  lemma WiredToOne(pair: (int, int) -> real, g: Layer, node: int, nb: int, budget: nat)
    requires Fits(g, node, [nb], budget) && 0 < budget
    ensures HalfWired(g[node := [nb]], node, {nb}, budget) && nb in g && node !in g[nb] && NoDup(g[nb]) && nb != node
    ensures Wired(pair, g, node, [nb], budget) == LinkBack(pair, g[node := [nb]], nb, node, budget)
  {
    var half := g[node := [nb]];
    assert Elems([nb]) == {nb} && [nb][1..] == [];
    WireStart(g, node, [nb], budget);
    AppendKeeps(half, nb, node, {nb}, budget);
    LinkBackKeeps(pair, half, nb, node, {nb}, budget);
    assert Wired(pair, g, node, [nb], budget) == WireFrom(pair, half, node, [nb], budget);
    assert {nb} - {nb} == {};
    var next := LinkBack(pair, half, nb, node, budget);
    assert WireFrom(pair, next, node, [], budget) == next;
  }

  /** A row wired to a hub with room left makes the next star. */
  lemma StarGrows(n: nat, pair: (int, int) -> real, budget: nat)
    requires n < budget && Fits(Star(n), n + 1, [0], budget)
    ensures Wired(pair, Star(n), n + 1, [0], budget) == Star(n + 1)
  {
    WiredToOne(pair, Star(n), n + 1, 0, budget);
    NextStar(n);
  }

  lemma NextStar(n: nat)
    ensures Star(n)[n + 1 := [0]][0 := Leaves(n) + [n + 1]] == Star(n + 1) && 0 in Star(n) && Star(n)[0] == Leaves(n)
  {
    assert Leaves(n + 1) == Leaves(n) + [n + 1];
    UF.UptoNext(n + 1);
  }

  /** Some leaf of the star has lost its edge. */
  ghost predicate Stripped(g: Layer, n: nat) {
    exists x :: 1 <= x <= n && Nbrs(g, x) == []
  }

  /** The star with its next row half wired: every member of the hub's list hangs on the hub alone. */
  lemma HalfStar(n: nat, x: int)
    ensures var half := Star(n)[n + 1 := [0]];
            && 0 in half && half[0] == Leaves(n) && |Nbrs(half, 0)| == n
            && (x in half[0] ==> 1 <= x <= n && |Nbrs(half, x)| == 1)
  {
    StarLists(n, x);
    StarLists(n, 0);
  }

  lemma StrippedAt(g: Layer, n: nat, x: int)
    requires 1 <= x <= n && Nbrs(g, x) == []
    ensures Stripped(g, n)
  {
  }

  /** A row wired to a full hub strips a leaf of its only edge. */
  lemma FullHubStrips(n: nat, pair: (int, int) -> real)
    requires 1 <= n && Fits(Star(n), n + 1, [0], n)
    ensures Stripped(Wired(pair, Star(n), n + 1, [0], n), n)
  {
    var half := Star(n)[n + 1 := [0]];
    WiredToOne(pair, Star(n), n + 1, 0, n);
    HalfStar(n, 0);
    forall x | x in half[0] ensures |Nbrs(half, x)| == 1 {
      HalfStar(n, x);
    }
    LoneLeafLost(pair, half, n);
  }

  lemma LoneLeafLost(pair: (int, int) -> real, half: Layer, n: nat)
    requires 1 <= n && HalfWired(half, n + 1, {0}, n) && 0 in half && half[0] == Leaves(n)
    requires n + 1 !in half[0] && NoDup(half[0]) && forall x :: x in half[0] ==> |Nbrs(half, x)| == 1
    ensures Stripped(LinkBack(pair, half, 0, n + 1, n), n)
  {
    OrphanedExactlyWhen(pair, half, 0, n + 1, {0}, n);
    var h := LinkBack(pair, half, 0, n + 1, n);
    var x :| x in half[0] && Nbrs(h, x) == [];
    StarLists(n, x);
    StrippedAt(h, n, x);
  }

  /** Node n + 1 is nearer to row 0 than to rows 1 to n. */
  ghost predicate HubNearest(pair: (int, int) -> real, n: nat) {
    var node := n + 1;
    forall x :: 1 <= x <= n ==> pair(0, node) < pair(x, node)
  }

  /** What inserting row n + 1 does to a star of n leaves, if row 0 is its nearest. */
  lemma StarInsert(n: nat, m: nat, pair: (int, int) -> real, before: seq<Layer>, after: seq<Layer>, entry: int,
                   entry': Option<int>, start: int, found: seq<seq<Scored>>)
    requires before == [Star(n)] && n <= 2 * m && 1 <= m && HubNearest(pair, n)
    requires Inserts(before, after, pair, DistTo(pair, n + 1), n + 1, 0, Some(entry), entry', start, found, 1, m)
    ensures entry' == Some(entry) && |after| == 1
    ensures n < 2 * m ==> after[0] == Star(n + 1)
    ensures n == 2 * m ==> Stripped(after[0], n)
  {
    var dist := DistTo(pair, n + 1);
    assert LayerStep(before, after, pair, dist, n + 1, 0, false, start, found, 1, m, 0);
    StarLists(n, start);
    StarFound(n, m, pair, before[0], after[0], start, found);
    if n < 2 * m {
      StarGrows(n, pair, 2 * m);
    } else {
      FullHubStrips(n, pair);
    }
  }

  lemma StarFound(n: nat, m: nat, pair: (int, int) -> real, before: Layer, after: Layer, start: int,
                  found: seq<seq<Scored>>)
    requires before == Star(n) && 0 <= start <= n <= 2 * m && 1 <= m && HubNearest(pair, n) && |found| == 1
    requires Grown(before, after, pair, DistTo(pair, n + 1), n + 1, [start], 1, 2 * m, found[0])
    ensures Fits(Star(n), n + 1, [0], 2 * m) && after == Wired(pair, Star(n), n + 1, [0], 2 * m)
  {
    var dist := DistTo(pair, n + 1);
    var seen, expanded :| Walked(Star(n), [start], seen, expanded) && Answers(found[0], dist, 1, None, seen)
                          && Exhausted(found[0], dist, 1, seen, expanded);
    HubFound(n, pair, dist, start, found[0], seen, expanded, 2 * m);
    OneSelected(pair, found[0][0], 2 * m);
    StarFits(n, 2 * m);
  }

  lemma HubInsert(pair: (int, int) -> real, m: nat, after: seq<Layer>, entry': Option<int>, start: int,
                  found: seq<seq<Scored>>)
    requires Inserts([map[]], after, pair, DistTo(pair, 0), 0, 0, None, entry', start, found, 1, m)
    ensures after == [Star(0)] && entry' == Some(0)
  {
    assert LayerStep([map[]], after, pair, DistTo(pair, 0), 0, 0, true, start, found, 1, m, 0);
    UF.UptoNext(0);
    assert Leaves(0) == [] && Star(0) == map[0 := []];
  }

  // ------------------------------------------------------------- every run of insertions

  /** Row 0 is the nearest row to every other. */
  ghost predicate IsHub(pair: (int, int) -> real, rows: nat) {
    forall x, y :: 1 <= x < y < rows ==> pair(0, y) < pair(x, y)
  }

  lemma {:induction false} RunMakesStars(pair: (int, int) -> real, rows: nat, m: nat, run: seq<Moment>, n: nat)
    requires 1 <= m && InsertionRun(pair, Level0(rows), 1, m, run) && IsHub(pair, rows) && n <= 2 * m && n + 1 < |run|
    ensures run[n + 1].graph == [Star(n)] && run[n + 1].entry.Some?
  {
    assert InsertedAt(pair, 0, 1, m, n, run[n], run[n + 1]);
    var start, found :| Inserts(run[n].graph, run[n + 1].graph, pair, DistTo(pair, n), n, 0, run[n].entry,
                                run[n + 1].entry, start, found, 1, m);
    if n == 0 {
      HubInsert(pair, m, run[1].graph, run[1].entry, start, found);
    } else {
      RunMakesStars(pair, rows, m, run, n - 1);
      StarInsert(n - 1, m, pair, run[n].graph, run[n + 1].graph, run[n].entry.value, run[n + 1].entry, start, found);
    }
  }

  /**
   However the searches go, with one candidate looked for and every row of level 0, the insertion of
   row 2m + 1 leaves a node without an edge.
   */
  lemma RunOrphans(pair: (int, int) -> real, m: nat, run: seq<Moment>)
    requires 1 <= m && InsertionRun(pair, Level0(2 * m + 2), 1, m, run) && |run| == 2 * m + 3
    requires IsHub(pair, 2 * m + 2)
    ensures |run[2 * m + 2].graph| == 1 && Stripped(run[2 * m + 2].graph[0], 2 * m)
  {
    var n := 2 * m;
    RunMakesStars(pair, 2 * m + 2, m, run, n);
    assert InsertedAt(pair, 0, 1, m, n + 1, run[n + 1], run[n + 2]);
    var start, found :| Inserts(run[n + 1].graph, run[n + 2].graph, pair, DistTo(pair, n + 1), n + 1, 0,
                                run[n + 1].entry, run[n + 2].entry, start, found, 1, m);
    StarInsert(n, m, pair, run[n + 1].graph, run[n + 2].graph, run[n + 1].entry.value, run[n + 2].entry, start, found);
  }

  function Level0(rows: nat): (levels: seq<nat>)
    ensures |levels| == rows && forall i :: 0 <= i < rows ==> levels[i] == 0
  {
    seq(rows, i => 0)
  }

  method Begin(m: nat, efSearch: nat, maxVisits: nat) returns (index: HnswIndex)
    requires 2 <= m
    ensures fresh(index) && index.m == m && index.efConstruction == 1 && index.pair == FromHub
    ensures |index.ids| == 2 * m + 2 && index.levels == Level0(2 * m + 2)
    ensures index.Running(0, [Moment([map[]], None)])
  {
    index := new HnswIndex(m, 1, efSearch, maxVisits);
    index.ids, index.levels, index.pair := seq(2 * m + 2, i => i), Level0(2 * m + 2), FromHub;
    index.graph, index.inserted := [map[]], {};
    assert LayerOk(index.graph[0], index.levels, {}, 0, m);
  }

  /** And there is such a run, over rows of unit length: the insertion loop of the index makes it. */
  method InsertUntilOrphaned(m: nat, efSearch: nat, maxVisits: nat) returns (index: HnswIndex)
    requires 2 <= m
    ensures fresh(index) && index.m == m && |index.ids| == 2 * m + 2
    ensures index.inserted == UF.Upto(2 * m + 2) && DistancesOfRows(index.pair, 2 * m + 2)
    ensures |index.graph| == 1 && Stripped(index.graph[0], 2 * m)
  {
    index := Begin(m, efSearch, maxVisits);
    ghost var run := index.InsertAll();
    RowsOrphan(m, run, run[2 * m + 2]);
  }

  lemma RowsOrphan(m: nat, run: seq<Moment>, last: Moment)
    requires 1 <= m && InsertionRun(FromHub, Level0(2 * m + 2), 1, m, run) && |run| == 2 * m + 3
    requires run[2 * m + 2] == last
    ensures |last.graph| == 1 && Stripped(last.graph[0], 2 * m) && DistancesOfRows(FromHub, 2 * m + 2)
  {
    RunOrphans(FromHub, m, run);
    HubDistances(2 * m + 2);
  }

  /** The repair makes good for it: on a connected layer of two nodes or more nobody is without an edge. */
  lemma ConnectedLeavesNone(g: Layer, n: nat, x: int)
    requires Connected(g, UF.Upto(n)) && n >= 2 && 0 <= x < n
    ensures Nbrs(g, x) != []
  {
    var other := if x == 0 then 1 else 0;
    assert Linked(g, x, other);
    var p :| PathFrom(g, x, other, p);
    assert p[0 + 1] in Nbrs(g, p[0]);
  }
}
