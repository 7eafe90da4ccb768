/** The compressed rows an index is saved as (`HNSWIndex.save` and `load`), one pair of arrays a layer. */
module Csr {
  import opened Graphs
  import opened UnionFind

  datatype Rows = Rows(indptr: seq<int>, indices: seq<int>)

  /** Offsets that cut `indices` into consecutive rows. */
  predicate WellCut(rows: Rows) {
    && rows.indptr != [] && rows.indptr[0] == 0 && rows.indptr[|rows.indptr| - 1] == |rows.indices|
    && forall i :: 0 <= i < |rows.indptr| - 1 ==> BoundsAt(rows, i)
  }

  predicate BoundsAt(rows: Rows, i: int)
    requires 0 <= i < |rows.indptr| - 1
  {
    0 <= rows.indptr[i] <= rows.indptr[i + 1] <= |rows.indices|
  }

  function Row(rows: Rows, i: int): seq<int>
    requires WellCut(rows) && 0 <= i < |rows.indptr| - 1
  {
    assert BoundsAt(rows, i);
    rows.indices[rows.indptr[i]..rows.indptr[i + 1]]
  }

  /** The rows hold the neighbour lists of the nodes 0 .. n - 1, in order. */
  ghost predicate Stores(rows: Rows, g: Layer, n: nat) {
    WellCut(rows) && |rows.indptr| == n + 1 && forall i :: 0 <= i < n ==> Row(rows, i) == Nbrs(g, i)
  }

  method SaveLayer(g: Layer, n: nat) returns (rows: Rows)
    ensures Stores(rows, g, n)
  {
    var indptr, flat := [0], [];
    for node := 0 to n
      invariant Stores(Rows(indptr, flat), g, node)
    {
      ghost var before := Rows(indptr, flat);
      flat := flat + Nbrs(g, node);
      indptr := indptr + [|flat|];
      AppendRow(before, g, node);
    }
    rows := Rows(indptr, flat);
  }

  lemma AppendRow(rows: Rows, g: Layer, node: nat)
    requires Stores(rows, g, node)
    ensures Stores(Rows(rows.indptr + [|rows.indices| + |Nbrs(g, node)|], rows.indices + Nbrs(g, node)), g, node + 1)
  {
    var next := Rows(rows.indptr + [|rows.indices| + |Nbrs(g, node)|], rows.indices + Nbrs(g, node));
    forall i | 0 <= i < |next.indptr| - 1 ensures BoundsAt(next, i) {
      if i < node {
        assert BoundsAt(rows, i);
      }
    }
    forall i | 0 <= i < node + 1 ensures Row(next, i) == Nbrs(g, i) {
      if i < node {
        assert BoundsAt(rows, i);
        assert Row(rows, i) == Row(next, i);
      }
    }
  }

  method LoadLayer(rows: Rows) returns (g: Layer)
    requires WellCut(rows)
    ensures LoadedAs(rows, g)
  {
    g := map[];
    for node := 0 to |rows.indptr| - 1
      invariant Loaded(rows, node, g)
    {
      assert BoundsAt(rows, node);
      var start, stop := rows.indptr[node], rows.indptr[node + 1];
      if stop > start {
        g := g[node := rows.indices[start..stop]];
      }
    }
  }

  /** The first n rows as a layer: empty rows have no entry. */
  ghost predicate Loaded(rows: Rows, n: nat, g: Layer)
    requires WellCut(rows) && n < |rows.indptr|
  {
    && (forall i :: 0 <= i < n ==> Nbrs(g, i) == Row(rows, i))
    && (forall i :: i in g ==> 0 <= i < n && Row(rows, i) != [])
  }

  ghost predicate LoadedAs(rows: Rows, g: Layer) {
    WellCut(rows) && Loaded(rows, |rows.indptr| - 1, g)
  }

  /** Loading what was saved gives every node its neighbour list back; empty lists read as empty. */
  lemma LoadOfSave(g: Layer, n: nat, rows: Rows, loaded: Layer)
    requires g.Keys <= Upto(n) && Stores(rows, g, n) && LoadedAs(rows, loaded)
    ensures forall x :: Nbrs(loaded, x) == Nbrs(g, x)
    ensures forall x :: x in loaded <==> Nbrs(g, x) != []
  {
    forall x
      ensures Nbrs(loaded, x) == Nbrs(g, x) && (x in loaded <==> Nbrs(g, x) != [])
    {
      assert x in g ==> x in Upto(n);
      if 0 <= x < n {
        assert Row(rows, x) == Nbrs(g, x) == Nbrs(loaded, x);
      }
    }
  }

  /** Whatever is said of a layer through its neighbour lists survives saving and loading. */
  lemma SameLists(g: Layer, h: Layer, s: set<int>)
    requires forall x :: Nbrs(h, x) == Nbrs(g, x)
    ensures Closed(g, s) ==> Closed(h, s)
    ensures Symmetric(g) ==> Symmetric(h)
    ensures Connected(g, s) ==> Connected(h, s)
  {
    if Connected(g, s) {
      forall a, b | a in s && b in s ensures Linked(h, a, b) {
        LinkedMono(g, h, a, b);
      }
    }
  }
}
