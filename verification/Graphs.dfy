/** One layer of the navigable graph: a map from nodes to neighbour lists. */
module Graphs {
  import opened Seqs

  type Layer = map<int, seq<int>>

  /** `adjacency.get(node, ())` */
  function Nbrs(g: Layer, x: int): seq<int> {
    if x in g then g[x] else []
  }

  /** No repeated neighbour, no self-loop, and every endpoint lives on the layer. */
  ghost predicate Simple(g: Layer) {
    forall x :: x in g ==> NoDup(g[x]) && x !in g[x] && forall y :: y in g[x] ==> y in g
  }

  ghost predicate Symmetric(g: Layer) {
    forall x, y :: y in Nbrs(g, x) ==> x in Nbrs(g, y)
  }

  /** Every neighbour list is within its budget. */
  ghost predicate Within(g: Layer, budget: nat) {
    forall x :: x in g ==> |g[x]| <= budget
  }

  ghost predicate Closed(g: Layer, s: set<int>) {
    forall x :: x in s ==> forall y :: y in Nbrs(g, x) ==> y in s
  }

  ghost predicate IsPath(g: Layer, p: seq<int>) {
    p != [] && forall i :: 0 <= i < |p| - 1 ==> p[i + 1] in Nbrs(g, p[i])
  }

  ghost predicate PathFrom(g: Layer, a: int, b: int, p: seq<int>) {
    IsPath(g, p) && p[0] == a && p[|p| - 1] == b
  }

  ghost predicate Linked(g: Layer, a: int, b: int) {
    exists p :: PathFrom(g, a, b, p)
  }

  ghost predicate Connected(g: Layer, s: set<int>) {
    forall a, b :: a in s && b in s ==> Linked(g, a, b)
  }

  /** A path cannot leave a closed set. */
  lemma {:induction false} PathStays(g: Layer, s: set<int>, p: seq<int>)
    requires Closed(g, s) && IsPath(g, p) && p[0] in s
    ensures p[|p| - 1] in s
    decreases |p|
  {
    if |p| > 1 {
      var a, b := p[0], p[0 + 1];
      assert b in Nbrs(g, a) && b in s;
      forall i | 0 <= i < |p[1..]| - 1 ensures p[1..][i + 1] in Nbrs(g, p[1..][i]) {
        assert p[i + 1 + 1] in Nbrs(g, p[i + 1]);
      }
      PathStays(g, s, p[1..]);
    }
  }

  lemma LinkedStays(g: Layer, s: set<int>, a: int, b: int)
    requires Closed(g, s) && a in s && Linked(g, a, b)
    ensures b in s
  {
    var p :| PathFrom(g, a, b, p);
    PathStays(g, s, p);
  }

  lemma LinkedSelf(g: Layer, a: int)
    ensures Linked(g, a, a)
  {
    assert PathFrom(g, a, a, [a]);
  }

  lemma LinkedEdge(g: Layer, a: int, b: int)
    requires b in Nbrs(g, a)
    ensures Linked(g, a, b)
  {
    assert PathFrom(g, a, b, [a, b]);
  }

  lemma LinkedTrans(g: Layer, a: int, b: int, c: int)
    requires Linked(g, a, b) && Linked(g, b, c)
    ensures Linked(g, a, c)
  {
    var p :| PathFrom(g, a, b, p);
    var q :| PathFrom(g, b, c, q);
    var r := p + q[1..];
    forall i | 0 <= i < |r| - 1 ensures r[i + 1] in Nbrs(g, r[i]) {
      if i < |p| - 1 {
        assert p[i + 1] in Nbrs(g, p[i]);
      } else {
        var j := i - (|p| - 1);
        assert r[i] == q[j] && r[i + 1] == q[j + 1];
        assert q[j + 1] in Nbrs(g, q[j]);
      }
    }
    assert PathFrom(g, a, c, r);
  }

  lemma LinkedSym(g: Layer, a: int, b: int)
    requires Symmetric(g) && Linked(g, a, b)
    ensures Linked(g, b, a)
  {
    var p :| PathFrom(g, a, b, p);
    var r := seq(|p|, i requires 0 <= i < |p| => p[|p| - 1 - i]);
    forall i | 0 <= i < |r| - 1 ensures r[i + 1] in Nbrs(g, r[i]) {
      var j := |p| - 2 - i;
      assert p[j + 1] in Nbrs(g, p[j]);
    }
    assert PathFrom(g, b, a, r);
  }

  /** Adding edges keeps every path. */
  lemma LinkedMono(g: Layer, h: Layer, a: int, b: int)
    requires forall x, y :: y in Nbrs(g, x) ==> y in Nbrs(h, x)
    requires Linked(g, a, b)
    ensures Linked(h, a, b)
  {
    var p :| PathFrom(g, a, b, p);
    forall i | 0 <= i < |p| - 1 ensures p[i + 1] in Nbrs(h, p[i]) {
      assert p[i + 1] in Nbrs(g, p[i]);
    }
    assert PathFrom(h, a, b, p);
  }
}
