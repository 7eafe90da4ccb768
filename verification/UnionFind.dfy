/**
 The union-find of `HNSWIndex._repair_connectivity`: a parent array with path halving and no
 ranks, and the grouping of nodes by the class it computes.
 */
module UnionFind {
  import opened Seqs
  import opened Graphs

  /** The nodes 0 .. n - 1. */
  function Upto(n: nat): (s: set<int>)
    ensures forall x :: x in s <==> 0 <= x < n
    ensures |s| == n
  {
    if n == 0 then {} else Upto(n - 1) + {n - 1}
  }

  lemma UptoNext(n: nat)
    ensures Upto(n + 1) == Upto(n) + {n} && n !in Upto(n)
  {
  }

  /**
   `root[x]` is where the parent chain of `x` ends. `rank` strictly grows along a chain and
   stays within `top`; the program keeps no such numbers, they bound its `find` loop.
   */
  ghost predicate Forest(parent: seq<int>, root: seq<int>, rank: seq<int>, top: int) {
    && |root| == |parent| && |rank| == |parent|
    && forall x :: 0 <= x < |parent| ==> Rooted(parent, root, rank, top, x)
  }

  ghost predicate Rooted(parent: seq<int>, root: seq<int>, rank: seq<int>, top: int, x: int)
    requires 0 <= x < |parent| && |root| == |parent| && |rank| == |parent|
  {
    && 0 <= parent[x] < |parent| && 0 <= root[x] < |parent| && rank[x] <= top
    && root[parent[x]] == root[x] && parent[root[x]] == root[x]
    && (parent[x] == x ==> root[x] == x)
    && (parent[x] != x ==> rank[x] < rank[parent[x]])
  }

  /** `find`, with path halving: it shortens chains and never changes where they end. */
  method Find(parent: array<int>, x: int, ghost root: seq<int>, ghost rank: seq<int>, ghost top: int) returns (r: int)
    requires Forest(parent[..], root, rank, top) && 0 <= x < parent.Length
    modifies parent
    ensures Forest(parent[..], root, rank, top) && r == root[x]
  {
    r := x;
    while parent[r] != r
      invariant 0 <= r < parent.Length && root[r] == root[x]
      invariant Forest(parent[..], root, rank, top)
      decreases top - rank[r]
    {
      ghost var before := parent[..];
      assert Rooted(before, root, rank, top, r);
      assert Rooted(before, root, rank, top, before[r]);
      assert Rooted(before, root, rank, top, before[before[r]]);
      parent[r] := parent[parent[r]];
      assert parent[..] == before[r := before[before[r]]];
      forall y | 0 <= y < parent.Length ensures Rooted(parent[..], root, rank, top, y) {
        assert Rooted(before, root, rank, top, y);
        assert Rooted(before, root, rank, top, root[y]);
      }
      r := parent[r];
    }
    assert Rooted(parent[..], root, rank, top, r);
  }

  /** The classes after those of `a` and `b` became one. */
  function Merged(root: seq<int>, ra: int, rb: int): (r: seq<int>)
    ensures |r| == |root|
  {
    seq(|root|, i requires 0 <= i < |root| => if root[i] == ra then rb else root[i])
  }

  method Union(parent: array<int>, a: int, b: int, ghost root: seq<int>, ghost rank: seq<int>, ghost top: int)
    returns (ghost rank': seq<int>, ghost top': int)
    requires Forest(parent[..], root, rank, top) && 0 <= a < parent.Length && 0 <= b < parent.Length
    modifies parent
    ensures Forest(parent[..], Merged(root, root[a], root[b]), rank', top')
  {
    var ra := Find(parent, a, root, rank, top);
    var rb := Find(parent, b, root, rank, top);
    rank', top' := rank, top;
    ghost var root' := Merged(root, ra, rb);
    assert Rooted(parent[..], root, rank, top, a) && Rooted(parent[..], root, rank, top, b);
    if ra != rb {
      ghost var before := parent[..];
      assert Rooted(before, root, rank, top, ra) && Rooted(before, root, rank, top, rb);
      parent[ra] := rb;
      assert parent[..] == before[ra := rb];
      var high := if rank[ra] < rank[rb] then rank[rb] else rank[ra] + 1;
      rank', top' := rank[rb := high], if top < high then high else top;
      forall y | 0 <= y < parent.Length ensures Rooted(parent[..], root', rank', top', y) {
        assert Rooted(before, root, rank, top, y);
        assert Rooted(before, root, rank, top, before[y]);
        assert Rooted(before, root, rank, top, root[y]);
      }
    } else {
      assert root' == root;
    }
  }

  /** Nodes in one class are linked in the layer. */
  ghost predicate ClassesLinked(g: Layer, root: seq<int>) {
    forall x, y :: 0 <= x < |root| && 0 <= y < |root| && root[x] == root[y] ==> Linked(g, x, y)
  }

  lemma MergeLinked(g: Layer, root: seq<int>, a: int, b: int)
    requires Symmetric(g) && ClassesLinked(g, root) && 0 <= a < |root| && 0 <= b < |root| && b in Nbrs(g, a)
    ensures ClassesLinked(g, Merged(root, root[a], root[b]))
  {
    LinkedEdge(g, a, b);
    LinkedSym(g, a, b);
    var root' := Merged(root, root[a], root[b]);
    forall x, y | 0 <= x < |root| && 0 <= y < |root| && root'[x] == root'[y]
      ensures Linked(g, x, y)
    {
      if root[x] != root[y] {
        if root[x] == root[a] {
          LinkedTrans(g, x, a, b);
          LinkedTrans(g, x, b, y);
        } else {
          LinkedTrans(g, x, b, a);
          LinkedTrans(g, x, a, y);
        }
      }
    }
  }

  /** Two nodes carry the same label exactly when a path joins them. */
  ghost predicate Labels(g: Layer, root: seq<int>) {
    forall x, y :: 0 <= x < |root| && 0 <= y < |root| ==> (root[x] == root[y] <==> Linked(g, x, y))
  }

  /** The classes respect every edge that leaves the nodes below `upto`. */
  ghost predicate JoinsEdges(g: Layer, root: seq<int>, upto: int) {
    forall x, y :: 0 <= x < upto && 0 <= y < |root| && y in Nbrs(g, x) && x < |root| ==> root[x] == root[y]
  }

  lemma SameClassIfLinked(g: Layer, root: seq<int>, x: int, y: int)
    requires g.Keys == Upto(|root|) && Simple(g) && JoinsEdges(g, root, |root|)
    requires 0 <= x < |root| && 0 <= y < |root| && Linked(g, x, y)
    ensures root[x] == root[y]
  {
    var s := set z | z in Upto(|root|) && root[z] == root[x];
    forall u, v | u in s && v in Nbrs(g, u) ensures v in s {
      assert v in g.Keys;
    }
    LinkedStays(g, s, x, y);
  }

  lemma LinkedSameClass(g: Layer, root: seq<int>)
    requires g.Keys == Upto(|root|) && Simple(g) && ClassesLinked(g, root) && JoinsEdges(g, root, |root|)
    ensures Labels(g, root)
  {
    forall x, y | 0 <= x < |root| && 0 <= y < |root| && Linked(g, x, y) ensures root[x] == root[y] {
      SameClassIfLinked(g, root, x, y);
    }
  }

  /** The union loop over the edges of one node. */
  method UnionNode(g: Layer, parent: array<int>, node: int, ghost root: seq<int>, ghost rank: seq<int>, ghost top: int)
    returns (ghost root': seq<int>, ghost rank': seq<int>, ghost top': int)
    requires Symmetric(g) && 0 <= node < parent.Length && node in g
    requires forall y :: y in g[node] ==> 0 <= y < parent.Length
    requires Forest(parent[..], root, rank, top) && ClassesLinked(g, root) && JoinsEdges(g, root, node)
    modifies parent
    ensures Forest(parent[..], root', rank', top') && ClassesLinked(g, root') && JoinsEdges(g, root', node + 1)
  {
    root', rank', top' := root, rank, top;
    var neighbours := g[node];
    for k := 0 to |neighbours|
      invariant Forest(parent[..], root', rank', top') && ClassesLinked(g, root') && JoinsEdges(g, root', node)
      invariant forall y :: 0 <= y < |root'| && y in neighbours[..k] ==> root'[node] == root'[y]
    {
      var nb := neighbours[k];
      assert nb in g[node];
      MergeLinked(g, root', node, nb);
      rank', top' := Union(parent, node, nb, root', rank', top');
      root' := Merged(root', root'[node], root'[nb]);
      assert neighbours[..k + 1] == neighbours[..k] + [nb];
    }
    assert neighbours[..|neighbours|] == neighbours;
  }

  /** The union loop over all edges of the layer. */
  method UnionEdges(g: Layer, parent: array<int>) returns (ghost root: seq<int>, ghost rank: seq<int>, ghost top: int)
    requires g.Keys == Upto(parent.Length) && Simple(g) && Symmetric(g)
    requires forall x :: 0 <= x < parent.Length ==> parent[x] == x
    modifies parent
    ensures Forest(parent[..], root, rank, top) && Labels(g, root)
  {
    root := parent[..];
    rank := seq(parent.Length, i => 0);
    top := 0;
    forall x | 0 <= x < |root| ensures Linked(g, x, x) {
      LinkedSelf(g, x);
    }
    for node := 0 to parent.Length
      invariant Forest(parent[..], root, rank, top) && ClassesLinked(g, root) && JoinsEdges(g, root, node)
    {
      assert node in g.Keys;
      forall y | y in g[node] ensures 0 <= y < parent.Length {
        assert y in g.Keys;
      }
      root, rank, top := UnionNode(g, parent, node, root, rank, top);
    }
    LinkedSameClass(g, root);
  }

  // ------------------------------------------------------------- grouping

  /** `members_of`: `roots` in the order they were first met, each with its class in ascending order. */
  ghost predicate Grouped(roots: seq<int>, members: map<int, seq<int>>, root: seq<int>, n: nat)
    requires n <= |root|
  {
    && NoDup(roots)
    && (forall r :: r in roots <==> r in members)
    && (forall x :: 0 <= x < n ==> root[x] in members && x in members[root[x]])
    && (forall r :: r in members ==> Group(members[r], root, n, r))
  }

  ghost predicate Group(ms: seq<int>, root: seq<int>, n: nat, r: int)
    requires n <= |root|
  {
    && ms != []
    && (forall i :: 0 <= i < |ms| ==> 0 <= ms[i] < n && root[ms[i]] == r)
    && (forall i, j :: 0 <= i < j < |ms| ==> ms[i] < ms[j])
  }

  method GroupByRoot(parent: array<int>, ghost root: seq<int>, ghost rank: seq<int>, ghost top: int)
    returns (roots: seq<int>, members: map<int, seq<int>>)
    requires Forest(parent[..], root, rank, top)
    modifies parent
    ensures Grouped(roots, members, root, |root|)
  {
    roots, members := [], map[];
    for node := 0 to parent.Length
      invariant Forest(parent[..], root, rank, top)
      invariant Grouped(roots, members, root, node)
    {
      var r := Find(parent, node, root, rank, top);
      GroupOne(roots, members, root, node);
      if r !in members {
        roots := roots + [r];
        members := members[r := []];
      }
      members := members[r := members[r] + [node]];
    }
  }

  lemma GroupOne(roots: seq<int>, members: map<int, seq<int>>, root: seq<int>, node: nat)
    requires node < |root| && Grouped(roots, members, root, node)
    ensures var r := root[node];
            if r in members then Grouped(roots, members[r := members[r] + [node]], root, node + 1)
            else Grouped(roots + [r], members[r := [node]], root, node + 1)
  {
    var r := root[node];
    if r in members {
      var ms := members[r] + [node];
      assert Group(members[r], root, node, r);
      assert ms[|members[r]|] == node;
      assert Group(ms, root, node + 1, r);
      forall q | q in members && q != r ensures Group(members[q], root, node + 1, q) {
        assert Group(members[q], root, node, q);
      }
    } else {
      assert Group([node], root, node + 1, r);
      forall q | q in members ensures Group(members[q], root, node + 1, q) {
        assert Group(members[q], root, node, q);
      }
    }
  }
}
