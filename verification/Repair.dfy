/**
 The bridging pass of `HNSWIndex._repair_connectivity`: every layer-0 component is joined to
 the largest one at the closest pair of nodes.
 */
module Repair {
  import opened Seqs
  import opened Graphs
  import opened UnionFind

  const CHUNK := 512

  /** No peer is nearer to `m` than `d`. */
  ghost predicate AtLeast(pair: (int, int) -> real, d: real, m: int, ls: seq<int>) {
    forall q :: 0 <= q < |ls| ==> d <= pair(m, ls[q])
  }

  ghost predicate Beyond(pair: (int, int) -> real, d: real, m: int, ls: seq<int>) {
    forall q :: 0 <= q < |ls| ==> d < pair(m, ls[q])
  }

  /** (i, j) is the closest pair of a member and a peer; of equals the first, members first. */
  ghost predicate Closest(pair: (int, int) -> real, ms: seq<int>, ls: seq<int>, i: int, j: int) {
    && 0 <= i < |ms| && 0 <= j < |ls|
    && (forall m :: m in ms ==> AtLeast(pair, pair(ms[i], ls[j]), m, ls))
    && (forall m :: m in ms[..i] ==> Beyond(pair, pair(ms[i], ls[j]), m, ls))
    && Beyond(pair, pair(ms[i], ls[j]), ms[i], ls[..j])
  }

  /** One row of `np.argmin(dists, axis=1)`: the first nearest peer of one member. */
  method NearestPeer(pair: (int, int) -> real, m: int, ls: seq<int>) returns (j: int)
    requires ls != []
    ensures Closest(pair, [m], ls, 0, j)
  {
    j := 0;
    for q := 1 to |ls|
      invariant 0 <= j < q
      invariant forall t :: 0 <= t < q ==> pair(m, ls[j]) <= pair(m, ls[t])
      invariant forall t :: 0 <= t < j ==> pair(m, ls[j]) < pair(m, ls[t])
    {
      if pair(m, ls[q]) < pair(m, ls[j]) {
        j := q;
      }
    }
  }

  /** The closest pair within one chunk of members: the first least row minimum. */
  method ClosestInChunk(pair: (int, int) -> real, chunk: seq<int>, ls: seq<int>) returns (i: int, j: int)
    requires chunk != [] && ls != []
    ensures Closest(pair, chunk, ls, i, j)
  {
    i := 0;
    j := NearestPeer(pair, chunk[0], ls);
    assert [chunk[0]] == chunk[..1];
    for p := 1 to |chunk|
      invariant 0 <= i < p && Closest(pair, chunk[..p], ls, i, j)
    {
      var q := NearestPeer(pair, chunk[p], ls);
      var was, next := chunk[..p], chunk[..p + 1];
      assert next == was + [chunk[p]];
      CloserOfTwo(pair, was, [chunk[p]], ls, i, j, 0, q);
      if pair(chunk[p], ls[q]) < pair(chunk[i], ls[j]) {
        i, j := p, q;
      }
    }
    assert chunk[..|chunk|] == chunk;
  }

  /** Of the closest pairs of two runs of members, the strictly closer or else the earlier wins. */
  lemma CloserOfTwo(pair: (int, int) -> real, a: seq<int>, b: seq<int>, ls: seq<int>, i: int, j: int, p: int, q: int)
    requires Closest(pair, a, ls, i, j) && Closest(pair, b, ls, p, q)
    ensures if pair(b[p], ls[q]) < pair(a[i], ls[j]) then Closest(pair, a + b, ls, |a| + p, q)
            else Closest(pair, a + b, ls, i, j)
  {
    assert (a + b)[..i] == a[..i];
    assert (a + b)[..|a| + p] == a + b[..p];
  }

  /** The chunked scan: `best` is replaced only by a strictly closer pair. */
  method ClosestPair(pair: (int, int) -> real, ms: seq<int>, ls: seq<int>) returns (member: int, peer: int)
    requires ms != [] && ls != []
    ensures exists i, j :: Closest(pair, ms, ls, i, j) && member == ms[i] && peer == ls[j]
  {
    var best: Option<(int, int)> := None;
    var start := 0;
    while start < |ms|
      invariant 0 <= start <= |ms|
      invariant start == 0 ==> best == None
      invariant start > 0 ==> best.Some? && Closest(pair, ms[..start], ls, best.value.0, best.value.1)
      decreases |ms| - start
    {
      var stop := if start + CHUNK < |ms| then start + CHUNK else |ms|;
      var chunk := ms[start..stop];
      var i, j := ClosestInChunk(pair, chunk, ls);
      assert ms[..stop] == ms[..start] + chunk;
      if best.None? {
        best := Some((start + i, j));
      } else {
        CloserOfTwo(pair, ms[..start], chunk, ls, best.value.0, best.value.1, i, j);
        if pair(chunk[i], ls[j]) < pair(ms[best.value.0], ls[best.value.1]) {
          best := Some((start + i, j));
        }
      }
      start := stop;
    }
    assert ms[..|ms|] == ms;
    member, peer := ms[best.value.0], ls[best.value.1];
  }

  // ------------------------------------------------------------- bridges

  datatype Bridge = Bridge(member: int, peer: int)

  /** `adj.setdefault(best_member, []).append(best_peer)`, and the reverse. */
  function AddBridge(g: Layer, b: Bridge): Layer {
    var g1 := g[b.member := Nbrs(g, b.member) + [b.peer]];
    g1[b.peer := Nbrs(g1, b.peer) + [b.member]]
  }

  function AddBridges(g: Layer, bs: seq<Bridge>): Layer {
    if bs == [] then g else AddBridge(AddBridges(g, bs[..|bs| - 1]), bs[|bs| - 1])
  }

  lemma AddBridgeKeeps(g: Layer, b: Bridge)
    requires Simple(g) && Symmetric(g) && b.member in g && b.peer in g && b.member != b.peer
    requires b.peer !in g[b.member]
    ensures Simple(AddBridge(g, b)) && Symmetric(AddBridge(g, b)) && AddBridge(g, b).Keys == g.Keys
    ensures forall x, y :: y in Nbrs(AddBridge(g, b), x) <==>
              y in Nbrs(g, x) || (x == b.member && y == b.peer) || (x == b.peer && y == b.member)
  {
    var h := AddBridge(g, b);
    assert b.member in Nbrs(g, b.peer) ==> b.peer in Nbrs(g, b.member);
    forall x, y ensures y in Nbrs(h, x) <==>
        y in Nbrs(g, x) || (x == b.member && y == b.peer) || (x == b.peer && y == b.member)
    {
      assert x == b.member ==> h[x] == g[x] + [b.peer];
      assert x == b.peer ==> h[x] == g[x] + [b.member];
    }
    forall x | x in h ensures Elems(h[x]) <= h.Keys {
      forall y | y in h[x] ensures y in h.Keys {
        assert y in g[x] ==> y in Elems(g[x]);
      }
    }
  }

  /** Each bridge joins another class to the largest one, at a closest pair; no class is joined twice. */
  ghost predicate GoodBridges(pair: (int, int) -> real, root: seq<int>, hub: int, bs: seq<Bridge>) {
    && (forall i :: 0 <= i < |bs| ==> GoodBridge(pair, root, hub, bs[i]))
    && (forall i, j :: 0 <= i < j < |bs| ==> Label(root, bs[i].member) != Label(root, bs[j].member))
  }

  ghost function Label(root: seq<int>, x: int): Option<int> {
    if 0 <= x < |root| then Some(root[x]) else None
  }

  lemma GoodBridgesGrow(pair: (int, int) -> real, root: seq<int>, hub: int, bs: seq<Bridge>, b: Bridge, done: set<int>)
    requires GoodBridges(pair, root, hub, bs) && GoodBridge(pair, root, hub, b)
    requires JoinsOnly(root, bs, done) && root[b.member] !in done
    ensures GoodBridges(pair, root, hub, bs + [b])
    ensures JoinsOnly(root, bs + [b], done + {root[b.member]})
  {
  }

  /** The bridges so far join classes in `done`. */
  ghost predicate JoinsOnly(root: seq<int>, bs: seq<Bridge>, done: set<int>) {
    forall i :: 0 <= i < |bs| ==> Label(root, bs[i].member).Some? && Label(root, bs[i].member).value in done
  }

  ghost predicate GoodBridge(pair: (int, int) -> real, root: seq<int>, hub: int, b: Bridge) {
    && 0 <= b.member < |root| && 0 <= b.peer < |root|
    && root[b.peer] == hub && root[b.member] != hub
    && (forall x, y :: 0 <= x < |root| && 0 <= y < |root| && root[x] == root[b.member] && root[y] == hub ==>
          pair(b.member, b.peer) <= pair(x, y))
  }

  ghost function ClassOf(root: seq<int>, r: int): set<int> {
    set x | x in Upto(|root|) && root[x] == r
  }

  /** The layer while the classes in `done` have been joined to `hub`. */
  ghost predicate Bridged(g: Layer, h: Layer, root: seq<int>, hub: int, done: set<int>) {
    && Simple(h) && Symmetric(h) && h.Keys == g.Keys == Upto(|root|)
    && (forall x, y :: y in Nbrs(g, x) ==> y in Nbrs(h, x))
    && (forall x, y :: 0 <= x < |root| && 0 <= y < |root| && y in Nbrs(h, x) ==>
          root[x] == root[y] || (root[x] == hub && root[y] in done) || (root[y] == hub && root[x] in done))
    && (forall x, y :: 0 <= x < |root| && 0 <= y < |root| && root[x] in done && root[y] == hub ==> Linked(h, x, y))
  }

  lemma BridgeOne(g: Layer, h: Layer, root: seq<int>, hub: int, done: set<int>, b: Bridge)
    requires Labels(g, root) && Bridged(g, h, root, hub, done)
    requires 0 <= b.member < |root| && 0 <= b.peer < |root| && root[b.peer] == hub
    requires root[b.member] != hub && root[b.member] !in done
    ensures Bridged(g, AddBridge(h, b), root, hub, done + {root[b.member]})
  {
    assert b.peer !in Nbrs(h, b.member);
    AddBridgeKeeps(h, b);
    var k := AddBridge(h, b);
    forall x, y | 0 <= x < |root| && 0 <= y < |root| && root[x] in done + {root[b.member]} && root[y] == hub
      ensures Linked(k, x, y)
    {
      if root[x] in done {
        LinkedMono(h, k, x, y);
      } else {
        LinkedMono(g, k, x, b.member);
        LinkedEdge(k, b.member, b.peer);
        LinkedMono(g, k, b.peer, y);
        LinkedTrans(k, x, b.member, b.peer);
        LinkedTrans(k, x, b.peer, y);
      }
    }
  }

  /** Once every class is joined to the hub, the layer is connected. */
  lemma BridgedConnected(g: Layer, h: Layer, root: seq<int>, hub: int, done: set<int>)
    requires Labels(g, root) && Bridged(g, h, root, hub, done)
    requires hub in root && forall r :: r in root ==> r == hub || r in done
    ensures Connected(h, h.Keys)
  {
    var c :| 0 <= c < |root| && root[c] == hub;
    forall a, b | a in h.Keys && b in h.Keys ensures Linked(h, a, b) {
      ToHub(g, h, root, hub, done, a, c);
      ToHub(g, h, root, hub, done, b, c);
      LinkedSym(h, b, c);
      LinkedTrans(h, a, c, b);
    }
  }

  lemma ToHub(g: Layer, h: Layer, root: seq<int>, hub: int, done: set<int>, a: int, c: int)
    requires Labels(g, root) && Bridged(g, h, root, hub, done)
    requires forall r :: r in root ==> r == hub || r in done
    requires 0 <= a < |root| && 0 <= c < |root| && root[c] == hub
    ensures Linked(h, a, c)
  {
    assert root[a] in root;
    if root[a] == hub {
      LinkedMono(g, h, a, c);
    }
  }

  // ------------------------------------------------------------- the pass

  lemma GroupIsClass(members: map<int, seq<int>>, roots: seq<int>, root: seq<int>, r: int)
    requires Grouped(roots, members, root, |root|) && r in members
    ensures NoDup(members[r]) && Elems(members[r]) == ClassOf(root, r) && |members[r]| == |ClassOf(root, r)|
  {
    var ms := members[r];
    assert Group(ms, root, |root|, r);
    forall x | x in ms ensures x in ClassOf(root, r) {
      var i :| 0 <= i < |ms| && ms[i] == x;
    }
    forall x | x in ClassOf(root, r) ensures x in ms {
      assert x in members[root[x]];
    }
    NoDupSize(ms);
  }

  /** `max(members_of, key=len)`: the first of the largest classes. */
  method LargestRoot(roots: seq<int>, members: map<int, seq<int>>) returns (hub: int)
    requires roots != [] && forall i :: 0 <= i < |roots| ==> roots[i] in members
    ensures hub in roots && hub in members
    ensures forall r :: r in roots ==> r in members && |members[r]| <= |members[hub]|
  {
    hub := roots[0];
    for i := 1 to |roots|
      invariant hub in roots && hub in members
      invariant forall j :: 0 <= j < i ==> |members[roots[j]]| <= |members[hub]|
    {
      if |members[roots[i]]| > |members[hub]| {
        hub := roots[i];
      }
    }
  }

  lemma ClosestBridges(pair: (int, int) -> real, roots: seq<int>, members: map<int, seq<int>>, root: seq<int>,
                       hub: int, r: int, b: Bridge)
    requires Grouped(roots, members, root, |root|) && hub in members && r in members && r != hub
    requires exists i, j :: Closest(pair, members[r], members[hub], i, j) && b == Bridge(members[r][i], members[hub][j])
    ensures GoodBridge(pair, root, hub, b) && root[b.member] == r
  {
    var i, j :| Closest(pair, members[r], members[hub], i, j) && b == Bridge(members[r][i], members[hub][j]);
    assert Group(members[r], root, |root|, r) && Group(members[hub], root, |root|, hub);
    forall x, y | 0 <= x < |root| && 0 <= y < |root| && root[x] == r && root[y] == hub
      ensures pair(b.member, b.peer) <= pair(x, y)
    {
      assert x in members[r] && y in members[hub];
      assert AtLeast(pair, pair(b.member, b.peer), x, members[hub]);
    }
  }

  /** The state of the bridging loop once the classes in `done` are joined. */
  ghost predicate Progress(pair: (int, int) -> real, g: Layer, h: Layer, root: seq<int>, hub: int, done: set<int>,
                           bs: seq<Bridge>) {
    && Bridged(g, h, root, hub, done)
    && h == AddBridges(g, bs) && |bs| == |done|
    && GoodBridges(pair, root, hub, bs) && JoinsOnly(root, bs, done)
  }

  /** The bridge for one class. */
  method FindBridge(pair: (int, int) -> real, roots: seq<int>, members: map<int, seq<int>>, hub: int, r: int,
                    ghost root: seq<int>)
    returns (b: Bridge)
    requires Grouped(roots, members, root, |root|) && hub in members && r in members && r != hub
    ensures GoodBridge(pair, root, hub, b) && root[b.member] == r
  {
    assert Group(members[r], root, |root|, r) && Group(members[hub], root, |root|, hub);
    var member, peer := ClosestPair(pair, members[r], members[hub]);
    b := Bridge(member, peer);
    ClosestBridges(pair, roots, members, root, hub, r, b);
  }

  lemma ProgressOne(pair: (int, int) -> real, g: Layer, h: Layer, root: seq<int>, hub: int, done: set<int>,
                    bs: seq<Bridge>, b: Bridge)
    requires Labels(g, root) && Progress(pair, g, h, root, hub, done, bs)
    requires GoodBridge(pair, root, hub, b) && root[b.member] !in done
    ensures Progress(pair, g, AddBridge(h, b), root, hub, done + {root[b.member]}, bs + [b])
  {
    BridgeOne(g, h, root, hub, done, b);
    GoodBridgesGrow(pair, root, hub, bs, b, done);
    AddBridgesSnoc(g, bs, b);
  }

  /** The bridging loop over the classes other than the largest. */
  method BridgeAll(pair: (int, int) -> real, g: Layer, roots: seq<int>, members: map<int, seq<int>>, hub: int,
                   ghost root: seq<int>)
    returns (g': Layer, bridges: seq<Bridge>)
    requires g.Keys == Upto(|root|) && Simple(g) && Symmetric(g) && Labels(g, root)
    requires Grouped(roots, members, root, |root|) && hub in roots
    ensures Progress(pair, g, g', root, hub, Elems(roots) - {hub}, bridges)
  {
    g', bridges := g, [];
    StartProgress(pair, g, root, hub);
    ghost var done := {};
    for k := 0 to |roots|
      invariant done == Elems(roots[..k]) - {hub}
      invariant Progress(pair, g, g', root, hub, done, bridges)
    {
      var r := roots[k];
      DoneStep(roots, k, hub);
      if r != hub {
        assert r in members && hub in members;
        var b := FindBridge(pair, roots, members, hub, r, root);
        ProgressOne(pair, g, g', root, hub, done, bridges, b);
        g', bridges, done := AddBridge(g', b), bridges + [b], done + {r};
      }
    }
    assert roots[..|roots|] == roots;
  }

  lemma DoneStep(roots: seq<int>, k: nat, hub: int)
    requires NoDup(roots) && k < |roots|
    ensures var done, next := Elems(roots[..k]) - {hub}, Elems(roots[..k + 1]) - {hub};
            if roots[k] == hub then next == done
            else roots[k] !in done && next == done + {roots[k]} && |next| == |done| + 1
  {
    FreshAt(roots, k);
  }

  lemma DoneAll(roots: seq<int>, hub: int)
    requires NoDup(roots) && hub in roots
    ensures |Elems(roots) - {hub}| + 1 == |roots|
  {
    NoDupSize(roots);
  }

  lemma AddBridgesSnoc(g: Layer, bs: seq<Bridge>, b: Bridge)
    ensures AddBridges(g, bs + [b]) == AddBridge(AddBridges(g, bs), b)
  {
    assert (bs + [b])[..|bs|] == bs;
  }

  lemma StartBridged(g: Layer, root: seq<int>, hub: int)
    requires g.Keys == Upto(|root|) && Simple(g) && Symmetric(g) && Labels(g, root)
    ensures Bridged(g, g, root, hub, {})
  {
    forall x, y | 0 <= x < |root| && 0 <= y < |root| && y in Nbrs(g, x) ensures root[x] == root[y] {
      LinkedEdge(g, x, y);
    }
  }

  /** `hub` labels a class no smaller than any other. */
  ghost predicate LargestClass(root: seq<int>, hub: int) {
    hub in root && forall r :: r in root ==> |ClassOf(root, r)| <= |ClassOf(root, hub)|
  }

  lemma LargestIsHub(roots: seq<int>, members: map<int, seq<int>>, root: seq<int>, hub: int)
    requires Grouped(roots, members, root, |root|) && Elems(roots) == Elems(root) && hub in roots
    requires forall r :: r in roots ==> r in members && |members[r]| <= |members[hub]|
    ensures LargestClass(root, hub)
  {
    assert hub in Elems(roots);
    forall r | r in root ensures |ClassOf(root, r)| <= |ClassOf(root, hub)| {
      assert r in Elems(root);
      GroupIsClass(members, roots, root, r);
      GroupIsClass(members, roots, root, hub);
    }
  }

  /** The union-find, the grouping and the choice of the largest class. */
  method Components(g: Layer, n: nat)
    returns (roots: seq<int>, members: map<int, seq<int>>, hub: int, ghost root: seq<int>)
    requires g.Keys == Upto(n) && Simple(g) && Symmetric(g) && 0 < n
    ensures |root| == n && Labels(g, root) && Grouped(roots, members, root, n)
    ensures hub in roots && Elems(roots) == Elems(root) && |roots| == |Elems(root)|
    ensures LargestClass(root, hub)
  {
    var parent := new int[n](i => i);
    ghost var rank, top;
    root, rank, top := UnionEdges(g, parent);
    assert |root| == n;
    roots, members := GroupByRoot(parent, root, rank, top);
    RootsAreClasses(roots, members, root);
    assert root[0] in Elems(root);
    forall i | 0 <= i < |roots| ensures roots[i] in members {
      var r := roots[i];
      assert r in roots;
    }
    hub := LargestRoot(roots, members);
    LargestIsHub(roots, members, root, hub);
  }

  /**
   What the repair leaves behind: the old layer plus one closest-pair bridge from every component
   but the largest to the largest, and with them a connected, still symmetric layer.
   */
  ghost predicate Repaired(pair: (int, int) -> real, g: Layer, g': Layer, bs: seq<Bridge>, root: seq<int>, hub: int) {
    && Labels(g, root) && LargestClass(root, hub)
    && g' == AddBridges(g, bs) && |bs| + 1 == |Elems(root)| && GoodBridges(pair, root, hub, bs)
    && g'.Keys == g.Keys && Simple(g') && Symmetric(g') && Connected(g', g'.Keys)
  }

  lemma FinishRepair(pair: (int, int) -> real, g: Layer, h: Layer, roots: seq<int>, root: seq<int>, hub: int,
                     bs: seq<Bridge>)
    requires Labels(g, root) && LargestClass(root, hub)
    requires NoDup(roots) && hub in roots && Elems(roots) == Elems(root)
    requires Progress(pair, g, h, root, hub, Elems(roots) - {hub}, bs)
    ensures Repaired(pair, g, h, bs, root, hub)
  {
    DoneAll(roots, hub);
    NoDupSize(roots);
    forall r | r in root ensures r == hub || r in Elems(roots) - {hub} {
      assert r in Elems(root);
    }
    BridgedConnected(g, h, root, hub, Elems(roots) - {hub});
  }

  lemma StartProgress(pair: (int, int) -> real, g: Layer, root: seq<int>, hub: int)
    requires g.Keys == Upto(|root|) && Simple(g) && Symmetric(g) && Labels(g, root)
    ensures Progress(pair, g, g, root, hub, {}, [])
  {
    StartBridged(g, root, hub);
  }

  /** A layer of one class needs no bridge. */
  lemma OneClass(pair: (int, int) -> real, g: Layer, roots: seq<int>, root: seq<int>, hub: int)
    requires g.Keys == Upto(|root|) && Simple(g) && Symmetric(g) && Labels(g, root)
    requires hub in roots && |roots| == 1
    ensures Progress(pair, g, g, root, hub, Elems(roots) - {hub}, [])
  {
    StartProgress(pair, g, root, hub);
    LoneMember(roots, hub);
  }

  /** `_repair_connectivity` on layer 0 of an index of n nodes. */
  method RepairLayer(pair: (int, int) -> real, g: Layer, n: nat)
    returns (g': Layer, bridges: seq<Bridge>, ghost root: seq<int>, ghost hub: int)
    requires g.Keys == Upto(n) && Simple(g) && Symmetric(g) && 0 < n
    ensures |root| == n && Repaired(pair, g, g', bridges, root, hub)
  {
    var roots, members, h;
    roots, members, h, root := Components(g, n);
    hub := h;
    if |roots| == 1 {
      OneClass(pair, g, roots, root, hub);
      g', bridges := g, [];
    } else {
      g', bridges := BridgeAll(pair, g, roots, members, h, root);
    }
    FinishRepair(pair, g, g', roots, root, hub, bridges);
  }

  lemma RootsAreClasses(roots: seq<int>, members: map<int, seq<int>>, root: seq<int>)
    requires Grouped(roots, members, root, |root|)
    ensures Elems(roots) == Elems(root) && |roots| == |Elems(root)|
  {
    forall r | r in roots ensures r in root {
      assert Group(members[r], root, |root|, r);
      assert root[members[r][0]] == r;
    }
    forall r | r in root ensures r in roots {
      var x :| 0 <= x < |root| && root[x] == r;
      assert root[x] in members;
    }
    NoDupSize(roots);
  }
}
