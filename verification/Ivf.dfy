/**
 IVF-Flat (`IVFFlatIndex`): rows permuted into the cells of a coarse quantizer, and a search
 that scans some cells. The centroids k-means arrives at are data; `assign` labels the rows.
 */
module Ivf {
  import opened Seqs
  import opened LayerSearch
  import opened UnionFind
  import opened Nearest
  import opened Brute

  // ------------------------------------------------------------- labels

  /** `cell` is the first of the centroids nearest to the vector. */
  ghost predicate NearestCell<V>(metric: (V, V) -> real, v: V, centroids: seq<V>, cell: int) {
    && 0 <= cell < |centroids|
    && (forall c :: 0 <= c < |centroids| ==> metric(v, centroids[cell]) <= metric(v, centroids[c]))
    && (forall c :: 0 <= c < cell ==> metric(v, centroids[cell]) < metric(v, centroids[c]))
  }

  method NearestCentroid<V>(metric: (V, V) -> real, v: V, centroids: seq<V>) returns (cell: int)
    requires centroids != []
    ensures NearestCell(metric, v, centroids, cell)
  {
    cell := 0;
    for c := 1 to |centroids|
      invariant 0 <= cell < c
      invariant forall d :: 0 <= d < c ==> metric(v, centroids[cell]) <= metric(v, centroids[d])
      invariant forall d :: 0 <= d < cell ==> metric(v, centroids[cell]) < metric(v, centroids[d])
    {
      if metric(v, centroids[c]) < metric(v, centroids[cell]) {
        cell := c;
      }
    }
  }

  ghost predicate Labelled<V>(metric: (V, V) -> real, vectors: seq<V>, centroids: seq<V>, labels: seq<int>) {
    |labels| == |vectors| && forall i :: 0 <= i < |labels| ==> NearestCell(metric, vectors[i], centroids, labels[i])
  }

  /** `assign`: the labels, written batch by batch. */
  method Assign<V>(metric: (V, V) -> real, vectors: seq<V>, centroids: seq<V>, batch: nat) returns (labels: seq<int>)
    requires centroids != [] && 0 < batch
    ensures Labelled(metric, vectors, centroids, labels)
  {
    var out := new int[|vectors|];
    var start := 0;
    while start < |vectors|
      invariant 0 <= start <= |vectors|
      invariant forall i :: 0 <= i < start ==> NearestCell(metric, vectors[i], centroids, out[i])
    {
      var stop := Min(start + batch, |vectors|);
      for i := start to stop
        invariant forall j :: 0 <= j < i ==> NearestCell(metric, vectors[j], centroids, out[j])
      {
        out[i] := NearestCentroid(metric, vectors[i], centroids);
      }
      start := stop;
    }
    labels := out[..];
  }

  // ------------------------------------------------------------- the permutation

  /** A listing of the rows 0 .. n - 1, each once. */
  ghost predicate Permutes(order: seq<int>, n: nat) {
    NoDup(order) && |order| == n && forall p :: 0 <= p < n ==> 0 <= order[p] < n
  }

  /** Rows by cell, and by row within a cell: the one stable sort. */
  ghost predicate ByLabel(order: seq<int>, labels: seq<int>) {
    && Permutes(order, |labels|)
    && forall p, q :: 0 <= p < q < |order| ==> LabelBefore(labels, order[p], order[q])
  }

  predicate LabelBefore(labels: seq<int>, a: int, b: int) {
    && 0 <= a < |labels| && 0 <= b < |labels|
    && (labels[a] < labels[b] || (labels[a] == labels[b] && a < b))
  }

  /** One step of an insertion sort by cell. */
  method Place(order: seq<int>, labels: seq<int>, i: int) returns (p: nat)
    requires 0 <= i < |labels| && forall q :: 0 <= q < |order| ==> 0 <= order[q] < i
    requires forall p, q :: 0 <= p < q < |order| ==> LabelBefore(labels, order[p], order[q])
    ensures p <= |order|
    ensures forall q :: 0 <= q < p ==> LabelBefore(labels, order[q], i)
    ensures forall q :: p <= q < |order| ==> LabelBefore(labels, i, order[q])
  {
    p := |order|;
    while p > 0 && labels[order[p - 1]] > labels[i]
      invariant 0 <= p <= |order|
      invariant forall q :: p <= q < |order| ==> LabelBefore(labels, i, order[q])
    {
      p := p - 1;
    }
    forall q | 0 <= q < p ensures LabelBefore(labels, order[q], i) {
      assert q == p - 1 || LabelBefore(labels, order[q], order[p - 1]);
    }
  }

  /** `np.argsort(assignments, kind="stable")` */
  method ArgSortStable(labels: seq<int>) returns (order: seq<int>)
    ensures ByLabel(order, labels)
  {
    order := [];
    for i := 0 to |labels|
      invariant Permutes(order, i)
      invariant forall p, q :: 0 <= p < q < |order| ==> LabelBefore(labels, order[p], order[q])
    {
      var p := Place(order, labels, i);
      InsertPermutes(order, i, p);
      InsertByLabel(order, labels, i, p);
      order := order[..p] + [i] + order[p..];
    }
  }

  lemma InsertByLabel(order: seq<int>, labels: seq<int>, i: int, p: nat)
    requires p <= |order|
    requires forall p, q :: 0 <= p < q < |order| ==> LabelBefore(labels, order[p], order[q])
    requires forall q :: 0 <= q < p ==> LabelBefore(labels, order[q], i)
    requires forall q :: p <= q < |order| ==> LabelBefore(labels, i, order[q])
    ensures var next := order[..p] + [i] + order[p..];
            forall a, b :: 0 <= a < b < |next| ==> LabelBefore(labels, next[a], next[b])
  {
    var next := order[..p] + [i] + order[p..];
    forall a, b | 0 <= a < b < |next| ensures LabelBefore(labels, next[a], next[b]) {
      var x, y := next[a], next[b];
      assert x == if a < p then order[a] else if a == p then i else order[a - 1];
      assert y == if b < p then order[b] else if b == p then i else order[b - 1];
    }
  }

  lemma InsertPermutes(order: seq<int>, n: nat, p: nat)
    requires Permutes(order, n) && p <= n
    ensures Permutes(order[..p] + [n] + order[p..], n + 1)
  {
    var next := order[..p] + [n] + order[p..];
    forall i, j | 0 <= i < j < |next| ensures next[i] != next[j] && 0 <= next[i] <= n && 0 <= next[j] <= n {
      var x, y := next[i], next[j];
      assert x == if i < p then order[i] else if i == p then n else order[i - 1];
      assert y == if j < p then order[j] else if j == p then n else order[j - 1];
    }
  }

  /** A permutation reaches every row. */
  lemma Preimage(order: seq<int>, n: nat, x: int) returns (p: int)
    requires Permutes(order, n) && 0 <= x < n
    ensures 0 <= p < n && order[p] == x
  {
    forall y | y in order ensures y in Upto(n) {
      var i :| 0 <= i < |order| && order[i] == y;
    }
    NoDupBound(order, Upto(n));
    assert x in Elems(order);
    p :| 0 <= p < |order| && order[p] == x;
  }

  /** `np.searchsorted(..., side="left")` for every cell up to n: where each cell starts. */
  ghost predicate Offsets(offsets: seq<int>, sortedLabels: seq<int>, n: nat) {
    && |offsets| == n + 1
    && forall c :: 0 <= c <= n ==> StartsAt(sortedLabels, c, offsets[c])
  }

  ghost predicate StartsAt(sortedLabels: seq<int>, c: int, p: int) {
    && 0 <= p <= |sortedLabels|
    && (forall q :: 0 <= q < p ==> sortedLabels[q] < c)
    && (forall q :: p <= q < |sortedLabels| ==> sortedLabels[q] >= c)
  }

  method SearchSorted(sortedLabels: seq<int>, n: nat) returns (offsets: seq<int>)
    requires forall p, q :: 0 <= p < q < |sortedLabels| ==> sortedLabels[p] <= sortedLabels[q]
    ensures Offsets(offsets, sortedLabels, n)
  {
    offsets := [];
    for c := 0 to n + 1
      invariant |offsets| == c && forall d :: 0 <= d < c ==> StartsAt(sortedLabels, d, offsets[d])
    {
      var lo, hi := 0, |sortedLabels|;
      while lo < hi
        invariant 0 <= lo <= hi <= |sortedLabels|
        invariant forall q :: 0 <= q < lo ==> sortedLabels[q] < c
        invariant forall q :: hi <= q < |sortedLabels| ==> sortedLabels[q] >= c
      {
        var mid := (lo + hi) / 2;
        if sortedLabels[mid] < c {
          lo := mid + 1;
        } else {
          hi := mid;
        }
      }
      offsets := offsets + [lo];
    }
  }

  // ------------------------------------------------------------- cells

  /** The offsets cut the n rows into consecutive cells. */
  ghost predicate CutIntoCells(offsets: seq<int>, cells: nat, n: nat) {
    && |offsets| == cells + 1 && offsets[0] == 0 && offsets[cells] == n
    && forall c, d :: 0 <= c <= d <= cells ==> offsets[c] <= offsets[d]
  }

  predicate InCell(offsets: seq<int>, c: int, r: int) {
    0 <= c < |offsets| - 1 && offsets[c] <= r < offsets[c + 1]
  }

  function LabelAt(labels: seq<int>, p: int): int {
    if 0 <= p < |labels| then labels[p] else 0
  }

  /** The slices partition the rows: every row lies in exactly one cell, that of its label. */
  lemma SlicesPartition(offsets: seq<int>, sortedLabels: seq<int>, cells: nat)
    requires Offsets(offsets, sortedLabels, cells)
    requires forall p :: 0 <= p < |sortedLabels| ==> 0 <= sortedLabels[p] < cells
    ensures CutIntoCells(offsets, cells, |sortedLabels|)
    ensures forall c, r :: 0 <= r < |sortedLabels| ==> (InCell(offsets, c, r) <==> c == sortedLabels[r])
  {
    var n := |sortedLabels|;
    var first, last := offsets[0], offsets[cells];
    assert StartsAt(sortedLabels, 0, first) && StartsAt(sortedLabels, cells, last);
    assert n == 0 || LabelAt(sortedLabels, 0) >= 0;
    assert n == last || LabelAt(sortedLabels, last) < cells;
    forall c, d | 0 <= c <= d <= cells ensures offsets[c] <= offsets[d] {
      var p, q := offsets[c], offsets[d];
      assert StartsAt(sortedLabels, c, p) && StartsAt(sortedLabels, d, q);
      assert q == n || LabelAt(sortedLabels, q) >= d;
    }
    forall c, r | 0 <= r < |sortedLabels| ensures InCell(offsets, c, r) <==> c == sortedLabels[r] {
      if 0 <= c < cells {
        assert StartsAt(sortedLabels, c, offsets[c]) && StartsAt(sortedLabels, c + 1, offsets[c + 1]);
      }
    }
  }

  /** `span[admissible[span]]` */
  function Kept(lo: int, hi: int, mask: Mask): (rows: seq<int>)
    ensures forall r :: r in rows <==> lo <= r < hi && Admits(mask, r)
    ensures NoDup(rows)
    decreases hi - lo
  {
    if lo >= hi then []
    else (if Admits(mask, lo) then [lo] else []) + Kept(lo + 1, hi, mask)
  }

  /** The admissible rows of some cells, cell by cell. */
  function Collected(offsets: seq<int>, mask: Mask, cells: seq<int>): seq<int>
    requires forall i :: 0 <= i < |cells| ==> 0 <= cells[i] < |offsets| - 1
  {
    if cells == [] then []
    else
      var c := cells[|cells| - 1];
      Collected(offsets, mask, cells[..|cells| - 1]) + Kept(offsets[c], offsets[c + 1], mask)
  }

  ghost predicate SomeCells(cells: seq<int>, count: nat) {
    NoDup(cells) && forall i :: 0 <= i < |cells| ==> 0 <= cells[i] < count
  }

  lemma {:induction false} CollectedRows(offsets: seq<int>, count: nat, n: nat, mask: Mask, cells: seq<int>)
    requires CutIntoCells(offsets, count, n) && SomeCells(cells, count)
    ensures NoDup(Collected(offsets, mask, cells))
    ensures forall r :: r in Collected(offsets, mask, cells) <==>
              Admits(mask, r) && exists c :: c in cells && InCell(offsets, c, r)
  {
    if cells != [] {
      var last, rest := cells[|cells| - 1], cells[..|cells| - 1];
      CollectedRows(offsets, count, n, mask, rest);
      assert forall c :: c in cells <==> c in rest || c == last;
      var a, b := Collected(offsets, mask, rest), Kept(offsets[last], offsets[last + 1], mask);
      assert forall r :: r in b <==> InCell(offsets, last, r) && Admits(mask, r);
      forall r | r in a ensures r !in b {
        var c :| c in rest && InCell(offsets, c, r);
        OneCell(offsets, count, n, c, last, r);
      }
      NoDupAppend(a, b);
      assert Collected(offsets, mask, cells) == a + b;
    }
  }

  lemma OneCell(offsets: seq<int>, count: nat, n: nat, c: int, d: int, r: int)
    requires CutIntoCells(offsets, count, n) && InCell(offsets, c, r)
    ensures InCell(offsets, d, r) ==> c == d
  {
    if 0 <= d < count {
      assert c < d ==> offsets[c + 1] <= offsets[d];
      assert d < c ==> offsets[d + 1] <= offsets[c];
    }
  }

  /** More cells, more rows. */
  lemma CollectedPrefix(offsets: seq<int>, count: nat, n: nat, mask: Mask, cells: seq<int>, p: nat, q: nat)
    requires CutIntoCells(offsets, count, n) && SomeCells(cells, count) && p <= q <= |cells|
    ensures Elems(Collected(offsets, mask, cells[..p])) <= Elems(Collected(offsets, mask, cells[..q]))
  {
    CollectedRows(offsets, count, n, mask, cells[..p]);
    CollectedRows(offsets, count, n, mask, cells[..q]);
    var a, b := cells[..p], cells[..q];
    assert b[..p] == a;
    forall r | r in Collected(offsets, mask, a) ensures r in Collected(offsets, mask, b) {
      var c :| c in a && InCell(offsets, c, r);
      assert c in b;
    }
  }

  lemma CollectedInRange(offsets: seq<int>, count: nat, n: nat, mask: Mask, cells: seq<int>)
    requires CutIntoCells(offsets, count, n) && SomeCells(cells, count)
    ensures forall r :: r in Elems(Collected(offsets, mask, cells)) ==> 0 <= r < n && Admits(mask, r)
  {
    CollectedRows(offsets, count, n, mask, cells);
    forall r | r in Collected(offsets, mask, cells) ensures 0 <= r < n {
      var c :| c in cells && InCell(offsets, c, r);
      assert offsets[0] <= offsets[c] && offsets[c + 1] <= offsets[count];
    }
  }

  /** All the cells, all the admissible rows. */
  lemma CollectedAll(offsets: seq<int>, count: nat, n: nat, mask: Mask, cells: seq<int>)
    requires CutIntoCells(offsets, count, n) && SomeCells(cells, count) && |cells| == count
    ensures Elems(Collected(offsets, mask, cells)) == AdmissibleIn(Upto(n), mask)
  {
    CollectedRows(offsets, count, n, mask, cells);
    NoDupBound(cells, Upto(count));
    CollectedInRange(offsets, count, n, mask, cells);
    var rows := Collected(offsets, mask, cells);
    forall r | r in AdmissibleIn(Upto(n), mask) ensures r in Elems(rows) {
      var c := CellOf(offsets, count, n, r);
      assert c in Elems(cells);
    }
    SameSet(Elems(rows), AdmissibleIn(Upto(n), mask));
  }

  lemma CellOf(offsets: seq<int>, count: nat, n: nat, r: int) returns (c: int)
    requires CutIntoCells(offsets, count, n) && 0 <= r < n
    ensures 0 <= c < count && InCell(offsets, c, r)
  {
    c := 0;
    while offsets[c + 1] <= r
      invariant 0 <= c < count && offsets[c] <= r
      decreases count - c
    {
      c := c + 1;
    }
  }

  // ------------------------------------------------------------- probing

  /** The stopping rule of `_probe_until_k` after p cells. */
  ghost predicate Enough(offsets: seq<int>, mask: Mask, order: seq<int>, k: nat, minProbes: nat, p: nat)
    requires |offsets| > 0 && SomeCells(order, |offsets| - 1)
  {
    minProbes <= p <= |order| && |Collected(offsets, mask, order[..p])| >= k
  }

  ghost predicate StopsAt(offsets: seq<int>, mask: Mask, order: seq<int>, k: nat, minProbes: nat, p: nat)
    requires |offsets| > 0 && SomeCells(order, |offsets| - 1)
  {
    && p <= |order| && (p == |order| || Enough(offsets, mask, order, k, minProbes, p))
    && forall q :: 1 <= q < p ==> !Enough(offsets, mask, order, k, minProbes, q)
  }

  lemma CollectedNext(offsets: seq<int>, mask: Mask, order: seq<int>, p: nat)
    requires |offsets| > 0 && SomeCells(order, |offsets| - 1) && p < |order|
    ensures SomeCells(order[..p], |offsets| - 1) && SomeCells(order[..p + 1], |offsets| - 1)
    ensures Collected(offsets, mask, order[..p + 1]) ==
            Collected(offsets, mask, order[..p]) + Kept(offsets[order[p]], offsets[order[p] + 1], mask)
  {
    assert order[..p + 1][..p] == order[..p] && order[..p + 1][p] == order[p];
  }

  /** Before p cells it is not enough. */
  ghost predicate NotBeforeCells(offsets: seq<int>, mask: Mask, order: seq<int>, k: nat, minProbes: nat, p: nat)
    requires |offsets| > 0 && SomeCells(order, |offsets| - 1)
  {
    forall q :: 1 <= q < p ==> !Enough(offsets, mask, order, k, minProbes, q)
  }

  lemma StopsHere(offsets: seq<int>, mask: Mask, order: seq<int>, k: nat, minProbes: nat, p: nat)
    requires |offsets| > 0 && SomeCells(order, |offsets| - 1) && p <= |order|
    requires NotBeforeCells(offsets, mask, order, k, minProbes, p)
    ensures p == |order| ==> StopsAt(offsets, mask, order, k, minProbes, p)
    ensures if p >= minProbes && |Collected(offsets, mask, order[..p])| >= k
            then StopsAt(offsets, mask, order, k, minProbes, p)
            else NotBeforeCells(offsets, mask, order, k, minProbes, p + 1)
  {
  }

  /** `if hi > lo:` its kept rows, and nothing otherwise. */
  method AppendCell(rows: seq<int>, lo: int, hi: int, mask: Mask) returns (more: seq<int>)
    ensures more == rows + Kept(lo, hi, mask)
  {
    more := rows;
    if hi > lo {
      more := rows + Kept(lo, hi, mask);
    }
  }

  /** One turn of the loop of `_probe_until_k`: the next cell's kept rows. */
  method ProbeNext(offsets: seq<int>, mask: Mask, order: seq<int>, k: nat, minProbes: nat, probed: nat, rows: seq<int>)
    returns (more: seq<int>)
    requires |offsets| > 0 && SomeCells(order, |offsets| - 1) && probed < |order|
    requires rows == Collected(offsets, mask, order[..probed])
    requires NotBeforeCells(offsets, mask, order, k, minProbes, probed + 1)
    ensures more == Collected(offsets, mask, order[..probed + 1])
    ensures probed + 1 == |order| ==> StopsAt(offsets, mask, order, k, minProbes, probed + 1)
    ensures if probed + 1 >= minProbes && |more| >= k
            then StopsAt(offsets, mask, order, k, minProbes, probed + 1)
            else NotBeforeCells(offsets, mask, order, k, minProbes, probed + 2)
  {
    CollectedNext(offsets, mask, order, probed);
    more := AppendCell(rows, offsets[order[probed]], offsets[order[probed] + 1], mask);
    StopsHere(offsets, mask, order, k, minProbes, probed + 1);
  }

  /** `_probe_until_k`: walk the cells in order until enough admissible rows are found. */
  method ProbeUntilK(offsets: seq<int>, mask: Mask, order: seq<int>, k: nat, minProbes: nat)
    returns (rows: seq<int>, probed: nat)
    requires |offsets| > 0 && SomeCells(order, |offsets| - 1) && 0 < k && 0 < minProbes
    ensures StopsAt(offsets, mask, order, k, minProbes, probed)
    ensures rows == Collected(offsets, mask, order[..probed])
  {
    rows, probed := [], 0;
    while probed < |order|
      invariant probed <= |order| && rows == Collected(offsets, mask, order[..probed])
      invariant NotBeforeCells(offsets, mask, order, k, minProbes, probed + 1)
      invariant probed == |order| ==> StopsAt(offsets, mask, order, k, minProbes, probed)
    {
      rows := ProbeNext(offsets, mask, order, k, minProbes, probed, rows);
      probed := probed + 1;
      if probed >= minProbes && |rows| >= k {
        break;
      }
    }
  }

  /** Probing at least as many cells never stops earlier. */
  lemma StopsLater(offsets: seq<int>, mask: Mask, order: seq<int>, k: nat, few: nat, many: nat, p: nat, q: nat)
    requires |offsets| > 0 && SomeCells(order, |offsets| - 1) && 0 < k && 0 < few <= many
    requires StopsAt(offsets, mask, order, k, few, p) && StopsAt(offsets, mask, order, k, many, q)
    ensures p <= q
  {
    assert q == |order| || Enough(offsets, mask, order, k, few, q);
  }

  /** `np.argsort(centroid_distance)`: the cells, nearest first; cells at one distance in the order of their numbers. */
  function CellOrder(cdist: int -> real, lists: nat): (order: seq<int>) {
    var all := seq(lists, i requires 0 <= i < lists => i);
    SortRows(all, cdist, all)
  }

  lemma CellOrderIs(cdist: int -> real, lists: nat)
    ensures var order := CellOrder(cdist, lists); SomeCells(order, lists) && |order| == lists && Ascending(order, cdist)
  {
    var all := seq(lists, i requires 0 <= i < lists => i);
    var order := CellOrder(cdist, lists);
    SortRowsSorted(all, cdist, all);
    SameMembers(all, order);
    forall i | 0 <= i < |order| ensures 0 <= order[i] < lists {
      assert order[i] in Elems(order);
    }
  }

  /** The k nearest of the candidates, in (distance, id) order. */
  method TopOf(candidates: seq<int>, dist: int -> real, ids: seq<int>, k: nat) returns (rows: seq<int>)
    requires NoDup(candidates)
    ensures KNearest(rows, Elems(candidates), dist, k) && SortedRows(rows, dist, ids)
  {
    var take := Min(k, |candidates|);
    var keys := seq(|candidates|, i requires 0 <= i < |candidates| => Some(dist(candidates[i])));
    var top := ArgPartition(keys, take);
    forall i | 0 <= i < |top| ensures 0 <= top[i] < |candidates| {
      var t := top[i];
      assert t in top;
    }
    var chosen := seq(|top|, i requires 0 <= i < |top| && 0 <= top[i] < |candidates| => candidates[top[i]]);
    ChosenLeast(candidates, dist, keys, top, chosen);
    NoDupSize(candidates);
    SortedChoicePrefix(chosen, Elems(candidates), dist, ids, k, k);
    rows := SortRows(chosen, dist, ids);
    assert rows[..Min(k, |chosen|)] == rows;
  }

  lemma ChosenLeast(candidates: seq<int>, dist: int -> real, keys: seq<Key>, top: seq<int>, chosen: seq<int>)
    requires NoDup(candidates) && |keys| == |candidates| && |chosen| == |top|
    requires forall i :: 0 <= i < |keys| ==> keys[i] == Some(dist(candidates[i]))
    requires NoDup(top) && (forall i :: i in top ==> 0 <= i < |keys|) && Least(keys, top)
    requires forall i :: 0 <= i < |top| ==> 0 <= top[i] < |candidates| && chosen[i] == candidates[top[i]]
    ensures NoDup(chosen) && Elems(chosen) <= Elems(candidates)
    ensures forall r, x :: r in chosen && x in Elems(candidates) && x !in chosen ==> dist(r) <= dist(x)
  {
    forall i, j | 0 <= i < j < |chosen| ensures chosen[i] != chosen[j] {
      var a, b := top[i], top[j];
      assert a != b && candidates[a] != candidates[b];
    }
    forall r, x | r in chosen && x in Elems(candidates) && x !in chosen ensures dist(r) <= dist(x) {
      var i :| 0 <= i < |chosen| && chosen[i] == r;
      var p :| 0 <= p < |candidates| && candidates[p] == x;
      var q := top[i];
      forall j | 0 <= j < |top| ensures top[j] != p {
        var y := chosen[j];
        assert y in chosen && y != x;
      }
      assert q in top && p !in top && KeyLe(keys[q], keys[p]);
    }
  }

  // ------------------------------------------------------------- search

  /** `effort or default or max(1, n_lists // 16)`, clamped to 1 .. n_lists. */
  function Probes(effort: Option<int>, default: Option<int>, lists: nat): (n: nat)
    ensures lists > 0 ==> 1 <= n <= lists
  {
    var wanted := if effort.Some? && effort.value != 0 then effort.value
                  else if default.Some? && default.value != 0 then default.value
                  else Max(1, lists / 16);
    Max(1, Min(wanted, lists))
  }

  /** The cells an unfiltered search scans: some n nearest. */
  ghost predicate NearestCells(walked: seq<int>, cdist: int -> real, lists: nat, n: nat) {
    && SomeCells(walked, lists) && |walked| == n
    && forall c, d :: c in walked && 0 <= d < lists && d !in walked ==> cdist(c) <= cdist(d)
  }

  /** The cells a search scans: some n nearest, or under a filter those of the cell order up to where it stops. */
  ghost predicate Walks(walked: seq<int>, offsets: seq<int>, cdist: int -> real, lists: nat, k: nat, nProbe: nat,
                        mask: Mask) {
    && |offsets| == lists + 1 && SomeCells(walked, lists)
    && (mask.None? ==> NearestCells(walked, cdist, lists, nProbe))
    && (mask.Some? ==>
          var order := CellOrder(cdist, lists);
          && SomeCells(order, lists)
          && |walked| <= |order| && walked == order[..|walked|]
          && StopsAt(offsets, mask, order, k, nProbe, |walked|))
  }

  /** The cells to scan, and the rows in them that may be answered. */
  method Candidates(offsets: seq<int>, cdist: int -> real, lists: nat, k: nat, nProbe: nat, mask: Mask)
    returns (candidates: seq<int>, probed: nat, ghost walked: seq<int>)
    requires |offsets| == lists + 1 && 0 < k && 1 <= nProbe <= lists
    ensures Walks(walked, offsets, cdist, lists, k, nProbe, mask) && probed == |walked|
    ensures if mask.None? then probed == nProbe else probed >= nProbe
    ensures candidates == Collected(offsets, mask, walked)
  {
    if mask.None? {
      var keys := Masked(lists, cdist, None);
      var probes := ArgPartition(keys, nProbe);
      forall i | 0 <= i < |probes| ensures 0 <= probes[i] < lists {
        var c := probes[i];
        assert c in probes;
      }
      forall c, d | c in probes && 0 <= d < lists && d !in probes ensures cdist(c) <= cdist(d) {
        assert KeyLe(keys[c], keys[d]);
      }
      candidates := Spans(offsets, probes);
      probed, walked := nProbe, probes;
    } else {
      var order := CellOrder(cdist, lists);
      CellOrderIs(cdist, lists);
      candidates, probed := ProbeUntilK(offsets, mask, order, k, nProbe);
      walked := order[..probed];
    }
  }

  /** `np.concatenate` of the spans of the probed cells. */
  method Spans(offsets: seq<int>, probes: seq<int>) returns (candidates: seq<int>)
    requires forall i :: 0 <= i < |probes| ==> 0 <= probes[i] < |offsets| - 1
    ensures candidates == Collected(offsets, None, probes)
  {
    candidates := [];
    for i := 0 to |probes|
      invariant candidates == Collected(offsets, None, probes[..i])
    {
      assert probes[..i + 1][..i] == probes[..i];
      candidates := candidates + Kept(offsets[probes[i]], offsets[probes[i] + 1], None);
    }
    assert probes[..|probes|] == probes;
  }

  /** A filtered search has enough rows: its pool is full or it walked every cell. */
  lemma FilteredPool(walked: seq<int>, offsets: seq<int>, cdist: int -> real, lists: nat, n: nat, k: nat, nProbe: nat,
                     mask: Mask)
    requires CutIntoCells(offsets, lists, n) && Walks(walked, offsets, cdist, lists, k, nProbe, mask)
    requires mask.Some?
    ensures var pool, all := Elems(Collected(offsets, mask, walked)), AdmissibleIn(Upto(n), mask);
            pool <= all && Min(k, |pool|) == Min(k, |all|)
  {
    var order := CellOrder(cdist, lists);
    CellOrderIs(cdist, lists);
    CollectedRows(offsets, lists, n, mask, walked);
    CollectedAll(offsets, lists, n, mask, order);
    assert order[..|order|] == order;
    CollectedPrefix(offsets, lists, n, mask, order, |walked|, |order|);
    NoDupSize(Collected(offsets, mask, walked));
    SubsetSize(Elems(Collected(offsets, mask, walked)), AdmissibleIn(Upto(n), mask));
  }

  /** Filtered search answers exactly min(k, admissible) rows, none of them inadmissible. */
  lemma FilteredAnswer(rows: seq<int>, walked: seq<int>, offsets: seq<int>, cdist: int -> real, dist: int -> real,
                       lists: nat, n: nat, k: nat, nProbe: nat, mask: Mask)
    requires CutIntoCells(offsets, lists, n) && Walks(walked, offsets, cdist, lists, Min(k, n), nProbe, mask)
    requires mask.Some? && KNearest(rows, Elems(Collected(offsets, mask, walked)), dist, Min(k, n))
    ensures |rows| == Min(k, |AdmissibleIn(Upto(n), mask)|) && Elems(rows) <= AdmissibleIn(Upto(n), mask)
  {
    FilteredPool(walked, offsets, cdist, lists, n, Min(k, n), nProbe, mask);
    SubsetSize(AdmissibleIn(Upto(n), mask), Upto(n));
  }

  /** No distance is tied between the last cell of the smaller probe and the first that the larger leaves out. */
  ghost predicate ClearCut(cdist: int -> real, lists: nat, nFew: nat, nMany: nat) {
    var order := CellOrder(cdist, lists);
    nMany >= lists || (1 <= nFew <= |order| && nMany < |order| && cdist(order[nFew - 1]) < cdist(order[nMany]))
  }

  /** A cell as near as the n-th of the order, if not nearer. */
  lemma NearCell(cells: seq<int>, cdist: int -> real, lists: nat, n: nat, c: int)
    requires NearestCells(cells, cdist, lists, n) && 1 <= n <= lists && c in cells
    ensures n <= |CellOrder(cdist, lists)| && cdist(c) <= cdist(CellOrder(cdist, lists)[n - 1])
  {
    CellOrderIs(cdist, lists);
    var order := CellOrder(cdist, lists);
    NoDupSize(cells);
    NoDupSize(order[..n]);
    var p := Spare(Elems(order[..n]), Elems(cells) - {c});
    var i :| 0 <= i < n && order[i] == p;
    assert p == c || p !in cells;
  }

  lemma PlaceOf(order: seq<int>, lists: nat, c: int) returns (k: nat)
    requires SomeCells(order, lists) && |order| == lists && 0 <= c < lists
    ensures k < lists && order[k] == c
  {
    AllCells(order, lists);
    assert c in order;
    k :| 0 <= k < |order| && order[k] == c;
  }

  /** A cell left out is as far as the next of the order, if not farther. */
  lemma FarCell(cells: seq<int>, cdist: int -> real, lists: nat, n: nat, d: int)
    requires NearestCells(cells, cdist, lists, n) && n < lists && 0 <= d < lists && d !in cells
    ensures n < |CellOrder(cdist, lists)| && cdist(CellOrder(cdist, lists)[n]) <= cdist(d)
  {
    CellOrderIs(cdist, lists);
    var order := CellOrder(cdist, lists);
    var k := PlaceOf(order, lists, d);
    if k < n {
      var p := LaterCell(cells, order, n, k);
      var j := PlaceOf(order, lists, p);
      NotBefore(order, p, n);
    }
  }

  /** Cells that are not the first n of the order, though as many, have one from further on. */
  lemma LaterCell(cells: seq<int>, order: seq<int>, n: nat, k: nat) returns (p: int)
    requires NoDup(cells) && |cells| == n && k < n <= |order| && NoDup(order) && order[k] !in cells
    ensures p in cells && p !in order[..n]
  {
    NoDupSize(cells);
    NoDupSize(order[..n]);
    assert order[..n][k] == order[k];
    p := Spare(Elems(cells), Elems(order[..n]) - {order[k]});
  }

  /** Then the cells of the larger probe are those of the smaller and others, however each was cut. */
  lemma NearestCellsGrow(few: seq<int>, many: seq<int>, cdist: int -> real, lists: nat, nFew: nat, nMany: nat)
    requires NearestCells(few, cdist, lists, nFew) && NearestCells(many, cdist, lists, nMany) && 1 <= nFew <= nMany
    requires ClearCut(cdist, lists, nFew, nMany)
    ensures Elems(few) <= Elems(many)
  {
    NoDupBound(many, Upto(lists));
    if nMany == lists {
      AllCells(many, lists);
    }
    forall c | c in few ensures c in many {
      NearCell(few, cdist, lists, nFew, c);
      if c !in many && nMany < lists {
        FarCell(many, cdist, lists, nMany, c);
      }
    }
  }

  /** Whatever cells tie choices give, the larger probe has those of the smaller. */
  ghost predicate AlwaysGrows(cdist: int -> real, lists: nat, nFew: nat, nMany: nat) {
    forall few, many :: NearestCells(few, cdist, lists, nFew) && NearestCells(many, cdist, lists, nMany) ==>
      Elems(few) <= Elems(many)
  }

  /** Which is so exactly with a clear cut: a distance tied across both can be cut either way. */
  lemma GrowsExactlyWhen(cdist: int -> real, lists: nat, nFew: nat, nMany: nat)
    requires 1 <= nFew <= nMany <= lists
    ensures AlwaysGrows(cdist, lists, nFew, nMany) <==> ClearCut(cdist, lists, nFew, nMany)
  {
    CellOrderIs(cdist, lists);
    if ClearCut(cdist, lists, nFew, nMany) {
      forall few, many | NearestCells(few, cdist, lists, nFew) && NearestCells(many, cdist, lists, nMany)
        ensures Elems(few) <= Elems(many)
      {
        NearestCellsGrow(few, many, cdist, lists, nFew, nMany);
      }
    } else {
      var few, many := TornCells(cdist, lists, nFew, nMany);
      assert !(Elems(few) <= Elems(many));
    }
  }

  /** A cell at the end of the smaller probe that the larger, cut at the same distance, may leave out. */
  lemma TornCells(cdist: int -> real, lists: nat, nFew: nat, nMany: nat) returns (few: seq<int>, many: seq<int>)
    requires 1 <= nFew <= nMany < lists && !ClearCut(cdist, lists, nFew, nMany)
    ensures NearestCells(few, cdist, lists, nFew) && NearestCells(many, cdist, lists, nMany)
    ensures exists c :: c in Elems(few) && c !in Elems(many)
  {
    CellOrderIs(cdist, lists);
    var order := CellOrder(cdist, lists);
    few, many := order[..nFew], order[..nMany][nFew - 1 := order[nMany]];
    FirstCells(order, cdist, lists, nFew);
    SwappedCells(order, cdist, lists, nFew - 1, nMany);
    LeftOut(few, many, nFew - 1, order[nFew - 1]);
  }

  lemma LeftOut(few: seq<int>, many: seq<int>, i: nat, c: int)
    requires i < |few| && few[i] == c && c !in many
    ensures exists c :: c in Elems(few) && c !in Elems(many)
  {
    assert few[i] in Elems(few) && few[i] !in Elems(many);
  }

  lemma FirstCells(order: seq<int>, cdist: int -> real, lists: nat, n: nat)
    requires SomeCells(order, lists) && |order| == lists && Ascending(order, cdist) && n <= lists
    ensures NearestCells(order[..n], cdist, lists, n)
  {
    forall c, d | c in order[..n] && 0 <= d < lists && d !in order[..n] ensures cdist(c) <= cdist(d) {
      var i :| 0 <= i < n && order[i] == c;
      var k := PlaceOf(order, lists, d);
      NotBefore(order, d, n);
    }
  }

  /** A cell of the first n may give way to the next of the order if they are as far. */
  lemma SwappedCells(order: seq<int>, cdist: int -> real, lists: nat, i: nat, n: nat)
    requires SomeCells(order, lists) && |order| == lists && Ascending(order, cdist) && i < n < lists
    requires cdist(order[i]) == cdist(order[n])
    ensures var swapped := order[..n][i := order[n]]; NearestCells(swapped, cdist, lists, n) && order[i] !in swapped
  {
    var swapped := order[..n][i := order[n]];
    forall j | 0 <= j < n && j != i ensures order[j] in swapped {
      assert swapped[j] == order[j];
    }
    forall c, d | c in swapped && 0 <= d < lists && d !in swapped ensures cdist(c) <= cdist(d) {
      var j :| 0 <= j < n && swapped[j] == c;
      var k := PlaceOf(order, lists, d);
      assert cdist(c) <= cdist(order[n]) <= cdist(d);
    }
  }

  lemma AllCells(cells: seq<int>, lists: nat)
    requires SomeCells(cells, lists) && |cells| == lists
    ensures forall c :: 0 <= c < lists ==> c in cells
  {
    NoDupBound(cells, Upto(lists));
    forall c | 0 <= c < lists ensures c in cells {
      assert c in Elems(cells);
    }
  }

  /** The rows of more probes include those of fewer: always under a filter, otherwise with a clear cut. */
  lemma MoreProbesMoreRows(walkedFew: seq<int>, walkedMany: seq<int>, offsets: seq<int>, cdist: int -> real, lists: nat,
                           n: nat, k: nat, nFew: nat, nMany: nat, mask: Mask)
    requires CutIntoCells(offsets, lists, n) && 0 < k && 1 <= nFew <= nMany
    requires mask.Some? || ClearCut(cdist, lists, nFew, nMany)
    requires Walks(walkedFew, offsets, cdist, lists, k, nFew, mask)
    requires Walks(walkedMany, offsets, cdist, lists, k, nMany, mask)
    ensures Elems(Collected(offsets, mask, walkedFew)) <= Elems(Collected(offsets, mask, walkedMany))
  {
    if mask.Some? {
      var order := CellOrder(cdist, lists);
      CellOrderIs(cdist, lists);
      StopsLater(offsets, mask, order, k, nFew, nMany, |walkedFew|, |walkedMany|);
      CollectedPrefix(offsets, lists, n, mask, order, |walkedFew|, |walkedMany|);
    } else {
      NearestCellsGrow(walkedFew, walkedMany, cdist, lists, nFew, nMany);
      CollectedRows(offsets, lists, n, mask, walkedFew);
      CollectedRows(offsets, lists, n, mask, walkedMany);
      forall r | r in Collected(offsets, mask, walkedFew) ensures r in Collected(offsets, mask, walkedMany) {
        var c :| c in walkedFew && InCell(offsets, c, r);
        assert c in Elems(walkedFew);
        assert c in walkedMany;
      }
    }
  }

  /** No answered distance grows when nprobe does, and under a filter no more rows are answered. */
  lemma MoreProbesNoFarther(few: seq<int>, many: seq<int>, walkedFew: seq<int>, walkedMany: seq<int>, offsets: seq<int>,
                            cdist: int -> real, dist: int -> real, lists: nat, n: nat, k: nat, nFew: nat, nMany: nat,
                            mask: Mask)
    requires CutIntoCells(offsets, lists, n) && 0 < k && 1 <= nFew <= nMany
    requires mask.Some? || ClearCut(cdist, lists, nFew, nMany)
    requires Walks(walkedFew, offsets, cdist, lists, k, nFew, mask)
    requires Walks(walkedMany, offsets, cdist, lists, k, nMany, mask)
    requires KNearest(few, Elems(Collected(offsets, mask, walkedFew)), dist, k)
    requires KNearest(many, Elems(Collected(offsets, mask, walkedMany)), dist, k)
    ensures |few| <= |many| && (mask.Some? ==> |few| == |many|)
    ensures forall i :: 0 <= i < |few| ==> dist(many[i]) <= dist(few[i])
  {
    var small, large := Elems(Collected(offsets, mask, walkedFew)), Elems(Collected(offsets, mask, walkedMany));
    MoreProbesMoreRows(walkedFew, walkedMany, offsets, cdist, lists, n, k, nFew, nMany, mask);
    SubsetSize(small, large);
    if mask.Some? {
      FilteredPool(walkedFew, offsets, cdist, lists, n, k, nFew, mask);
      FilteredPool(walkedMany, offsets, cdist, lists, n, k, nMany, mask);
    }
    forall i | 0 <= i < |few| ensures dist(many[i]) <= dist(few[i]) {
      GrowingPool(few, small, many, large, dist, k, i);
    }
  }

  /** With every cell probed the search is exact, filtered or not. */
  lemma AllProbesExact(walked: seq<int>, offsets: seq<int>, cdist: int -> real, lists: nat, n: nat, k: nat, mask: Mask)
    requires CutIntoCells(offsets, lists, n) && Walks(walked, offsets, cdist, lists, k, lists, mask)
    ensures |walked| == lists
    ensures Elems(Collected(offsets, mask, walked)) == AdmissibleIn(Upto(n), mask)
  {
    if mask.Some? {
      CellOrderIs(cdist, lists);
    }
    CollectedAll(offsets, lists, n, mask, walked);
  }

  // ------------------------------------------------------------- against the exact scan

  function Images(order: seq<int>, rows: seq<int>): (images: seq<int>)
    requires forall i :: 0 <= i < |rows| ==> 0 <= rows[i] < |order|
    ensures |images| == |rows|
  {
    seq(|rows|, i requires 0 <= i < |rows| => order[rows[i]])
  }

  /** The permuted index sees the rows of the original under new numbers. */
  ghost predicate SameRows(order: seq<int>, n: nat, dist: int -> real, dist': int -> real, mask: Mask, mask': Mask) {
    && Permutes(order, n)
    && forall p :: 0 <= p < n ==> dist'(p) == dist(order[p]) && (Admits(mask', p) <==> Admits(mask, order[p]))
  }

  lemma ImagesDistinct(order: seq<int>, n: nat, rows: seq<int>)
    requires Permutes(order, n) && NoDup(rows) && forall i :: 0 <= i < |rows| ==> 0 <= rows[i] < n
    ensures NoDup(Images(order, rows))
  {
    var images := Images(order, rows);
    forall i, j | 0 <= i < j < |images| ensures images[i] != images[j] {
      var a, b := rows[i], rows[j];
      assert a != b;
    }
  }

  /** A permutation maps a set of rows onto one of the same size. */
  lemma {:induction false} ImageSize(order: seq<int>, n: nat, a: set<int>, b: set<int>)
    requires Permutes(order, n) && (forall p :: p in a ==> 0 <= p < n) && (forall x :: x in b ==> 0 <= x < n)
    requires forall p :: 0 <= p < n ==> (p in a <==> order[p] in b)
    ensures |a| == |b|
  {
    if |b| > 0 {
      var x := Spare(b, {});
      var p := Preimage(order, n, x);
      ImageSize(order, n, a - {p}, b - {x});
    } else if |a| > 0 {
      var p := Spare(a, {});
      assert false;
    }
  }

  lemma RowsInRange(rows: seq<int>, n: nat, mask: Mask)
    requires Elems(rows) <= AdmissibleIn(Upto(n), mask)
    ensures forall i :: 0 <= i < |rows| ==> 0 <= rows[i] < n && Admits(mask, rows[i])
  {
    forall i | 0 <= i < |rows| ensures 0 <= rows[i] < n && Admits(mask, rows[i]) {
      var r := rows[i];
      assert r in Elems(rows);
    }
  }

  lemma ImagesAdmissible(order: seq<int>, n: nat, dist: int -> real, dist': int -> real, mask: Mask, mask': Mask,
                         rows: seq<int>)
    requires SameRows(order, n, dist, dist', mask, mask')
    requires forall i :: 0 <= i < |rows| ==> 0 <= rows[i] < n && Admits(mask', rows[i])
    ensures Elems(Images(order, rows)) <= AdmissibleIn(Upto(n), mask)
  {
    var images := Images(order, rows);
    forall y | y in images ensures y in AdmissibleIn(Upto(n), mask) {
      var i :| 0 <= i < |images| && images[i] == y;
      ImageAdmissible(order, n, dist, dist', mask, mask', rows[i]);
    }
  }

  lemma ImageAdmissible(order: seq<int>, n: nat, dist: int -> real, dist': int -> real, mask: Mask, mask': Mask, p: int)
    requires SameRows(order, n, dist, dist', mask, mask') && 0 <= p < n && Admits(mask', p)
    ensures order[p] in AdmissibleIn(Upto(n), mask)
  {
    assert dist'(p) == dist(order[p]);
  }

  lemma ImageIn(order: seq<int>, rows: seq<int>, p: int)
    requires (forall i :: 0 <= i < |rows| ==> 0 <= rows[i] < |order|) && p in rows
    ensures order[p] in Images(order, rows)
  {
    var i :| 0 <= i < |rows| && rows[i] == p;
    assert Images(order, rows)[i] == order[p];
  }

  /** An image is no further than the row p whose image is missing. */
  lemma ImageBeats(order: seq<int>, rows: seq<int>, dist: int -> real, dist': int -> real, y: int, p: int)
    requires forall i :: 0 <= i < |rows| ==> 0 <= rows[i] < |order| && dist'(rows[i]) == dist(order[rows[i]])
    requires 0 <= p < |order| && dist'(p) == dist(order[p]) && order[p] !in Images(order, rows)
    requires y in Images(order, rows)
    requires forall r :: r in rows && p !in rows ==> dist'(r) <= dist'(p)
    ensures dist(y) <= dist(order[p])
  {
    var i :| 0 <= i < |rows| && Images(order, rows)[i] == y;
    var r := rows[i];
    if p in rows {
      ImageIn(order, rows, p);
    }
    assert r in rows;
  }

  /** The row of the permuted index behind an admissible original row. */
  lemma AdmissiblePreimage(order: seq<int>, n: nat, dist: int -> real, dist': int -> real, mask: Mask, mask': Mask,
                           x: int)
    returns (p: int)
    requires SameRows(order, n, dist, dist', mask, mask') && x in AdmissibleIn(Upto(n), mask)
    ensures p in AdmissibleIn(Upto(n), mask') && 0 <= p < n && order[p] == x && dist'(p) == dist(x)
  {
    p := Preimage(order, n, x);
    assert dist'(p) == dist(order[p]);
  }

  /** The nearest rows of the permuted index are, by their old numbers, nearest rows of the original. */
  lemma PermutedNearest(order: seq<int>, n: nat, dist: int -> real, dist': int -> real, mask: Mask, mask': Mask,
                        rows: seq<int>, k: nat)
    requires SameRows(order, n, dist, dist', mask, mask')
    requires KNearest(rows, AdmissibleIn(Upto(n), mask'), dist', k)
    ensures forall i :: 0 <= i < |rows| ==> 0 <= rows[i] < n
    ensures KNearest(Images(order, rows), AdmissibleIn(Upto(n), mask), dist, k)
    ensures DistancesOf(Images(order, rows), dist) == DistancesOf(rows, dist')
  {
    RowsInRange(rows, n, mask');
    assert |AdmissibleIn(Upto(n), mask')| == |AdmissibleIn(Upto(n), mask)| by {
      PoolsMatch(order, n, dist, dist', mask, mask');
      ImageSize(order, n, AdmissibleIn(Upto(n), mask'), AdmissibleIn(Upto(n), mask));
    }
    ImagesDistinct(order, n, rows);
    ImagesAdmissible(order, n, dist, dist', mask, mask', rows);
    forall y, x | y in Images(order, rows) && x in AdmissibleIn(Upto(n), mask) && x !in Images(order, rows)
      ensures dist(y) <= dist(x)
    {
      var p := AdmissiblePreimage(order, n, dist, dist', mask, mask', x);
      ImageBeats(order, rows, dist, dist', y, p);
    }
    ImagesNearest(order, rows, dist, dist');
  }

  lemma PoolsMatchAt(order: seq<int>, n: nat, dist: int -> real, dist': int -> real, mask: Mask, mask': Mask, p: int)
    requires SameRows(order, n, dist, dist', mask, mask') && 0 <= p < n
    ensures p in AdmissibleIn(Upto(n), mask') <==> order[p] in AdmissibleIn(Upto(n), mask)
  {
    assert dist'(p) == dist(order[p]);
  }

  lemma PoolsMatch(order: seq<int>, n: nat, dist: int -> real, dist': int -> real, mask: Mask, mask': Mask)
    requires SameRows(order, n, dist, dist', mask, mask')
    ensures forall p :: 0 <= p < n ==> (p in AdmissibleIn(Upto(n), mask') <==> order[p] in AdmissibleIn(Upto(n), mask))
  {
    forall p | 0 <= p < n
      ensures p in AdmissibleIn(Upto(n), mask') <==> order[p] in AdmissibleIn(Upto(n), mask)
    {
      PoolsMatchAt(order, n, dist, dist', mask, mask', p);
    }
  }

  lemma ImagesNearest(order: seq<int>, rows: seq<int>, dist: int -> real, dist': int -> real)
    requires forall i :: 0 <= i < |rows| ==> 0 <= rows[i] < |order| && dist'(rows[i]) == dist(order[rows[i]])
    requires Ascending(rows, dist')
    ensures Ascending(Images(order, rows), dist)
    ensures DistancesOf(Images(order, rows), dist) == DistancesOf(rows, dist')
  {
  }

  /** So a search over every cell gives the distances of the exact scan, whatever ties did. */
  lemma IvfMatchesScan(order: seq<int>, n: nat, dist: int -> real, dist': int -> real, mask: Mask, mask': Mask,
                       rows: seq<int>, scanned: seq<int>, k: nat)
    requires SameRows(order, n, dist, dist', mask, mask')
    requires KNearest(rows, AdmissibleIn(Upto(n), mask'), dist', k)
    requires KNearest(scanned, AdmissibleIn(Upto(n), mask), dist, k)
    ensures DistancesOf(rows, dist') == DistancesOf(scanned, dist)
  {
    PermutedNearest(order, n, dist, dist', mask, mask', rows, k);
    SameDistances(Images(order, rows), scanned, AdmissibleIn(Upto(n), mask), dist, k);
  }

  /** The number of cells, from what was asked for and what the index defaults to. */
  lemma ProbesAre(effort: Option<int>, default: Option<int>, lists: nat)
    requires lists > 0
    ensures var wanted := if effort.Some? && effort.value != 0 then effort.value
                          else if default.Some? && default.value != 0 then default.value
                          else if lists < 16 then 1 else lists / 16;
            Probes(effort, default, lists) == if wanted < 1 then 1 else if wanted > lists then lists else wanted
  {
  }

  /** The search of a non-empty index for k > 0 rows. */
  method SearchCells<V>(metric: (V, V) -> real, ids: seq<int>, vectors: seq<V>, centroids: seq<V>, offsets: seq<int>,
                        query: V, k: nat, probes: nat, mask: Mask)
    returns (hits: seq<Neighbor>, probed: nat, ghost rows: seq<int>, ghost walked: seq<int>)
    requires |ids| == |vectors| && CutIntoCells(offsets, |centroids|, |ids|) && 0 < k && 1 <= probes <= |centroids|
    ensures probed == |walked| && (if mask.None? then probed == probes else probed >= probes)
    ensures Walks(walked, offsets, RowDist(metric, centroids, query), |centroids|, k, probes, mask)
    ensures var dist := RowDist(metric, vectors, query);
            && KNearest(rows, Elems(Collected(offsets, mask, walked)), dist, k)
            && hits == HitsOf(rows, dist, ids) && SortedRows(rows, dist, ids)
    ensures forall i :: 0 <= i < |hits| ==>
              && 0 <= rows[i] < |ids| && Admits(mask, rows[i])
              && hits[i].id == ids[rows[i]] && hits[i].distance == metric(vectors[rows[i]], query)
  {
    var dist, cdist := RowDist(metric, vectors, query), RowDist(metric, centroids, query);
    var candidates;
    candidates, probed, walked := Candidates(offsets, cdist, |centroids|, k, probes, mask);
    CollectedRows(offsets, |centroids|, |ids|, mask, walked);
    CollectedInRange(offsets, |centroids|, |ids|, mask, walked);
    var found := TopOf(candidates, dist, ids, k);
    rows := found;
    hits := HitsOf(found, dist, ids);
    HitsAnswer(rows, Elems(candidates), dist, ids, k);
  }

  // ------------------------------------------------------------- the index

  class IvfFlatIndex<V> {
    const metric: (V, V) -> real
    const defaultProbe: Option<int>
    var ids: seq<int>
    var vectors: seq<V>
    var centroids: seq<V>
    var offsets: seq<int>
    var lastProbes: nat

    constructor (metric: (V, V) -> real, defaultProbe: Option<int>)
      ensures this.metric == metric && this.defaultProbe == defaultProbe && ids == [] && vectors == [] && Valid()
    {
      this.metric, this.defaultProbe := metric, defaultProbe;
      ids, vectors, centroids, offsets, lastProbes := [], [], [], [0], 0;
    }

    /** Consecutive cells, each row in the cell of a nearest centroid. */
    ghost predicate Valid()
      reads this
    {
      && |ids| == |vectors|
      && (ids != [] ==>
            && centroids != [] && CutIntoCells(offsets, |centroids|, |ids|)
            && forall c, r :: 0 <= r < |ids| && InCell(offsets, c, r) ==> NearestCell(metric, vectors[r], centroids, c))
    }

    /** `build`: `centroids` is what k-means returned; `order` is the permutation applied to the rows. */
    method Build(ids: seq<int>, vectors: seq<V>, centroids: seq<V>) returns (ok: bool, ghost order: seq<int>)
      requires centroids != []
      modifies this
      ensures ok <==> |ids| == |vectors|
      ensures !ok ==> unchanged(this)
      ensures ok ==> Valid() && Permutes(order, |ids|) && |this.ids| == |ids|
      ensures ok ==> this.centroids == if ids == [] then old(this.centroids) else centroids
      ensures ok ==> forall p :: 0 <= p < |ids| ==>
                this.ids[p] == ids[order[p]] && this.vectors[p] == vectors[order[p]]
    {
      order := [];
      if |ids| != |vectors| {
        return false, order;
      }
      if |ids| == 0 {
        this.ids, this.vectors := ids, vectors;
        return true, order;
      }
      var labels := Assign(metric, vectors, centroids, 8192);
      var o := ArgSortStable(labels);
      order := o;
      var sortedLabels := seq(|o|, p requires 0 <= p < |o| => labels[o[p]]);
      this.centroids := centroids;
      this.vectors := seq(|o|, p requires 0 <= p < |o| => vectors[o[p]]);
      this.ids := seq(|o|, p requires 0 <= p < |o| => ids[o[p]]);
      forall p, q | 0 <= p < q < |o| ensures sortedLabels[p] <= sortedLabels[q] {
        assert LabelBefore(labels, o[p], o[q]);
      }
      offsets := SearchSorted(sortedLabels, |centroids|);
      forall p | 0 <= p < |o| ensures NearestCell(metric, this.vectors[p], centroids, sortedLabels[p]) {
        assert NearestCell(metric, vectors[o[p]], centroids, labels[o[p]]);
      }
      SlicesPartition(offsets, sortedLabels, |centroids|);
      ok := true;
    }

    /** `search`: `walked` are the cells scanned, in the order the filtered search met them. */
    method Search(query: V, k: int, effort: Option<int>, mask: Mask)
      returns (hits: seq<Neighbor>, ghost rows: seq<int>, ghost walked: seq<int>)
      requires Valid()
      modifies `lastProbes
      ensures ids == [] || k <= 0 ==> hits == [] && lastProbes == old(lastProbes)
      ensures ids != [] && k > 0 ==>
                var dist := RowDist(metric, vectors, query);
                && lastProbes == |walked| && SomeCells(walked, |offsets| - 1)
                && KNearest(rows, Elems(Collected(offsets, mask, walked)), dist, Min(k, |ids|))
                && hits == HitsOf(rows, dist, ids) && SortedRows(rows, dist, ids)
      ensures ids != [] && k > 0 ==>
                var wanted := if effort.Some? && effort.value != 0 then effort.value
                              else if defaultProbe.Some? && defaultProbe.value != 0 then defaultProbe.value
                              else if |centroids| < 16 then 1 else |centroids| / 16;
                var probes := if wanted < 1 then 1 else if wanted > |centroids| then |centroids| else wanted;
                && Walks(walked, offsets, RowDist(metric, centroids, query), |centroids|, Min(k, |ids|), probes, mask)
                && (if mask.None? then lastProbes == probes else lastProbes >= probes)
      ensures forall i :: 0 <= i < |hits| ==>
                && 0 <= rows[i] < |ids| && (mask.Some? ==> rows[i] < |mask.value| && mask.value[rows[i]])
                && hits[i].id == ids[rows[i]] && hits[i].distance == metric(vectors[rows[i]], query)
      ensures forall i, j :: 0 <= i < j < |hits| ==>
                || hits[i].distance < hits[j].distance
                || (hits[i].distance == hits[j].distance && hits[i].id <= hits[j].id)
    {
      rows, walked := [], [];
      if |ids| == 0 || k <= 0 {
        return [], rows, walked;
      }
      var probes := Probes(effort, defaultProbe, |centroids|);
      ProbesAre(effort, defaultProbe, |centroids|);
      hits, lastProbes, rows, walked :=
        SearchCells(metric, ids, vectors, centroids, offsets, query, Min(k, |ids|), probes, mask);
      HitsInOrder(rows, RowDist(metric, vectors, query), ids);
    }
  }
}
