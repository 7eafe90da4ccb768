/**
 The exact scan (`BruteForceIndex`) and numpy's partial selection, which leaves open which rows
 are taken when distances tie at the cut.
 */
module Brute {
  import opened Seqs
  import opened LayerSearch
  import opened UnionFind
  import opened Nearest

  /** A distance, or the +inf that masks an inadmissible row. */
  type Key = Option<real>

  predicate KeyLe(a: Key, b: Key) {
    b.None? || (a.Some? && a.value <= b.value)
  }

  ghost predicate Least(keys: seq<Key>, picked: seq<int>) {
    forall i, j :: i in picked && 0 <= i < |keys| && 0 <= j < |keys| && j !in picked ==> KeyLe(keys[i], keys[j])
  }

  /** `np.argpartition(keys, k - 1)[:k]`: some k positions that hold the k least keys. */
  method ArgPartition(keys: seq<Key>, k: nat) returns (picked: seq<int>)
    requires k <= |keys|
    ensures NoDup(picked) && |picked| == k && forall i :: i in picked ==> 0 <= i < |keys|
    ensures Least(keys, picked)
  {
    picked := [];
    while |picked| < k
      invariant NoDup(picked) && |picked| <= k && forall i :: i in picked ==> 0 <= i < |keys|
      invariant Least(keys, picked)
    {
      var best := NextLeast(keys, picked);
      picked := picked + [best];
    }
  }

  /** A least key among the positions not picked yet. */
  method NextLeast(keys: seq<Key>, picked: seq<int>) returns (best: int)
    requires |picked| < |keys| && forall i :: i in picked ==> 0 <= i < |keys|
    ensures 0 <= best < |keys| && best !in picked
    ensures forall j :: 0 <= j < |keys| && j !in picked ==> KeyLe(keys[best], keys[j])
  {
    ghost var spare := SomeSpare(|keys|, picked);
    best := 0;
    while best in picked
      invariant 0 <= best <= spare && forall j :: 0 <= j < best ==> j in picked
      decreases spare - best
    {
      best := best + 1;
    }
    for i := best + 1 to |keys|
      invariant 0 <= best < i && best !in picked
      invariant forall j :: 0 <= j < i && j !in picked ==> KeyLe(keys[best], keys[j])
    {
      if i !in picked && !KeyLe(keys[best], keys[i]) {
        best := i;
      }
    }
  }

  lemma SomeSpare(n: nat, picked: seq<int>) returns (spare: int)
    requires |picked| < n
    ensures 0 <= spare < n && spare !in picked
  {
    SizeNoDup(picked);
    spare := Spare(Upto(n), Elems(picked));
  }

  function RowDist<V>(metric: (V, V) -> real, vectors: seq<V>, query: V): int -> real {
    (i: int) => if 0 <= i < |vectors| then metric(vectors[i], query) else 0.0
  }

  /** `compile_mask`: which rows carry an admissible external id. */
  function CompileMask(ids: seq<int>, admissible: set<int>): (mask: seq<bool>)
    ensures |mask| == |ids| && forall i :: 0 <= i < |ids| ==> mask[i] == (ids[i] in admissible)
  {
    seq(|ids|, i requires 0 <= i < |ids| => ids[i] in admissible)
  }

  /** `np.count_nonzero(admissible)` */
  method CountAdmissible(mask: seq<bool>) returns (count: nat)
    ensures count == |AdmissibleIn(Upto(|mask|), Some(mask))|
  {
    count := 0;
    ghost var met: set<int> := {};
    for i := 0 to |mask|
      invariant met == AdmissibleIn(Upto(i), Some(mask)) && count == |met|
    {
      UptoNext(i);
      if mask[i] {
        met := met + {i};
        count := count + 1;
      }
    }
  }

  /** The distance vector, with +inf on the inadmissible rows. */
  function Masked(n: nat, dist: int -> real, mask: Mask): (keys: seq<Key>)
    ensures |keys| == n
    ensures forall i :: 0 <= i < n ==> keys[i] == if Admits(mask, i) then Some(dist(i)) else None
  {
    seq(n, i requires 0 <= i < n => if Admits(mask, i) then Some(dist(i)) else None)
  }

  /** If at most as many rows are picked as are admissible, none of those picked is masked. */
  lemma NoneMasked(n: nat, dist: int -> real, mask: Mask, picked: seq<int>, r: int)
    requires NoDup(picked) && (forall i :: i in picked ==> 0 <= i < n) && Least(Masked(n, dist, mask), picked)
    requires |picked| <= |AdmissibleIn(Upto(n), mask)| && r in picked
    ensures r in AdmissibleIn(Upto(n), mask)
  {
    var pool, keys := AdmissibleIn(Upto(n), mask), Masked(n, dist, mask);
    NoDupSize(picked);
    assert r in Elems(picked);
    var x := Spare(pool, Elems(picked) - {r});
    if x != r {
      assert x !in picked;
      assert KeyLe(keys[r], keys[x]);
    }
  }

  lemma PickedAdmissible(n: nat, dist: int -> real, mask: Mask, picked: seq<int>)
    requires NoDup(picked) && (forall i :: i in picked ==> 0 <= i < n) && Least(Masked(n, dist, mask), picked)
    requires |picked| <= |AdmissibleIn(Upto(n), mask)|
    ensures Elems(picked) <= AdmissibleIn(Upto(n), mask)
    ensures forall r, x :: r in picked && x in AdmissibleIn(Upto(n), mask) && x !in picked ==> dist(r) <= dist(x)
  {
    var pool, keys := AdmissibleIn(Upto(n), mask), Masked(n, dist, mask);
    forall r | r in picked ensures r in pool {
      NoneMasked(n, dist, mask, picked, r);
    }
    forall r, x | r in picked && x in pool && x !in picked ensures dist(r) <= dist(x) {
      assert KeyLe(keys[r], keys[x]);
    }
  }

  class BruteForceIndex<V> {
    const metric: (V, V) -> real
    var ids: seq<int>
    var vectors: seq<V>

    constructor (metric: (V, V) -> real)
      ensures this.metric == metric && ids == [] && vectors == []
    {
      this.metric, ids, vectors := metric, [], [];
    }

    method Build(ids: seq<int>, vectors: seq<V>) returns (ok: bool)
      modifies this
      ensures ok <==> |ids| == |vectors|
      ensures if ok then this.ids == ids && this.vectors == vectors else unchanged(this)
    {
      ok := |ids| == |vectors|;
      if ok {
        this.ids, this.vectors := ids, vectors;
      }
    }

    /** `search`: the k nearest admissible rows, exactly, in (distance, id) order. */
    method Search(query: V, k: int, mask: Mask) returns (hits: seq<Neighbor>, ghost rows: seq<int>)
      requires |ids| == |vectors| && (mask.Some? ==> |mask.value| == |ids|)
      ensures hits == HitsOf(rows, RowDist(metric, vectors, query), ids)
      ensures if k <= 0 then rows == []
              else KNearest(rows, AdmissibleIn(Upto(|ids|), mask), RowDist(metric, vectors, query), k)
      ensures SortedRows(rows, RowDist(metric, vectors, query), ids)
      ensures forall i :: 0 <= i < |hits| ==>
                && 0 <= rows[i] < |ids| && (mask.Some? ==> mask.value[rows[i]])
                && hits[i].id == ids[rows[i]] && hits[i].distance == metric(vectors[rows[i]], query)
      ensures forall i, x :: 0 <= i < |hits| && 0 <= x < |ids| && (mask.Some? ==> mask.value[x]) && x !in rows ==>
                hits[i].distance <= metric(vectors[x], query)
      ensures forall i, j :: 0 <= i < j < |hits| ==>
                || hits[i].distance < hits[j].distance
                || (hits[i].distance == hits[j].distance && hits[i].id <= hits[j].id)
    {
      rows := [];
      ghost var dist := RowDist(metric, vectors, query);
      if |ids| == 0 || k <= 0 {
        return [], rows;
      }
      hits, rows := Scan(ids, RowDist(metric, vectors, query), k, mask);
      ScanAnswers(rows, metric, vectors, query, ids, mask, k);
      HitsInOrder(rows, dist, ids);
    }
  }

  /** What the nearest admissible rows are, in the terms of a query. */
  lemma ScanAnswers<V>(rows: seq<int>, metric: (V, V) -> real, vectors: seq<V>, query: V, ids: seq<int>,
                       mask: Mask, k: nat)
    requires |ids| == |vectors| && (mask.Some? ==> |mask.value| == |ids|)
    requires KNearest(rows, AdmissibleIn(Upto(|ids|), mask), RowDist(metric, vectors, query), k)
    ensures var hits := HitsOf(rows, RowDist(metric, vectors, query), ids);
            && (forall i :: 0 <= i < |hits| ==>
                  && 0 <= rows[i] < |ids| && (mask.Some? ==> mask.value[rows[i]])
                  && hits[i].id == ids[rows[i]] && hits[i].distance == metric(vectors[rows[i]], query))
            && (forall i, x :: 0 <= i < |hits| && 0 <= x < |ids| && (mask.Some? ==> mask.value[x]) && x !in rows ==>
                  hits[i].distance <= metric(vectors[x], query))
  {
    var pool, dist := AdmissibleIn(Upto(|ids|), mask), RowDist(metric, vectors, query);
    HitsAnswer(rows, pool, dist, ids, k);
    forall i, x | 0 <= i < |rows| && 0 <= x < |ids| && (mask.Some? ==> mask.value[x]) && x !in rows
      ensures dist(rows[i]) <= dist(x)
    {
      assert x in pool;
    }
  }

  method Scan(ids: seq<int>, dist: int -> real, k: nat, mask: Mask) returns (hits: seq<Neighbor>, ghost rows: seq<int>)
    requires 0 < k && 0 < |ids| && (mask.Some? ==> |mask.value| == |ids|)
    ensures hits == HitsOf(rows, dist, ids)
    ensures KNearest(rows, AdmissibleIn(Upto(|ids|), mask), dist, k) && SortedRows(rows, dist, ids)
  {
    var keys, take := Masked(|ids|, dist, mask), 0;
    ghost var pool := AdmissibleIn(Upto(|ids|), mask);
    if mask.Some? {
      var available := CountAdmissible(mask.value);
      if available == 0 {
        return [], [];
      }
      take := Min(k, available);
    } else {
      assert pool == Upto(|ids|);
      take := Min(k, |ids|);
    }
    SubsetSize(pool, Upto(|ids|));
    var picked := ArgPartition(keys, take);
    PickedAdmissible(|ids|, dist, mask, picked);
    SortedChoicePrefix(picked, pool, dist, ids, k, k);
    var order := SortRows(picked, dist, ids);
    assert order[..Min(k, |picked|)] == order;
    rows := order;
    hits := HitsOf(order, dist, ids);
  }
}
