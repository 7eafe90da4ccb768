/**
 What "the k nearest rows" means, independently of any index: the relation the exact scan
 meets and every other index is measured against.
 */
module Nearest {
  import opened Seqs

  /** `rows` lists k rows of `pool` (all of them, if there are fewer), nearest first. */
  ghost predicate KNearest(rows: seq<int>, pool: set<int>, dist: int -> real, k: nat) {
    && NoDup(rows)
    && Elems(rows) <= pool
    && |rows| == Min(k, |pool|)
    && Ascending(rows, dist)
    && (forall r, x :: r in rows && x in pool && x !in rows ==> dist(r) <= dist(x))
  }

  ghost predicate Ascending(rows: seq<int>, dist: int -> real) {
    forall i, j :: 0 <= i < j < |rows| ==> dist(rows[i]) <= dist(rows[j])
  }

  /**
   The i-th nearest distance can only shrink when the pool grows: of the i + 1 nearest rows of
   the small pool one is not among the i nearest of the large pool, and it bounds the latter.
   */
  lemma GrowingPool(few: seq<int>, small: set<int>, many: seq<int>, large: set<int>, dist: int -> real, k: nat, i: nat)
    requires small <= large && KNearest(few, small, dist, k) && KNearest(many, large, dist, k)
    requires i < |few|
    ensures i < |many| && dist(many[i]) <= dist(few[i])
  {
    SubsetSize(small, large);
    var a, b := few[..i + 1], many[..i];
    assert NoDup(a) && NoDup(b);
    NoDupSize(a);
    NoDupSize(b);
    var x := Spare(Elems(a), Elems(b));
    var at :| 0 <= at < |a| && a[at] == x;
    assert few[at] == x && x in Elems(few);
    NotBefore(many, x, i);
    if x in many {
      var p :| 0 <= p < |many| && many[p] == x;
      assert i == p || dist(many[i]) <= dist(many[p]);
    } else {
      NotAll(many, small, large, x, k);
      var r := many[i];
      assert r in many && x in large && dist(r) <= dist(x);
    }
    assert dist(many[i]) <= dist(x);
    assert at == i || dist(few[at]) <= dist(few[i]);
  }

  /** A nearest list that misses a row of its pool is full. */
  lemma NotAll(many: seq<int>, small: set<int>, large: set<int>, x: int, k: nat)
    requires NoDup(many) && Elems(many) <= large && |many| == Min(k, |large|) && x in large && x !in many
    ensures |many| == k
  {
    NoDupBound(many, large);
    assert x !in Elems(many);
  }

  /** The list of distances of the k nearest rows is unique, however ties are broken. */
  lemma SameDistances(a: seq<int>, b: seq<int>, pool: set<int>, dist: int -> real, k: nat)
    requires KNearest(a, pool, dist, k) && KNearest(b, pool, dist, k)
    ensures DistancesOf(a, dist) == DistancesOf(b, dist)
  {
    forall i | 0 <= i < |a| ensures dist(a[i]) == dist(b[i]) {
      GrowingPool(a, pool, b, pool, dist, k, i);
      GrowingPool(b, pool, a, pool, dist, k, i);
    }
  }

  function DistancesOf(rows: seq<int>, dist: int -> real): (ds: seq<real>)
    ensures |ds| == |rows| && forall i :: 0 <= i < |ds| ==> ds[i] == dist(rows[i])
  {
    seq(|rows|, i requires 0 <= i < |rows| => dist(rows[i]))
  }

  /** A prefix of a nearest list is the nearest list for fewer rows. */
  lemma NearestPrefix(rows: seq<int>, pool: set<int>, dist: int -> real, k: nat, j: nat)
    requires KNearest(rows, pool, dist, k) && j <= |rows|
    ensures KNearest(rows[..j], pool, dist, j)
  {
    forall r, x | r in rows[..j] && x in pool && x !in rows[..j] ensures dist(r) <= dist(x) {
      var at :| 0 <= at < j && rows[at] == r;
      NotBefore(rows, x, j);
      if x in rows {
        var p :| 0 <= p < |rows| && rows[p] == x;
        assert dist(rows[at]) <= dist(rows[p]);
      } else {
        assert r in rows;
      }
    }
  }

  // ---------------------------------------------------------- sorting rows

  /** The external id of a row. */
  function IdOf(ids: seq<int>, row: int): int {
    if 0 <= row < |ids| then ids[row] else 0
  }

  /** The order of `(distance, external id)`. */
  predicate RowLe(dist: int -> real, ids: seq<int>, a: int, b: int) {
    dist(a) < dist(b) || (dist(a) == dist(b) && IdOf(ids, a) <= IdOf(ids, b))
  }

  function InsertRow(rows: seq<int>, x: int, dist: int -> real, ids: seq<int>): seq<int> {
    if rows == [] || RowLe(dist, ids, x, rows[0]) then [x] + rows
    else [rows[0]] + InsertRow(rows[1..], x, dist, ids)
  }

  /** `sort(key=(distance, id))`, `np.lexsort((ids, distances))` */
  function SortRows(rows: seq<int>, dist: int -> real, ids: seq<int>): seq<int> {
    if rows == [] then [] else InsertRow(SortRows(rows[1..], dist, ids), rows[0], dist, ids)
  }

  ghost predicate SortedRows(rows: seq<int>, dist: int -> real, ids: seq<int>) {
    forall i, j :: 0 <= i < j < |rows| ==> RowLe(dist, ids, rows[i], rows[j])
  }

  lemma {:induction false} InsertRowSorted(rows: seq<int>, x: int, dist: int -> real, ids: seq<int>)
    requires SortedRows(rows, dist, ids)
    ensures SortedRows(InsertRow(rows, x, dist, ids), dist, ids)
    ensures multiset(InsertRow(rows, x, dist, ids)) == multiset(rows) + multiset{x}
  {
    if rows == [] || RowLe(dist, ids, x, rows[0]) {
      assert [x] + rows == InsertRow(rows, x, dist, ids);
    } else {
      var rest := rows[1..];
      InsertRowSorted(rest, x, dist, ids);
      var t := InsertRow(rest, x, dist, ids);
      assert rows == [rows[0]] + rest;
      forall i | 0 <= i < |t| ensures RowLe(dist, ids, rows[0], t[i]) {
        var y := t[i];
        assert y in multiset(t);
        assert y == x || y in rest;
      }
    }
  }

  /** The sort returns the same rows in `(distance, id)` order. */
  lemma {:induction false} SortRowsSorted(rows: seq<int>, dist: int -> real, ids: seq<int>)
    ensures SortedRows(SortRows(rows, dist, ids), dist, ids)
    ensures multiset(SortRows(rows, dist, ids)) == multiset(rows)
  {
    if rows != [] {
      SortRowsSorted(rows[1..], dist, ids);
      InsertRowSorted(SortRows(rows[1..], dist, ids), rows[0], dist, ids);
      assert rows == [rows[0]] + rows[1..];
    }
  }

  /** Sorting a best-k choice of rows gives the nearest list. */
  lemma SortedChoice(choice: seq<int>, pool: set<int>, dist: int -> real, ids: seq<int>, k: nat)
    requires NoDup(choice) && Elems(choice) <= pool && |choice| == Min(k, |pool|)
    requires forall r, x :: r in choice && x in pool && x !in choice ==> dist(r) <= dist(x)
    ensures KNearest(SortRows(choice, dist, ids), pool, dist, k)
  {
    var rows := SortRows(choice, dist, ids);
    SortRowsSorted(choice, dist, ids);
    SameMembers(choice, rows);
    assert forall x :: x in rows <==> x in Elems(rows);
    assert forall x :: x in choice <==> x in Elems(choice);
  }

  lemma SameMembers(a: seq<int>, b: seq<int>)
    requires multiset(a) == multiset(b)
    ensures |a| == |b| && Elems(a) == Elems(b)
    ensures NoDup(a) ==> NoDup(b)
  {
    assert |a| == |multiset(a)| == |multiset(b)| == |b|;
    forall x ensures x in a <==> x in b {
      assert x in a <==> x in multiset(a);
      assert x in b <==> x in multiset(b);
    }
    if NoDup(a) {
      NoDupSize(a);
      SizeNoDup(b);
    }
  }

  /** The first k of a sorted best-ef choice are the k nearest, for every k up to ef. */
  lemma SortedChoicePrefix(choice: seq<int>, pool: set<int>, dist: int -> real, ids: seq<int>, ef: nat, k: nat)
    requires NoDup(choice) && Elems(choice) <= pool && |choice| == Min(ef, |pool|) && k <= ef
    requires forall r, x :: r in choice && x in pool && x !in choice ==> dist(r) <= dist(x)
    ensures |SortRows(choice, dist, ids)| == |choice|
    ensures KNearest(SortRows(choice, dist, ids)[..Min(k, |choice|)], pool, dist, k)
    ensures SortedRows(SortRows(choice, dist, ids)[..Min(k, |choice|)], dist, ids)
  {
    SortedChoice(choice, pool, dist, ids, ef);
    SortRowsSorted(choice, dist, ids);
    SameMembers(choice, SortRows(choice, dist, ids));
    NearestPrefix(SortRows(choice, dist, ids), pool, dist, ef, Min(k, |choice|));
  }

  // ---------------------------------------------------------- hits

  datatype Neighbor = Neighbor(id: int, distance: real)

  function HitsOf(rows: seq<int>, dist: int -> real, ids: seq<int>): (hits: seq<Neighbor>)
    ensures |hits| == |rows|
    ensures forall i :: 0 <= i < |rows| && 0 <= rows[i] < |ids| ==> hits[i] == Neighbor(ids[rows[i]], dist(rows[i]))
  {
    seq(|rows|, i requires 0 <= i < |rows| => Neighbor(IdOf(ids, rows[i]), dist(rows[i])))
  }

  /** What hits say of their rows: ids and distances, and that no row of the pool left out is nearer. */
  lemma HitsAnswer(rows: seq<int>, pool: set<int>, dist: int -> real, ids: seq<int>, k: nat)
    requires KNearest(rows, pool, dist, k) && forall x :: x in pool ==> 0 <= x < |ids|
    ensures forall i :: 0 <= i < |rows| ==>
              && 0 <= rows[i] < |ids| && rows[i] in pool
              && HitsOf(rows, dist, ids)[i] == Neighbor(ids[rows[i]], dist(rows[i]))
    ensures forall i, x :: 0 <= i < |rows| && x in pool && x !in rows ==> HitsOf(rows, dist, ids)[i].distance <= dist(x)
  {
    forall i | 0 <= i < |rows| ensures rows[i] in pool {
      var r := rows[i];
      assert r in Elems(rows);
    }
  }

  /** Hits come by distance, and at one distance by id. */
  lemma HitsInOrder(rows: seq<int>, dist: int -> real, ids: seq<int>)
    requires SortedRows(rows, dist, ids)
    ensures var hits := HitsOf(rows, dist, ids);
            forall i, j :: 0 <= i < j < |hits| ==>
              hits[i].distance < hits[j].distance || (hits[i].distance == hits[j].distance && hits[i].id <= hits[j].id)
  {
  }

  function Distances(hits: seq<Neighbor>): (ds: seq<real>)
    ensures |ds| == |hits| && forall i :: 0 <= i < |ds| ==> ds[i] == hits[i].distance
  {
    seq(|hits|, i requires 0 <= i < |hits| => hits[i].distance)
  }

  /** Any two answers that list the k nearest rows of one pool agree on the distances. */
  lemma SameHitDistances(a: seq<int>, b: seq<int>, pool: set<int>, dist: int -> real, k: nat, ids: seq<int>,
                         ids': seq<int>)
    requires KNearest(a, pool, dist, k) && KNearest(b, pool, dist, k)
    ensures Distances(HitsOf(a, dist, ids)) == Distances(HitsOf(b, dist, ids'))
  {
    SameDistances(a, b, pool, dist, k);
    forall i | 0 <= i < |a| ensures dist(a[i]) == dist(b[i]) {
      assert DistancesOf(a, dist)[i] == DistancesOf(b, dist)[i];
    }
  }
}
