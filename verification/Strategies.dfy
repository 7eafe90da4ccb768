/** Post-filtering over the exact scan (`post_filter_search`): fetch, discard, keep k. */
module Strategies {
  import opened Seqs
  import opened LayerSearch
  import opened UnionFind
  import opened Nearest
  import opened Brute

  /** `[n for n in raw if n.id in admissible.ids]` */
  function KeepHits(raw: seq<Neighbor>, admissible: set<int>): seq<Neighbor> {
    if raw == [] then []
    else (if raw[0].id in admissible then [raw[0]] else []) + KeepHits(raw[1..], admissible)
  }

  ghost function KeepRows(rows: seq<int>, mask: Mask): (kept: seq<int>)
    ensures forall r :: r in kept <==> r in rows && Admits(mask, r)
  {
    if rows == [] then []
    else (if Admits(mask, rows[0]) then [rows[0]] else []) + KeepRows(rows[1..], mask)
  }

  /** Over-fetching never asks for fewer than k; asking for fewer than none is asking for none. */
  function Fetch(k: int, overfetch: int): nat {
    Max(0, Max(k * overfetch, k))
  }

  /** `post_filter_search` on the exact index; `raw` are the rows behind the unfiltered fetch. */
  method PostFilterSearch<V>(index: BruteForceIndex<V>, query: V, k: int, admissible: set<int>, overfetch: int)
    returns (hits: seq<Neighbor>, ghost raw: seq<int>)
    requires |index.ids| == |index.vectors|
    ensures var dist, mask := RowDist(index.metric, index.vectors, query), Some(CompileMask(index.ids, admissible));
            && KNearest(raw, Upto(|index.ids|), dist, Max(0, Max(k * overfetch, k)))
            && hits == HitsOf(PostRows(raw, mask, k), dist, index.ids)
  {
    var fetched;
    fetched, raw := index.Search(query, Fetch(k, overfetch), None);
    assert AdmissibleIn(Upto(|index.ids|), None) == Upto(|index.ids|);
    var kept := KeepHits(fetched, admissible);
    ghost var dist := RowDist(index.metric, index.vectors, query);
    ghost var mask := Some(CompileMask(index.ids, admissible));
    forall i | 0 <= i < |raw| ensures 0 <= raw[i] < |index.ids| {
      assert raw[i] in Elems(raw);
    }
    KeptAlike(raw, dist, index.ids, admissible, mask);
    hits := kept[..SliceTo(|kept|, k)];
    PrefixHits(KeepRows(raw, mask), dist, index.ids, SliceTo(|kept|, k));
  }

  /** The rows a post-filtered fetch answers. */
  ghost function PostRows(raw: seq<int>, mask: Mask, k: int): seq<int> {
    var kept := KeepRows(raw, mask);
    kept[..SliceTo(|kept|, k)]
  }

  lemma PrefixHits(rows: seq<int>, dist: int -> real, ids: seq<int>, j: nat)
    requires j <= |rows|
    ensures HitsOf(rows, dist, ids)[..j] == HitsOf(rows[..j], dist, ids)
  {
  }

  /** Filtering hits by id is filtering rows by the compiled mask. */
  lemma {:induction false} KeptAlike(rows: seq<int>, dist: int -> real, ids: seq<int>, admissible: set<int>, mask: Mask)
    requires mask == Some(CompileMask(ids, admissible)) && forall i :: 0 <= i < |rows| ==> 0 <= rows[i] < |ids|
    ensures KeepHits(HitsOf(rows, dist, ids), admissible) == HitsOf(KeepRows(rows, mask), dist, ids)
  {
    if rows != [] {
      var hits := HitsOf(rows, dist, ids);
      assert hits[1..] == HitsOf(rows[1..], dist, ids);
      KeptAlike(rows[1..], dist, ids, admissible, mask);
      var rest := KeepRows(rows[1..], mask);
      assert HitsOf([rows[0]] + rest, dist, ids) == [hits[0]] + HitsOf(rest, dist, ids);
    }
  }

  lemma {:induction false} KeepRowsOrder(rows: seq<int>, mask: Mask, dist: int -> real)
    requires NoDup(rows) && Ascending(rows, dist)
    ensures NoDup(KeepRows(rows, mask)) && Ascending(KeepRows(rows, mask), dist)
  {
    if rows != [] {
      var rest, first := KeepRows(rows[1..], mask), rows[0];
      KeepRowsOrder(rows[1..], mask, dist);
      FirstBefore(rows, mask, dist);
      if Admits(mask, first) {
        FirstInOrder(first, rest, dist);
        assert KeepRows(rows, mask) == [first] + rest;
      } else {
        assert KeepRows(rows, mask) == [] + rest == rest;
      }
    }
  }

  lemma FirstBefore(rows: seq<int>, mask: Mask, dist: int -> real)
    requires rows != [] && NoDup(rows) && Ascending(rows, dist)
    ensures forall y :: y in KeepRows(rows[1..], mask) ==> y != rows[0] && dist(rows[0]) <= dist(y)
  {
    forall y | y in KeepRows(rows[1..], mask) ensures y != rows[0] && dist(rows[0]) <= dist(y) {
      var i :| 0 <= i < |rows[1..]| && rows[1..][i] == y;
      assert rows[i + 1] == y;
    }
  }

  lemma FirstInOrder(first: int, rest: seq<int>, dist: int -> real)
    requires NoDup(rest) && Ascending(rest, dist) && forall y :: y in rest ==> y != first && dist(first) <= dist(y)
    ensures NoDup([first] + rest) && Ascending([first] + rest, dist)
  {
    var all := [first] + rest;
    forall i, j | 0 <= i < j < |all| ensures all[i] != all[j] && dist(all[i]) <= dist(all[j]) {
      var y := all[j];
      assert y in rest;
    }
  }

  /** What post-filtering keeps are the nearest admissible rows, only possibly fewer than k. */
  lemma PostNearest(raw: seq<int>, n: nat, dist: int -> real, mask: Mask, fetch: nat, k: nat)
    requires KNearest(raw, Upto(n), dist, fetch)
    ensures var kept, pool := KeepRows(raw, mask), AdmissibleIn(Upto(n), mask);
            && KNearest(kept, pool, dist, |kept|)
            && KNearest(PostRows(raw, mask, k), pool, dist, |PostRows(raw, mask, k)|)
            && |PostRows(raw, mask, k)| == Min(k, |kept|) <= Min(k, |pool|)
            && (fetch >= n ==> |kept| == |pool|)
  {
    var kept, pool := KeepRows(raw, mask), AdmissibleIn(Upto(n), mask);
    KeepRowsOrder(raw, mask, dist);
    forall r | r in kept ensures r in pool {
      assert r in Elems(raw);
    }
    NoDupBound(kept, pool);
    if fetch >= n {
      NoDupBound(raw, Upto(n));
      assert forall r :: r in pool ==> r in Elems(raw) && r in kept;
      assert Elems(kept) == pool;
      NoDupSize(kept);
    }
    NearestPrefix(kept, pool, dist, |kept|, Min(k, |kept|));
  }

  /**
   Against the filtered scan: post-filtering answers a prefix of its distance list, and all of
   it once the fetch covers the corpus.
   */
  lemma PostFilterIsPrefix(raw: seq<int>, scanned: seq<int>, n: nat, dist: int -> real, mask: Mask, k: nat,
                           overfetch: int)
    requires KNearest(raw, Upto(n), dist, Fetch(k, overfetch))
    requires KNearest(scanned, AdmissibleIn(Upto(n), mask), dist, k)
    ensures var post := PostRows(raw, mask, k);
            && |post| <= |scanned| && DistancesOf(post, dist) == DistancesOf(scanned, dist)[..|post|]
            && (k * overfetch >= n ==> DistancesOf(post, dist) == DistancesOf(scanned, dist))
  {
    PostNearest(raw, n, dist, mask, Fetch(k, overfetch), k);
    var post, pool := PostRows(raw, mask, k), AdmissibleIn(Upto(n), mask);
    NearestPrefix(scanned, pool, dist, k, |post|);
    SameDistances(post, scanned[..|post|], pool, dist, |post|);
    assert DistancesOf(scanned[..|post|], dist) == DistancesOf(scanned, dist)[..|post|];
    assert scanned[..|scanned|] == scanned;
  }
}
