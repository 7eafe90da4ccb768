/**
 Neighbour selection (`HNSWIndex._select_neighbours`): a greedy diversity pass over the
 candidates, nearest first, and a backfill with the nearest that were passed over.
 `pair` is the distance between two nodes of the index.
 */
module Neighbours {
  import opened Seqs
  import opened Heaps
  import opened LayerSearch

  ghost predicate DistinctIds(s: seq<Scored>) {
    forall i, j :: 0 <= i < j < |s| ==> s[i].id != s[j].id
  }

  /** `c` is at least as near to the base node as to anything kept so far. */
  predicate Diverse(pair: (int, int) -> real, kept: seq<int>, c: Scored) {
    forall x :: x in kept ==> pair(x, c.id) >= c.key
  }

  function Greedy(pair: (int, int) -> real, sorted: seq<Scored>, m: nat, kept: seq<int>): seq<int> {
    if sorted == [] || |kept| >= m then kept
    else Greedy(pair, sorted[1..], m, if Diverse(pair, kept, sorted[0]) then kept + [sorted[0].id] else kept)
  }

  function Backfill(sorted: seq<Scored>, m: nat, kept: seq<int>): seq<int> {
    if sorted == [] || |kept| >= m then kept
    else Backfill(sorted[1..], m, if sorted[0].id in kept then kept else kept + [sorted[0].id])
  }

  function Selected(pair: (int, int) -> real, candidates: seq<Scored>, m: nat): seq<int>
    requires NoDup(candidates)
  {
    Backfill(Sorted(candidates), m, Greedy(pair, Sorted(candidates), m, []))
  }

  /** `_select_neighbours`, pass by pass. */
  method SelectNeighbours(pair: (int, int) -> real, candidates: seq<Scored>, m: nat) returns (kept: seq<int>)
    requires NoDup(candidates)
    ensures kept == Selected(pair, candidates, m)
  {
    var sorted := Sorted(candidates);
    kept := [];
    var i := 0;
    while i < |sorted| && |kept| < m
      invariant 0 <= i <= |sorted|
      invariant Greedy(pair, sorted[i..], m, kept) == Greedy(pair, sorted, m, [])
    {
      if kept == [] || Diverse(pair, kept, sorted[i]) {
        kept := kept + [sorted[i].id];
      }
      i := i + 1;
    }
    ghost var greedy := kept;
    if |kept| < m {
      var chosen := Elems(kept);
      i := 0;
      while i < |sorted| && |kept| < m
        invariant 0 <= i <= |sorted|
        invariant chosen == Elems(kept)
        invariant Backfill(sorted[i..], m, kept) == Backfill(sorted, m, greedy)
      {
        if sorted[i].id !in chosen {
          kept := kept + [sorted[i].id];
          chosen := chosen + {sorted[i].id};
        }
        i := i + 1;
      }
    }
  }

  // ------------------------------------------------- what the selection promises

  lemma SortedDistinct(candidates: seq<Scored>)
    requires DistinctIds(candidates)
    ensures NoDup(candidates) && DistinctIds(Sorted(candidates))
  {
    forall i, j | 0 <= i < j < |candidates| ensures candidates[i] != candidates[j] {
      assert candidates[i].id != candidates[j].id;
    }
    var s := Sorted(candidates);
    forall i, j | 0 <= i < j < |s| ensures s[i].id != s[j].id {
      var a, b := s[i], s[j];
      assert Before(a, b) && a in s && b in s;
      var p :| 0 <= p < |candidates| && candidates[p] == a;
      var q :| 0 <= q < |candidates| && candidates[q] == b;
      assert p != q;
    }
  }

  /** The greedy pass only appends, and only candidates. */
  lemma {:induction false} GreedyExtends(pair: (int, int) -> real, sorted: seq<Scored>, m: nat, kept: seq<int>)
    requires DistinctIds(sorted) && NoDup(kept) && |kept| <= m
    requires forall c :: c in sorted ==> c.id !in kept
    ensures var g := Greedy(pair, sorted, m, kept);
            && kept <= g && NoDup(g) && |g| <= m
            && (forall x :: x in g ==> x in kept || exists c :: c in sorted && c.id == x)
  {
    if sorted != [] && |kept| < m {
      var c, rest := sorted[0], sorted[1..];
      assert forall d :: d in sorted <==> d == c || d in rest;
      GreedyExtends(pair, rest, m, if Diverse(pair, kept, c) then kept + [c.id] else kept);
    }
  }

  /** Whatever it appends was diverse to all kept before. */
  lemma {:induction false} GreedyKeepsDiverse(pair: (int, int) -> real, sorted: seq<Scored>, m: nat, kept: seq<int>)
    requires DistinctIds(sorted) && NoDup(kept) && |kept| <= m
    requires forall c :: c in sorted ==> c.id !in kept
    ensures var g := Greedy(pair, sorted, m, kept);
            forall c, i, x :: c in sorted && |kept| <= i < |g| && g[i] == c.id && x in g[..i] ==> pair(x, c.id) >= c.key
  {
    if sorted != [] && |kept| < m {
      var c, rest := sorted[0], sorted[1..];
      var next := if Diverse(pair, kept, c) then kept + [c.id] else kept;
      assert forall d :: d in sorted <==> d == c || d in rest;
      GreedyKeepsDiverse(pair, rest, m, next);
      GreedyExtends(pair, rest, m, next);
      var g := Greedy(pair, rest, m, next);
      assert g == Greedy(pair, sorted, m, kept);
      forall i, x | |kept| <= i < |g| && g[i] == c.id && x in g[..i] ensures pair(x, c.id) >= c.key {
        if Diverse(pair, kept, c) {
          assert g[|kept|] == next[|kept|] == c.id;
          assert i == |kept| && g[..i] == kept;
        }
      }
    }
  }

  /** With room left, whatever it passed over is nearer to something kept. */
  lemma {:induction false} GreedyPasses(pair: (int, int) -> real, sorted: seq<Scored>, m: nat, kept: seq<int>)
    requires DistinctIds(sorted) && NoDup(kept) && |kept| <= m
    requires forall c :: c in sorted ==> c.id !in kept
    ensures var g := Greedy(pair, sorted, m, kept);
            |g| < m ==> forall c :: c in sorted && c.id !in g ==> exists x :: x in g && pair(x, c.id) < c.key
  {
    if sorted != [] && |kept| < m {
      var c, rest := sorted[0], sorted[1..];
      var next := if Diverse(pair, kept, c) then kept + [c.id] else kept;
      assert forall d :: d in sorted <==> d == c || d in rest;
      GreedyPasses(pair, rest, m, next);
      GreedyExtends(pair, rest, m, next);
      var g := Greedy(pair, rest, m, next);
      if !Diverse(pair, kept, c) {
        var x :| x in kept && !(pair(x, c.id) >= c.key);
        assert x in g;
      } else {
        assert c.id == next[|kept|] == g[|kept|];
      }
    }
  }

  /** The greedy pass extends what was kept by candidates that are pairwise diverse. */
  lemma GreedyDiverse(pair: (int, int) -> real, sorted: seq<Scored>, m: nat, kept: seq<int>)
    requires DistinctIds(sorted) && NoDup(kept) && |kept| <= m
    requires forall c :: c in sorted ==> c.id !in kept
    ensures var g := Greedy(pair, sorted, m, kept);
            && kept <= g && NoDup(g) && |g| <= m
            && (forall x :: x in g ==> x in kept || exists c :: c in sorted && c.id == x)
            && (forall c, i, x :: c in sorted && |kept| <= i < |g| && g[i] == c.id && x in g[..i] ==>
                  pair(x, c.id) >= c.key)
            && (|g| < m ==> forall c :: c in sorted && c.id !in g ==> exists x :: x in g && pair(x, c.id) < c.key)
            && (sorted != [] && kept == [] && m > 0 ==> g != [] && g[0] == sorted[0].id)
  {
    GreedyExtends(pair, sorted, m, kept);
    GreedyKeepsDiverse(pair, sorted, m, kept);
    GreedyPasses(pair, sorted, m, kept);
    if sorted != [] && kept == [] && m > 0 {
      FirstIsDiverse(pair, sorted, m);
    }
  }

  lemma FirstIsDiverse(pair: (int, int) -> real, sorted: seq<Scored>, m: nat)
    requires DistinctIds(sorted) && sorted != [] && m > 0
    ensures Greedy(pair, sorted, m, []) != [] && Greedy(pair, sorted, m, [])[0] == sorted[0].id
  {
    GreedyExtends(pair, sorted[1..], m, [sorted[0].id]);
    assert [] + [sorted[0].id] == [sorted[0].id] <= Greedy(pair, sorted[1..], m, [sorted[0].id]);
  }

  /** The backfill only appends candidates, all of them if there is room. */
  lemma {:induction false} BackfillExtends(sorted: seq<Scored>, m: nat, kept: seq<int>)
    requires NoDup(kept) && |kept| <= m
    ensures var b := Backfill(sorted, m, kept);
            && kept <= b && NoDup(b) && |b| <= m
            && (forall x :: x in b ==> x in kept || exists c :: c in sorted && c.id == x)
            && (|b| < m ==> forall c :: c in sorted ==> c.id in b)
  {
    if sorted != [] && |kept| < m {
      var c, rest := sorted[0], sorted[1..];
      var next := if c.id in kept then kept else kept + [c.id];
      assert forall d :: d in sorted <==> d == c || d in rest;
      BackfillExtends(rest, m, next);
      assert next[|next| - 1] == c.id || c.id in kept;
      assert c.id in next;
    }
  }

  /** The backfill adds the nearest candidates that were passed over, until the budget is met. */
  lemma {:induction false} BackfillNearest(sorted: seq<Scored>, m: nat, kept: seq<int>)
    requires DistinctIds(sorted) && Ordered(sorted) && NoDup(kept) && |kept| <= m
    ensures var b := Backfill(sorted, m, kept);
            && kept <= b && NoDup(b) && |b| <= m
            && (forall x :: x in b ==> x in kept || exists c :: c in sorted && c.id == x)
            && (|b| < m ==> forall c :: c in sorted ==> c.id in b)
            && (forall c, d :: c in sorted && d in sorted && c.id in b && c.id !in kept && d.id !in b ==> Before(c, d))
  {
    BackfillExtends(sorted, m, kept);
    if sorted != [] && |kept| < m {
      var c, rest := sorted[0], sorted[1..];
      var next := if c.id in kept then kept else kept + [c.id];
      assert forall d :: d in sorted <==> d == c || d in rest;
      BackfillNearest(rest, m, next);
      assert next[|next| - 1] == c.id || c.id in kept;
      assert forall d :: d in rest ==> Before(c, d);
    }
  }

  /** The selection is a choice of min(m, candidates) different candidates. */
  lemma SelectionIsChoice(pair: (int, int) -> real, candidates: seq<Scored>, m: nat)
    requires DistinctIds(candidates)
    ensures NoDup(candidates)
    ensures var r := Selected(pair, candidates, m);
            NoDup(r) && Elems(r) <= Elems(Ids(candidates)) && |r| == Min(m, |candidates|)
  {
    SortedDistinct(candidates);
    var sorted := Sorted(candidates);
    GreedyDiverse(pair, sorted, m, []);
    BackfillNearest(sorted, m, Greedy(pair, sorted, m, []));
    var r, ids := Selected(pair, candidates, m), Ids(candidates);
    assert NoDup(ids);
    forall x | x in r ensures x in ids {
      var c :| c in sorted && c.id == x;
      assert c in candidates;
      var i :| 0 <= i < |candidates| && candidates[i] == c;
      assert ids[i] == x;
    }
    NoDupSize(ids);
    NoDupBound(r, Elems(ids));
    if |r| < m {
      forall x | x in ids ensures x in r {
        var i :| 0 <= i < |ids| && ids[i] == x;
        assert candidates[i] in sorted;
      }
      NoDupBound(ids, Elems(r));
      NoDupSize(r);
    }
  }

  /**
   Algorithm 4's promise: a diverse prefix that starts with the nearest candidate and leaves out
   only candidates that are nearer to something in it than to the base, then the nearest others.
   */
  lemma SelectionIsDiverse(pair: (int, int) -> real, candidates: seq<Scored>, m: nat)
    requires DistinctIds(candidates) && candidates != [] && m > 0
    ensures NoDup(candidates)
    ensures var g, r := Greedy(pair, Sorted(candidates), m, []), Selected(pair, candidates, m);
            && g <= r && g != [] && g[0] == Sorted(candidates)[0].id
            && (forall c, i, x :: c in candidates && 0 <= i < |g| && g[i] == c.id && x in g[..i] ==>
                  pair(x, c.id) >= c.key)
            && (|g| < m ==> forall c :: c in candidates && c.id !in g ==> exists x :: x in g && pair(x, c.id) < c.key)
            && (forall c, d :: c in candidates && d in candidates && c.id in r && c.id !in g && d.id !in r ==>
                  Before(c, d))
  {
    SortedDistinct(candidates);
    var sorted := Sorted(candidates);
    GreedyDiverse(pair, sorted, m, []);
    BackfillNearest(sorted, m, Greedy(pair, sorted, m, []));
  }

  // ------------------------------------------------- the first pass, candidate by candidate

  /** The first pass over some candidates goes on from what it kept of those before. */
  lemma {:induction false} GreedySplits(pair: (int, int) -> real, sorted: seq<Scored>, m: nat, kept: seq<int>, j: nat)
    requires j <= |sorted|
    ensures Greedy(pair, sorted, m, kept) == Greedy(pair, sorted[j..], m, Greedy(pair, sorted[..j], m, kept))
  {
    if j == 0 {
      assert sorted[0..] == sorted;
    } else if |kept| < m {
      var next := if Diverse(pair, kept, sorted[0]) then kept + [sorted[0].id] else kept;
      assert sorted[1..][..j - 1] == sorted[..j][1..] && sorted[1..][j - 1..] == sorted[j..];
      GreedySplits(pair, sorted[1..], m, next, j - 1);
    }
  }

  /** What was kept of the first j candidates: some of them, each once, and none of those to come. */
  lemma FirstPassBefore(pair: (int, int) -> real, sorted: seq<Scored>, m: nat, j: nat)
    requires DistinctIds(sorted) && j <= |sorted|
    ensures var before := Greedy(pair, sorted[..j], m, []);
            && NoDup(before) && |before| <= m
            && (forall x :: x in before ==> exists a :: 0 <= a < j && sorted[a].id == x)
            && (forall a :: j <= a < |sorted| ==> sorted[a].id !in before)
  {
    var before := Greedy(pair, sorted[..j], m, []);
    GreedyExtends(pair, sorted[..j], m, []);
    forall x | x in before ensures exists a :: 0 <= a < j && sorted[a].id == x {
      var c :| c in sorted[..j] && c.id == x;
      var a :| 0 <= a < j && sorted[..j][a] == c;
      assert sorted[a].id == x;
    }
  }

  /** Going on, no candidate already passed or kept is kept again. */
  lemma FirstPassAfter(pair: (int, int) -> real, sorted: seq<Scored>, m: nat, j: nat, kept: seq<int>)
    requires DistinctIds(sorted) && j <= |sorted| && NoDup(kept) && |kept| <= m
    requires forall a :: j <= a < |sorted| ==> sorted[a].id !in kept
    ensures var g := Greedy(pair, sorted[j..], m, kept);
            kept <= g && forall a :: 0 <= a < j ==> (sorted[a].id in g <==> sorted[a].id in kept)
  {
    var g := Greedy(pair, sorted[j..], m, kept);
    forall c | c in sorted[j..] ensures c.id !in kept {
      var a :| 0 <= a < |sorted[j..]| && sorted[j..][a] == c;
      assert sorted[j + a] == c;
    }
    GreedyExtends(pair, sorted[j..], m, kept);
  }

  /**
   A candidate is kept by the first pass exactly when there is still room and no node kept of the
   nearer candidates is nearer to it than the base is.
   */
  lemma FirstPassExactly(pair: (int, int) -> real, sorted: seq<Scored>, m: nat, j: nat)
    requires DistinctIds(sorted) && j < |sorted|
    ensures var g, before, c := Greedy(pair, sorted, m, []), Greedy(pair, sorted[..j], m, []), sorted[j];
            && before <= g
            && (forall x :: x in before <==> x in g && exists a :: 0 <= a < j && sorted[a].id == x)
            && (c.id in g <==> |before| < m && forall x :: x in before ==> pair(x, c.id) >= c.key)
  {
    var before, c := Greedy(pair, sorted[..j], m, []), sorted[j];
    FirstPassBefore(pair, sorted, m, j);
    GreedySplits(pair, sorted, m, [], j);
    FirstPassAfter(pair, sorted, m, j, before);
    if |before| < m {
      var next := if Diverse(pair, before, c) then before + [c.id] else before;
      assert sorted[j..][1..] == sorted[j + 1..] && sorted[j..][0] == c;
      assert c.id in next <==> Diverse(pair, before, c);
      FirstPassAfter(pair, sorted, m, j + 1, next);
    }
  }

  /** Three candidates, the first two nearly the same row. */
  function NearTwins(i: int, j: int): real {
    if i + j == 3 then 0.01 else 0.9
  }

  /** Of two near-duplicates only the nearer is selected; the third, farther candidate takes the place of the other. */
  lemma NearDuplicateSkipped()
    ensures var candidates := [Scored(0.5, 3), Scored(0.1, 1), Scored(0.11, 2)];
            NoDup(candidates) && Selected(NearTwins, candidates, 2) == [1, 3]
  {
    var first, twin, other := Scored(0.1, 1), Scored(0.11, 2), Scored(0.5, 3);
    OrderedUnique(Sorted([other, first, twin]), [first, twin, other]);
    assert [first, twin, other][1..] == [twin, other] && [twin, other][1..] == [other] && [] + [1] == [1];
    assert 1 in [1] && NearTwins(1, 2) < 0.11;
    assert !Diverse(NearTwins, [1], twin) && Diverse(NearTwins, [1], other);
    assert Greedy(NearTwins, [other], 2, [1]) == [1, 3];
    assert Greedy(NearTwins, [twin, other], 2, [1]) == [1, 3];
    assert Greedy(NearTwins, [first, twin, other], 2, []) == Greedy(NearTwins, [twin, other], 2, [1]);
  }
}
