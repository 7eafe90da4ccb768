/**
 Greedy best-first search in one layer (`HNSWIndex._search_layer`), filtered or not.
 The distance of a node to the query is an arbitrary real-valued function.
 */
module LayerSearch {
  import opened Seqs
  import opened Heaps
  import opened Graphs

  ghost function AdmissibleIn(s: set<int>, mask: Mask): set<int> {
    set x | x in s && Admits(mask, x)
  }

  /** `results` is a heap on the negated distance: its head is the worst answer held. */
  predicate Holds(results: seq<Scored>, dist: int -> real, x: int) {
    Scored(-dist(x), x) in results
  }

  /** `x` is not held because `ef` answers at least as near are. */
  predicate Beaten(results: seq<Scored>, dist: int -> real, ef: nat, x: int) {
    !Holds(results, dist, x) && |results| == ef > 0 && dist(x) >= -results[0].key
  }

  /** `results` are the ef best admissible nodes of `seen`. */
  ghost predicate BestOf(results: seq<Scored>, dist: int -> real, ef: nat, mask: Mask, seen: set<int>) {
    && Ordered(results)
    && |results| <= ef
    && (forall r :: r in results ==> r.id in seen && Admits(mask, r.id) && r.key == -dist(r.id))
    && (forall x :: x in seen && Admits(mask, x) ==> Holds(results, dist, x) || Beaten(results, dist, ef, x))
  }

  /** `candidates` are seen but not yet expanded nodes, nearest first. */
  ghost predicate Waiting(candidates: seq<Scored>, dist: int -> real, seen: set<int>, expanded: set<int>) {
    && Ordered(candidates)
    && (forall c :: c in candidates ==> c.id in seen && c.id !in expanded && c.key == dist(c.id))
  }

  /** Nothing seen is forgotten: it was expanded, it waits, or `ef` answers beat it. */
  ghost predicate Accounted(candidates: seq<Scored>, results: seq<Scored>, dist: int -> real, ef: nat,
                            seen: set<int>, expanded: set<int>) {
    forall x :: x in seen ==> x in expanded || Scored(dist(x), x) in candidates || Beaten(results, dist, ef, x)
  }

  /** `heappush(results, ...)`, then `heappop` when it overflows `ef`. */
  function Offer(results: seq<Scored>, ef: nat, r: Scored): seq<Scored>
    requires Ordered(results) && r !in results
  {
    var pushed := Push(results, r);
    if |pushed| > ef then pushed[1..] else pushed
  }

  /** What an offer keeps: everything offered but, on overflow, the one worst. */
  lemma OfferMembers(results: seq<Scored>, ef: nat, r: Scored)
    requires Ordered(results) && r !in results && 0 < ef && |results| <= ef
    ensures var next := Offer(results, ef, r);
            && Ordered(next) && |next| == (if |results| == ef then ef else |results| + 1)
            && (|results| < ef ==> forall y :: y in next <==> y in results || y == r)
            && (|results| == ef && Before(results[0], r) ==>
                  (forall y :: y in next <==> (y in results && y != results[0]) || y == r) &&
                  (forall y :: y in next ==> Before(results[0], y)))
  {
    var pushed := Push(results, r);
    if |pushed| > ef && Before(results[0], r) {
      assert results[0] in pushed;
      assert pushed[0] == results[0] by {
        assert pushed[0] in pushed;
        assert pushed[0] == r || pushed[0] in results;
      }
      assert pushed == [pushed[0]] + pushed[1..];
      assert forall y :: y in pushed[1..] ==> Before(pushed[0], y);
    }
  }

  lemma OfferKeeps(results: seq<Scored>, dist: int -> real, ef: nat, mask: Mask, seen: set<int>, x: int)
    requires ef > 0 && BestOf(results, dist, ef, mask, seen)
    requires x !in seen && Admits(mask, x)
    requires |results| == ef ==> dist(x) < -results[0].key
    ensures Scored(-dist(x), x) !in results
    ensures BestOf(Offer(results, ef, Scored(-dist(x), x)), dist, ef, mask, seen + {x})
    ensures forall y :: y in seen && Beaten(results, dist, ef, y) ==>
              Beaten(Offer(results, ef, Scored(-dist(x), x)), dist, ef, y)
  {
    var r := Scored(-dist(x), x);
    var next := Offer(results, ef, r);
    OfferMembers(results, ef, r);
    if |results| == ef {
      assert next[0] in next;
    }
    forall y | y in seen && Beaten(results, dist, ef, y) ensures Beaten(next, dist, ef, y) {
    }
    forall y | y in seen + {x} && Admits(mask, y) ensures Holds(next, dist, y) || Beaten(next, dist, ef, y) {
      if y in seen && Holds(results, dist, y) && !Holds(next, dist, y) {
        assert results[0] == Scored(-dist(y), y);
      }
    }
  }

  /** The neighbours of a popped node that the search has not met before. */
  function Unvisited(ns: seq<int>, visited: set<int>): (r: seq<int>)
    requires NoDup(ns)
    ensures NoDup(r) && |r| <= |ns|
    ensures forall x :: x in r <==> x in ns && x !in visited
  {
    if ns == [] then []
    else
      assert forall x :: x in ns <==> x == ns[0] || x in ns[1..];
      var rest := Unvisited(ns[1..], visited);
      if ns[0] in visited then rest else [ns[0]] + rest
  }

  /** The frontier state of a search: everything seen is expanded, waiting or beaten. */
  ghost predicate Frontier(candidates: seq<Scored>, results: seq<Scored>, dist: int -> real, ef: nat, mask: Mask,
                           seen: set<int>, expanded: set<int>) {
    && BestOf(results, dist, ef, mask, seen)
    && Waiting(candidates, dist, seen, expanded)
    && Accounted(candidates, results, dist, ef, seen, expanded)
  }

  /** A node that `ef` held answers beat may be passed over. */
  lemma SkipKeeps(candidates: seq<Scored>, results: seq<Scored>, dist: int -> real, ef: nat, mask: Mask,
                  seen: set<int>, expanded: set<int>, x: int)
    requires Frontier(candidates, results, dist, ef, mask, seen, expanded)
    requires x !in seen && |results| == ef > 0 && dist(x) >= -results[0].key
    ensures Frontier(candidates, results, dist, ef, mask, seen + {x}, expanded)
  {
    assert !Holds(results, dist, x);
  }

  /** A node that is not passed over waits, and is offered to the results if it is admissible. */
  lemma WaitKeeps(candidates: seq<Scored>, results: seq<Scored>, dist: int -> real, ef: nat, mask: Mask,
                  seen: set<int>, expanded: set<int>, x: int)
    requires Frontier(candidates, results, dist, ef, mask, seen, expanded)
    requires x !in seen && expanded <= seen && ef > 0
    requires |results| == ef ==> dist(x) < -results[0].key
    ensures Scored(dist(x), x) !in candidates && Scored(-dist(x), x) !in results
    ensures var r := if Admits(mask, x) then Offer(results, ef, Scored(-dist(x), x)) else results;
            Frontier(Push(candidates, Scored(dist(x), x)), r, dist, ef, mask, seen + {x}, expanded)
  {
    PushWaits(candidates, dist, seen, expanded, x);
    assert !Holds(results, dist, x);
    if Admits(mask, x) {
      OfferKeeps(results, dist, ef, mask, seen, x);
    } else {
      assert BestOf(results, dist, ef, mask, seen + {x});
    }
  }

  lemma PushWaits(candidates: seq<Scored>, dist: int -> real, seen: set<int>, expanded: set<int>, x: int)
    requires Waiting(candidates, dist, seen, expanded) && x !in seen && expanded <= seen
    ensures Scored(dist(x), x) !in candidates
    ensures Waiting(Push(candidates, Scored(dist(x), x)), dist, seen + {x}, expanded)
    ensures forall c :: c in Push(candidates, Scored(dist(x), x)) <==> c in candidates || c == Scored(dist(x), x)
  {
  }

  // ---------------------------------------------------------- meeting nodes

  /** Candidates and results. */
  datatype Heaped = Heaped(candidates: seq<Scored>, results: seq<Scored>)

  function PushNew(h: seq<Scored>, x: Scored): seq<Scored> {
    if Ordered(h) && x !in h then Push(h, x) else h
  }

  function OfferNew(results: seq<Scored>, ef: nat, r: Scored): seq<Scored> {
    if Ordered(results) && r !in results then Offer(results, ef, r) else results
  }

  /** What meeting one node makes of the heaps. */
  function MetOne(h: Heaped, dist: int -> real, ef: nat, mask: Mask, x: int): Heaped {
    if |h.results| >= ef && h.results != [] && dist(x) >= -h.results[0].key then h
    else Heaped(PushNew(h.candidates, Scored(dist(x), x)),
                if Admits(mask, x) then OfferNew(h.results, ef, Scored(-dist(x), x)) else h.results)
  }

  ghost predicate MetAt(hs: seq<Heaped>, dist: int -> real, ef: nat, mask: Mask, xs: seq<int>, i: int) {
    0 <= i < |xs| && i + 1 < |hs| && hs[i + 1] == MetOne(hs[i], dist, ef, mask, xs[i])
  }

  /** The heaps before and after each node of a list is met. */
  ghost predicate MeetTrace(hs: seq<Heaped>, dist: int -> real, ef: nat, mask: Mask, xs: seq<int>, from: Heaped,
                            to: Heaped) {
    && |hs| == |xs| + 1 && hs[0] == from && hs[|xs|] == to
    && forall i {:trigger MetAt(hs, dist, ef, mask, xs, i)} :: 0 <= i < |xs| ==> MetAt(hs, dist, ef, mask, xs, i)
  }

  lemma MeetMore(hs: seq<Heaped>, dist: int -> real, ef: nat, mask: Mask, xs: seq<int>, i: nat, from: Heaped, h: Heaped,
                 next: Heaped)
    requires i < |xs| && MeetTrace(hs, dist, ef, mask, xs[..i], from, h) && next == MetOne(h, dist, ef, mask, xs[i])
    ensures MeetTrace(hs + [next], dist, ef, mask, xs[..i + 1], from, next)
  {
    var more, ys := hs + [next], xs[..i + 1];
    forall j | 0 <= j < i + 1 ensures MetAt(more, dist, ef, mask, ys, j) {
      assert j < i ==> MetAt(hs, dist, ef, mask, xs[..i], j);
    }
  }

  /** The inner loop of `_search_layer`: meet the unvisited neighbours one by one. */
  method Meet(unvisited: seq<int>, candidates: seq<Scored>, results: seq<Scored>, dist: int -> real, ef: nat,
              mask: Mask, ghost seen: set<int>, ghost expanded: set<int>)
    returns (candidates': seq<Scored>, results': seq<Scored>, ghost hs: seq<Heaped>)
    requires ef > 0 && NoDup(unvisited) && Elems(unvisited) !! seen && expanded <= seen
    requires Frontier(candidates, results, dist, ef, mask, seen, expanded)
    ensures Frontier(candidates', results', dist, ef, mask, seen + Elems(unvisited), expanded)
    ensures MeetTrace(hs, dist, ef, mask, unvisited, Heaped(candidates, results), Heaped(candidates', results'))
  {
    candidates', results' := candidates, results;
    ghost var from := Heaped(candidates, results);
    hs := [from];
    ghost var met := seen;
    for i := 0 to |unvisited|
      invariant met == seen + Elems(unvisited[..i])
      invariant Frontier(candidates', results', dist, ef, mask, met, expanded)
      invariant MeetTrace(hs, dist, ef, mask, unvisited[..i], from, Heaped(candidates', results'))
    {
      ghost var h := Heaped(candidates', results');
      var x := unvisited[i];
      NewMember(unvisited, i, seen);
      if |results'| >= ef && dist(x) >= -results'[0].key {
        SkipKeeps(candidates', results', dist, ef, mask, met, expanded, x);
      } else {
        WaitKeeps(candidates', results', dist, ef, mask, met, expanded, x);
        candidates' := Push(candidates', Scored(dist(x), x));
        if Admits(mask, x) {
          results' := Offer(results', ef, Scored(-dist(x), x));
        }
      }
      MeetMore(hs, dist, ef, mask, unvisited, i, from, h, Heaped(candidates', results'));
      hs := hs + [Heaped(candidates', results')];
      met := met + {x};
    }
    assert unvisited[..|unvisited|] == unvisited;
  }

  lemma NewMember(s: seq<int>, i: nat, seen: set<int>)
    requires NoDup(s) && i < |s| && Elems(s) !! seen
    ensures s[i] !in seen + Elems(s[..i])
    ensures seen + Elems(s[..i]) + {s[i]} == seen + Elems(s[..i + 1])
  {
    assert s[i] in Elems(s);
    assert s[..i + 1] == s[..i] + [s[i]];
  }

  lemma PopKeeps(candidates: seq<Scored>, results: seq<Scored>, dist: int -> real, ef: nat, mask: Mask,
                 seen: set<int>, expanded: set<int>)
    requires candidates != [] && Frontier(candidates, results, dist, ef, mask, seen, expanded)
    ensures Frontier(candidates[1..], results, dist, ef, mask, seen, expanded + {candidates[0].id})
    ensures candidates[0].id in seen
  {
    var head, rest := candidates[0], candidates[1..];
    assert forall c :: c in rest ==> Before(head, c) && c in candidates;
    forall x | x in seen
      ensures x in expanded + {head.id} || Scored(dist(x), x) in rest || Beaten(results, dist, ef, x)
    {
      var c := Scored(dist(x), x);
      if c in candidates && c != head {
        assert c in rest;
      }
    }
  }

  /** Once the nearest waiting node is beaten, every waiting node is. */
  lemma StopKeeps(candidates: seq<Scored>, results: seq<Scored>, dist: int -> real, ef: nat, mask: Mask,
                  seen: set<int>, expanded: set<int>)
    requires candidates != [] && Frontier(candidates, results, dist, ef, mask, seen, expanded)
    requires ef > 0 && |results| >= ef && candidates[0].key > -results[0].key
    ensures Frontier([], results, dist, ef, mask, seen, expanded)
  {
    forall x | x in seen && Scored(dist(x), x) in candidates
      ensures Beaten(results, dist, ef, x)
    {
      assert candidates[0] == Scored(dist(x), x) || Before(candidates[0], Scored(dist(x), x));
      assert forall r :: r in results ==> r == results[0] || Before(results[0], r);
    }
  }

  /** What a layer search answers: the `ef` best admissible nodes among those it saw. */
  ghost predicate Answers(found: seq<Scored>, dist: int -> real, ef: nat, mask: Mask, seen: set<int>) {
    && NoDup(found)
    && |found| == Min(ef, |AdmissibleIn(seen, mask)|)
    && (forall f :: f in found ==> f.id in AdmissibleIn(seen, mask) && f.key == dist(f.id))
    && (forall f, x :: f in found && x in AdmissibleIn(seen, mask) && Scored(dist(x), x) !in found ==> f.key <= dist(x))
  }

  /** Every seen node whose neighbourhood was not explored is no nearer than the `ef` answers. */
  ghost predicate Exhausted(found: seq<Scored>, dist: int -> real, ef: nat, seen: set<int>, expanded: set<int>) {
    forall x :: x in seen && x !in expanded ==> BeatenBy(found, dist, ef, x)
  }

  ghost predicate BeatenBy(found: seq<Scored>, dist: int -> real, ef: nat, x: int) {
    |found| == ef && Scored(dist(x), x) !in found && forall f :: f in found ==> f.key <= dist(x)
  }

  /** The part of the layer a search walked: it starts at the entry points and follows edges only. */
  ghost predicate Walked(g: Layer, entry: seq<int>, seen: set<int>, expanded: set<int>) {
    && Elems(entry) <= seen
    && expanded <= seen
    && (forall x, y :: x in expanded && y in Nbrs(g, x) ==> y in seen)
  }

  ghost predicate MaxDegree(g: Layer, s: set<int>, degree: nat) {
    forall x :: x in s ==> |Nbrs(g, x)| <= degree
  }

  /** `[(-negated, node) for negated, node in results]` */
  function Unnegated(results: seq<Scored>): (found: seq<Scored>)
    ensures |found| == |results|
    ensures forall i :: 0 <= i < |results| ==> found[i] == Scored(-results[i].key, results[i].id)
  {
    if results == [] then []
    else [Scored(-results[0].key, results[0].id)] + Unnegated(results[1..])
  }

  lemma UnnegatedHolds(results: seq<Scored>, dist: int -> real, x: int)
    ensures Holds(results, dist, x) <==> Scored(dist(x), x) in Unnegated(results)
  {
    var found := Unnegated(results);
    if Holds(results, dist, x) {
      var i :| 0 <= i < |results| && results[i] == Scored(-dist(x), x);
      assert found[i] == Scored(dist(x), x);
    }
    if Scored(dist(x), x) in found {
      var i :| 0 <= i < |found| && found[i] == Scored(dist(x), x);
      assert results[i] == Scored(-dist(x), x);
    }
  }

  /** The nodes of an answer list. */
  function Ids(found: seq<Scored>): (ids: seq<int>)
    ensures |ids| == |found| && forall i :: 0 <= i < |found| ==> ids[i] == found[i].id
  {
    seq(|found|, i requires 0 <= i < |found| => found[i].id)
  }

  lemma IdsDistinct(found: seq<Scored>, dist: int -> real)
    requires NoDup(found) && forall f :: f in found ==> f.key == dist(f.id)
    ensures NoDup(Ids(found))
    ensures forall x :: x in Ids(found) <==> Scored(dist(x), x) in found
  {
    forall i, j | 0 <= i < j < |found| ensures Ids(found)[i] != Ids(found)[j] {
      assert found[i] in found && found[j] in found;
    }
    forall x ensures x in Ids(found) <==> Scored(dist(x), x) in found {
      if x in Ids(found) {
        var i :| 0 <= i < |found| && found[i].id == x;
        assert found[i] in found;
      }
      if Scored(dist(x), x) in found {
        var i :| 0 <= i < |found| && found[i] == Scored(dist(x), x);
        assert Ids(found)[i] == x;
      }
    }
  }

  lemma HeapList(results: seq<Scored>, dist: int -> real, ef: nat, mask: Mask, seen: set<int>)
    requires BestOf(results, dist, ef, mask, seen)
    ensures NoDup(Unnegated(results))
    ensures forall f :: f in Unnegated(results) ==>
              f.id in AdmissibleIn(seen, mask) && f.key == dist(f.id) && f.key <= -results[0].key
  {
    var found := Unnegated(results);
    forall f | f in found
      ensures f.id in AdmissibleIn(seen, mask) && f.key == dist(f.id) && f.key <= -results[0].key
    {
      var i :| 0 <= i < |found| && found[i] == f;
      assert results[i] in results;
      assert i == 0 || Before(results[0], results[i]);
    }
    forall i, j | 0 <= i < j < |found| ensures found[i] != found[j] {
      assert Before(results[i], results[j]);
    }
  }

  /** A list that omits an admissible node only when it is full has the promised length. */
  lemma AnswerCount(found: seq<Scored>, dist: int -> real, ef: nat, adm: set<int>)
    requires NoDup(found) && |found| <= ef
    requires forall f :: f in found ==> f.id in adm && f.key == dist(f.id)
    requires |found| < ef ==> forall x :: x in adm ==> Scored(dist(x), x) in found
    ensures |found| == Min(ef, |adm|)
  {
    IdsDistinct(found, dist);
    assert Elems(Ids(found)) <= adm;
    NoDupBound(Ids(found), adm);
    if |found| < ef {
      forall x | x in adm ensures x in Elems(Ids(found)) {
        assert Scored(dist(x), x) in found;
      }
      SubsetSize(adm, Elems(Ids(found)));
      NoDupSize(Ids(found));
    }
  }

  lemma HeapAnswers(results: seq<Scored>, dist: int -> real, ef: nat, mask: Mask, seen: set<int>)
    requires ef > 0 && BestOf(results, dist, ef, mask, seen)
    ensures Answers(Unnegated(results), dist, ef, mask, seen)
    ensures forall x :: Beaten(results, dist, ef, x) ==> BeatenBy(Unnegated(results), dist, ef, x)
  {
    var found, adm := Unnegated(results), AdmissibleIn(seen, mask);
    HeapList(results, dist, ef, mask, seen);
    forall x ensures Holds(results, dist, x) <==> Scored(dist(x), x) in found {
      UnnegatedHolds(results, dist, x);
    }
    AnswerCount(found, dist, ef, adm);
  }

  /** `head` is expanded: its unvisited neighbours have now been seen. */
  lemma ExpandKeeps(g: Layer, entry: seq<int>, seen: set<int>, expanded: set<int>, universe: set<int>, head: int,
                    unvisited: seq<int>)
    requires Closed(g, universe) && seen <= universe && head in seen && Walked(g, entry, seen, expanded)
    requires NoDup(unvisited)
    requires forall x :: x in unvisited <==> x in Nbrs(g, head) && x !in seen
    ensures Walked(g, entry, seen + Elems(unvisited), expanded + {head})
    ensures Elems(unvisited) !! seen && seen + Elems(unvisited) <= universe
    ensures |seen + Elems(unvisited)| == |seen| + |unvisited| <= |universe|
  {
    NoDupSize(unvisited);
    SubsetSize(seen + Elems(unvisited), universe);
  }

  /** Seeding is meeting a node while there is room. */
  lemma SeedKeeps(candidates: seq<Scored>, results: seq<Scored>, dist: int -> real, ef: nat, mask: Mask,
                  met: set<int>, x: int)
    requires Frontier(candidates, results, dist, ef, mask, met, {}) && x !in met && |results| < ef
    ensures Scored(dist(x), x) !in candidates && Scored(-dist(x), x) !in results
    ensures var r := if Admits(mask, x) then Push(results, Scored(-dist(x), x)) else results;
            && Frontier(Push(candidates, Scored(dist(x), x)), r, dist, ef, mask, met + {x}, {})
            && Heaped(Push(candidates, Scored(dist(x), x)), r) == MetOne(Heaped(candidates, results), dist, ef, mask, x)
  {
    WaitKeeps(candidates, results, dist, ef, mask, met, {}, x);
  }

  /** One entry point. */
  method SeedOne(candidates: seq<Scored>, results: seq<Scored>, dist: int -> real, ef: nat, mask: Mask, x: int,
                 ghost met: set<int>) returns (candidates': seq<Scored>, results': seq<Scored>)
    requires Frontier(candidates, results, dist, ef, mask, met, {}) && x !in met && |results| < ef
    ensures Frontier(candidates', results', dist, ef, mask, met + {x}, {}) && |results'| <= |results| + 1
    ensures Heaped(candidates', results') == MetOne(Heaped(candidates, results), dist, ef, mask, x)
  {
    SeedKeeps(candidates, results, dist, ef, mask, met, x);
    candidates' := Push(candidates, Scored(dist(x), x));
    results' := if Admits(mask, x) then Push(results, Scored(-dist(x), x)) else results;
  }

  /** The entry points seed the candidates; the admissible ones seed the results. There is room for all. */
  method Seed(entry: seq<int>, dist: int -> real, ef: nat, mask: Mask)
    returns (candidates: seq<Scored>, results: seq<Scored>, ghost hs: seq<Heaped>)
    requires NoDup(entry) && 0 < ef && |entry| <= ef
    ensures Frontier(candidates, results, dist, ef, mask, Elems(entry), {})
    ensures MeetTrace(hs, dist, ef, mask, entry, Heaped([], []), Heaped(candidates, results))
  {
    candidates, results, hs := [], [], [Heaped([], [])];
    ghost var met: set<int> := {};
    for i := 0 to |entry|
      invariant met == Elems(entry[..i])
      invariant Frontier(candidates, results, dist, ef, mask, met, {}) && |results| <= i
      invariant MeetTrace(hs, dist, ef, mask, entry[..i], Heaped([], []), Heaped(candidates, results))
    {
      ghost var h := Heaped(candidates, results);
      FreshAt(entry, i);
      candidates, results := SeedOne(candidates, results, dist, ef, mask, entry[i], met);
      MeetMore(hs, dist, ef, mask, entry, i, Heaped([], []), h, Heaped(candidates, results));
      hs, met := hs + [Heaped(candidates, results)], met + {entry[i]};
    }
    assert entry[..|entry|] == entry;
  }

  // ---------------------------------------------------------- one turn of the loop

  /** The loop's variables; `halted` once it has been left. */
  datatype Sweep = Sweep(candidates: seq<Scored>, results: seq<Scored>, visited: set<int>, visits: nat, halted: bool)

  function UnvisitedOf(ns: seq<int>, visited: set<int>): seq<int> {
    if NoDup(ns) then Unvisited(ns, visited) else []
  }

  /** The nearest candidate is further than the worst of `ef` answers. */
  predicate Sated(s: Sweep, ef: nat) {
    s.candidates != [] && s.results != [] && |s.results| >= ef && s.candidates[0].key > -s.results[0].key
  }

  /** One turn: leave the loop, or expand the nearest candidate. It is determined by the neighbour lists. */
  ghost predicate TurnTo(g: Layer, dist: int -> real, ef: nat, mask: Mask, budget: Option<nat>, s: Sweep, s': Sweep) {
    if s.halted then s' == s
    else if s.candidates == [] || Sated(s, ef) then s' == s.(halted := true)
    else
      var xs := UnvisitedOf(Nbrs(g, s.candidates[0].id), s.visited);
      if xs == [] then s' == s.(candidates := s.candidates[1..])
      else
        && s'.visited == s.visited + Elems(xs) && s'.visits == s.visits + |xs|
        && (s'.halted <==> budget.Some? && s'.visits >= budget.value)
        && exists hs :: MeetTrace(hs, dist, ef, mask, xs, Heaped(s.candidates[1..], s.results),
                                  Heaped(s'.candidates, s'.results))
  }

  /** What holds at the head of the loop. */
  ghost predicate Sweeping(g: Layer, dist: int -> real, entry: seq<int>, ef: nat, mask: Mask, budget: Option<nat>,
                           universe: set<int>, s: Sweep, expanded: set<int>) {
    && s.visited <= universe && s.visits == |s.visited| - |entry|
    && Walked(g, entry, s.visited, expanded)
    && Frontier(if s.halted && !Spent(budget, s) then [] else s.candidates, s.results, dist, ef, mask, s.visited,
                expanded)
    && (budget.Some? && !(s.halted && Spent(budget, s)) ==> s.visits == 0 || s.visits < budget.value)
    && (budget.Some? ==> forall degree :: MaxDegree(g, universe, degree) ==> s.visits < Max(budget.value, 1) + degree)
  }

  predicate Spent(budget: Option<nat>, s: Sweep) {
    budget.Some? && s.visits >= budget.value
  }

  /** The body of the loop past its first exit: the nearest candidate is expanded. */
  method Expand(g: Layer, dist: int -> real, entry: seq<int>, ef: nat, mask: Mask, budget: Option<nat>,
                ghost universe: set<int>, s: Sweep, ghost expanded: set<int>)
    returns (s': Sweep, ghost expanded': set<int>)
    requires 0 < ef && Closed(g, universe) && (forall x :: x in universe ==> NoDup(Nbrs(g, x)))
    requires !s.halted && Sweeping(g, dist, entry, ef, mask, budget, universe, s, expanded)
    requires s.candidates != [] && !Sated(s, ef)
    ensures Sweeping(g, dist, entry, ef, mask, budget, universe, s', expanded')
    ensures TurnTo(g, dist, ef, mask, budget, s, s')
  {
    var head, rest := s.candidates[0], s.candidates[1..];
    PopKeeps(s.candidates, s.results, dist, ef, mask, s.visited, expanded);
    var unvisited := Unvisited(Nbrs(g, head.id), s.visited);
    ExpandKeeps(g, entry, s.visited, expanded, universe, head.id, unvisited);
    expanded' := expanded + {head.id};
    if unvisited == [] {
      assert s.visited + Elems(unvisited) == s.visited;
      s' := s.(candidates := rest);
    } else {
      var candidates, results;
      ghost var hs;
      candidates, results, hs := Meet(unvisited, rest, s.results, dist, ef, mask, s.visited, expanded');
      var visits := s.visits + |unvisited|;
      s' := Sweep(candidates, results, s.visited + Elems(unvisited), visits, budget.Some? && visits >= budget.value);
    }
  }

  /** A turn that stays in the loop sees more, or has fewer candidates left. */
  lemma TurnMoves(g: Layer, dist: int -> real, ef: nat, mask: Mask, budget: Option<nat>, s: Sweep, s': Sweep)
    requires TurnTo(g, dist, ef, mask, budget, s, s')
    ensures s'.halted || |s'.visited| > |s.visited| || (s'.visited == s.visited && |s'.candidates| < |s.candidates|)
  {
    if !s'.halted {
      var xs := UnvisitedOf(Nbrs(g, s.candidates[0].id), s.visited);
      if xs != [] {
        assert xs[0] in Elems(xs) && xs[0] !in s.visited;
        SubsetSize(s.visited + {xs[0]}, s'.visited);
      }
    }
  }

  /** The body of the loop. */
  method Turn(g: Layer, dist: int -> real, entry: seq<int>, ef: nat, mask: Mask, budget: Option<nat>,
              ghost universe: set<int>, s: Sweep, ghost expanded: set<int>)
    returns (s': Sweep, ghost expanded': set<int>)
    requires 0 < ef && Closed(g, universe) && (forall x :: x in universe ==> NoDup(Nbrs(g, x)))
    requires !s.halted && Sweeping(g, dist, entry, ef, mask, budget, universe, s, expanded)
    ensures Sweeping(g, dist, entry, ef, mask, budget, universe, s', expanded')
    ensures TurnTo(g, dist, ef, mask, budget, s, s')
    ensures s'.halted || |s'.visited| > |s.visited| || (s'.visited == s.visited && |s'.candidates| < |s.candidates|)
    ensures |s'.visited| <= |universe|
  {
    expanded' := expanded;
    if s.candidates == [] || Sated(s, ef) {
      if s.candidates != [] {
        StopKeeps(s.candidates, s.results, dist, ef, mask, s.visited, expanded);
      }
      s' := s.(halted := true);
    } else {
      s', expanded' := Expand(g, dist, entry, ef, mask, budget, universe, s, expanded);
    }
    TurnMoves(g, dist, ef, mask, budget, s, s');
    SubsetSize(s'.visited, universe);
  }

  // ---------------------------------------------------------- the search

  ghost predicate TurnAt(g: Layer, dist: int -> real, ef: nat, mask: Mask, budget: Option<nat>, trace: seq<Sweep>,
                         i: int) {
    0 <= i && i + 1 < |trace| && TurnTo(g, dist, ef, mask, budget, trace[i], trace[i + 1])
  }

  ghost predicate Turns(g: Layer, dist: int -> real, ef: nat, mask: Mask, budget: Option<nat>, trace: seq<Sweep>) {
    trace != [] && forall i {:trigger TurnAt(g, dist, ef, mask, budget, trace, i)} ::
      0 <= i < |trace| - 1 ==> TurnAt(g, dist, ef, mask, budget, trace, i)
  }

  /** The loop's state before the first turn. */
  ghost predicate Starts(dist: int -> real, entry: seq<int>, ef: nat, mask: Mask, s: Sweep) {
    s.visited == Elems(entry) && s.visits == 0 && !s.halted &&
    exists hs :: MeetTrace(hs, dist, ef, mask, entry, Heaped([], []), Heaped(s.candidates, s.results))
  }

  /** The answer as a function of the neighbour lists: some sequence of turns from the start ends in it. */
  ghost predicate LayerFinds(g: Layer, dist: int -> real, entry: seq<int>, ef: nat, mask: Mask, budget: Option<nat>,
                             found: seq<Scored>, visits: nat) {
    exists trace :: FindsBy(g, dist, entry, ef, mask, budget, found, visits, trace)
  }

  ghost predicate FindsBy(g: Layer, dist: int -> real, entry: seq<int>, ef: nat, mask: Mask, budget: Option<nat>,
                          found: seq<Scored>, visits: nat, trace: seq<Sweep>) {
    && Turns(g, dist, ef, mask, budget, trace) && Starts(dist, entry, ef, mask, trace[0])
    && trace[|trace| - 1].halted && found == Unnegated(trace[|trace| - 1].results)
    && visits == trace[|trace| - 1].visits
  }

  lemma OneMoreTurn(g: Layer, dist: int -> real, ef: nat, mask: Mask, budget: Option<nat>, trace: seq<Sweep>, s: Sweep)
    requires Turns(g, dist, ef, mask, budget, trace) && TurnTo(g, dist, ef, mask, budget, trace[|trace| - 1], s)
    ensures Turns(g, dist, ef, mask, budget, trace + [s])
  {
    var more := trace + [s];
    forall i | 0 <= i < |more| - 1 ensures TurnAt(g, dist, ef, mask, budget, more, i) {
      assert i < |trace| - 1 ==> TurnAt(g, dist, ef, mask, budget, trace, i);
    }
  }

  /**
   `_search_layer`. `universe` is any set of nodes that holds the entry points and is closed
   under the layer's edges: the search never leaves it, and it bounds the loop.
   */
  method SearchLayer(g: Layer, dist: int -> real, entry: seq<int>, ef: nat, mask: Mask, budget: Option<nat>,
                     ghost universe: set<int>)
    returns (found: seq<Scored>, visits: nat, ghost seen: set<int>, ghost expanded: set<int>)
    requires NoDup(entry) && Elems(entry) <= universe && Closed(g, universe)
    requires forall x :: x in universe ==> NoDup(Nbrs(g, x))
    requires 0 < ef && |entry| <= ef
    ensures Answers(found, dist, ef, mask, seen)
    ensures Walked(g, entry, seen, expanded) && seen <= universe
    ensures visits == |seen| - |entry|
    ensures Exhausted(found, dist, ef, seen, expanded) || (budget.Some? && visits >= budget.value)
    ensures budget.Some? ==> forall degree :: MaxDegree(g, universe, degree) ==> visits < Max(budget.value, 1) + degree
    ensures LayerFinds(g, dist, entry, ef, mask, budget, found, visits)
  {
    var candidates, results;
    ghost var hs;
    candidates, results, hs := Seed(entry, dist, ef, mask);
    var s := Sweep(candidates, results, Elems(entry), 0, false);
    expanded := {};
    NoDupSize(entry);
    SubsetSize(Elems(entry), universe);
    ghost var trace := [s];
    assert Starts(dist, entry, ef, mask, s);
    while !s.halted
      invariant Sweeping(g, dist, entry, ef, mask, budget, universe, s, expanded)
      invariant |s.visited| <= |universe|
      invariant Turns(g, dist, ef, mask, budget, trace) && trace[|trace| - 1] == s
      invariant Starts(dist, entry, ef, mask, trace[0])
      decreases !s.halted, |universe| - |s.visited|, |s.candidates|
    {
      ghost var before := s;
      s, expanded := Turn(g, dist, entry, ef, mask, budget, universe, s, expanded);
      OneMoreTurn(g, dist, ef, mask, budget, trace, s);
      trace := trace + [s];
    }
    HeapAnswers(s.results, dist, ef, mask, s.visited);
    found, visits, seen := Unnegated(s.results), s.visits, s.visited;
    assert FindsBy(g, dist, entry, ef, mask, budget, found, visits, trace);
  }

  // ---------------------------------------------------------- determinism

  lemma {:induction false} MeetTraceOnce(hs: seq<Heaped>, hs': seq<Heaped>, dist: int -> real, ef: nat, mask: Mask,
                                         xs: seq<int>, from: Heaped, to: Heaped, to': Heaped, i: nat)
    requires MeetTrace(hs, dist, ef, mask, xs, from, to) && MeetTrace(hs', dist, ef, mask, xs, from, to')
    requires i <= |xs|
    ensures hs[i] == hs'[i]
    decreases i
  {
    if i > 0 {
      MeetTraceOnce(hs, hs', dist, ef, mask, xs, from, to, to', i - 1);
      assert MetAt(hs, dist, ef, mask, xs, i - 1) && MetAt(hs', dist, ef, mask, xs, i - 1);
    }
  }

  lemma TurnOnce(g: Layer, h: Layer, dist: int -> real, ef: nat, mask: Mask, budget: Option<nat>, s: Sweep, a: Sweep,
                 b: Sweep)
    requires TurnTo(g, dist, ef, mask, budget, s, a) && TurnTo(h, dist, ef, mask, budget, s, b)
    requires forall x :: Nbrs(g, x) == Nbrs(h, x)
    ensures a == b
  {
    if !s.halted && s.candidates != [] && !Sated(s, ef) {
      var xs := UnvisitedOf(Nbrs(g, s.candidates[0].id), s.visited);
      if xs != [] {
        var from := Heaped(s.candidates[1..], s.results);
        var hs :| MeetTrace(hs, dist, ef, mask, xs, from, Heaped(a.candidates, a.results));
        var hs' :| MeetTrace(hs', dist, ef, mask, xs, from, Heaped(b.candidates, b.results));
        MeetTraceOnce(hs, hs', dist, ef, mask, xs, from, Heaped(a.candidates, a.results),
                      Heaped(b.candidates, b.results), |xs|);
      }
    }
  }

  lemma {:induction false} TurnsOnce(g: Layer, h: Layer, dist: int -> real, ef: nat, mask: Mask, budget: Option<nat>,
                                     a: seq<Sweep>, b: seq<Sweep>, i: nat)
    requires Turns(g, dist, ef, mask, budget, a) && Turns(h, dist, ef, mask, budget, b) && a[0] == b[0]
    requires (forall x :: Nbrs(g, x) == Nbrs(h, x)) && i < |a| && i < |b|
    ensures a[i] == b[i]
    decreases i
  {
    if i > 0 {
      TurnsOnce(g, h, dist, ef, mask, budget, a, b, i - 1);
      assert TurnAt(g, dist, ef, mask, budget, a, i - 1) && TurnAt(h, dist, ef, mask, budget, b, i - 1);
      TurnOnce(g, h, dist, ef, mask, budget, a[i - 1], a[i], b[i]);
    }
  }

  /** A halted loop stays as it is. */
  lemma {:induction false} HaltedStays(g: Layer, dist: int -> real, ef: nat, mask: Mask, budget: Option<nat>,
                                       trace: seq<Sweep>, i: nat, j: nat)
    requires Turns(g, dist, ef, mask, budget, trace) && i <= j < |trace| && trace[i].halted
    ensures trace[j] == trace[i]
    decreases j
  {
    if i < j {
      HaltedStays(g, dist, ef, mask, budget, trace, i, j - 1);
      assert TurnAt(g, dist, ef, mask, budget, trace, j - 1);
    }
  }

  lemma StartsOnce(dist: int -> real, entry: seq<int>, ef: nat, mask: Mask, a: Sweep, b: Sweep)
    requires Starts(dist, entry, ef, mask, a) && Starts(dist, entry, ef, mask, b)
    ensures a == b
  {
    var from := Heaped([], []);
    var hs :| MeetTrace(hs, dist, ef, mask, entry, from, Heaped(a.candidates, a.results));
    var hs' :| MeetTrace(hs', dist, ef, mask, entry, from, Heaped(b.candidates, b.results));
    MeetTraceOnce(hs, hs', dist, ef, mask, entry, from, Heaped(a.candidates, a.results),
                  Heaped(b.candidates, b.results), |entry|);
  }

  /** Layers with the same neighbour lists, in the same order, give the same answer after the same visits. */
  lemma FindsOnce(g: Layer, h: Layer, dist: int -> real, entry: seq<int>, ef: nat, mask: Mask, budget: Option<nat>,
                  found: seq<Scored>, visits: nat, found': seq<Scored>, visits': nat)
    requires LayerFinds(g, dist, entry, ef, mask, budget, found, visits)
    requires LayerFinds(h, dist, entry, ef, mask, budget, found', visits')
    requires forall x :: Nbrs(g, x) == Nbrs(h, x)
    ensures found == found' && visits == visits'
  {
    var a :| FindsBy(g, dist, entry, ef, mask, budget, found, visits, a);
    var b :| FindsBy(h, dist, entry, ef, mask, budget, found', visits', b);
    StartsOnce(dist, entry, ef, mask, a[0], b[0]);
    if |a| <= |b| {
      TurnsOnce(g, h, dist, ef, mask, budget, a, b, |a| - 1);
      HaltedStays(h, dist, ef, mask, budget, b, |a| - 1, |b| - 1);
    } else {
      TurnsOnce(g, h, dist, ef, mask, budget, a, b, |b| - 1);
      HaltedStays(g, dist, ef, mask, budget, a, |b| - 1, |a| - 1);
    }
  }

  // ---------------------------------------------------------- the stop rule and the skip rule, spelled out

  /** The loop is left before a candidate strictly farther than the worst of ef answers; any other is expanded. */
  lemma StopsExactly(g: Layer, dist: int -> real, ef: nat, mask: Mask, budget: Option<nat>, s: Sweep, s': Sweep)
    requires TurnTo(g, dist, ef, mask, budget, s, s') && !s.halted && s.candidates != [] && s.results != []
    requires NoDup(Nbrs(g, s.candidates[0].id))
    ensures |s.results| >= ef && s.candidates[0].key > -s.results[0].key ==> s' == s.(halted := true)
    ensures |s.results| < ef || s.candidates[0].key <= -s.results[0].key ==>
              forall y :: y in Nbrs(g, s.candidates[0].id) ==> y in s'.visited
  {
    var ns := Nbrs(g, s.candidates[0].id);
    forall y | y in ns && y !in s.visited ensures y in Elems(Unvisited(ns, s.visited)) {
      assert y in Unvisited(ns, s.visited);
    }
  }

  /**
   A neighbour no nearer than the worst of ef answers is skipped. Any other becomes a candidate and, if
   admissible, an answer, in place of the worst when there were ef.
   */
  lemma MeetsExactly(h: Heaped, dist: int -> real, ef: nat, mask: Mask, x: int)
    requires Ordered(h.candidates) && Ordered(h.results) && 0 < ef && |h.results| <= ef
    requires Scored(dist(x), x) !in h.candidates && Scored(-dist(x), x) !in h.results
    ensures var h', skipped := MetOne(h, dist, ef, mask, x), |h.results| == ef && dist(x) >= -h.results[0].key;
            && (skipped ==> h' == h)
            && (!skipped ==> forall c :: c in h'.candidates <==> c in h.candidates || c == Scored(dist(x), x))
            && (!skipped && !Admits(mask, x) ==> h'.results == h.results)
            && (!skipped && Admits(mask, x) ==>
                  forall r :: r in h'.results <==>
                    r == Scored(-dist(x), x) || (r in h.results && (|h.results| < ef || r != h.results[0])))
  {
    var r := Scored(-dist(x), x);
    if !(|h.results| == ef && dist(x) >= -h.results[0].key) && Admits(mask, x) && |h.results| == ef {
      var all := Push(h.results, r);
      FirstStays(h.results, r);
      assert all == [all[0]] + all[1..];
    }
  }

  /** Pushing something greater leaves the head where it is, once. */
  lemma FirstStays(h: seq<Scored>, r: Scored)
    requires Ordered(h) && h != [] && r !in h && Before(h[0], r)
    ensures Push(h, r)[0] == h[0] && h[0] !in Push(h, r)[1..]
  {
    var all := Push(h, r);
    forall i | 1 <= i < |all| ensures all[i] != h[0] {
      assert Before(all[0], all[i]);
    }
  }
}
