/**
 Does post-filtering answer more as the over-fetch grows? Not always: `np.argpartition` may take
 either of two rows that tie at the cut, and a larger fetch may take the inadmissible one.
 */
module PostFilterTies {
  import opened Seqs
  import opened LayerSearch
  import opened UnionFind
  import opened Nearest
  import opened Strategies

  ghost function Below(n: nat, dist: int -> real, t: real): set<int> {
    set i | i in Upto(n) && dist(i) < t
  }

  ghost function Tied(n: nat, dist: int -> real, t: real): set<int> {
    set i | i in Upto(n) && dist(i) == t
  }

  /** The distance at which a fetch of f rows is cut. */
  ghost predicate CutOff(n: nat, dist: int -> real, f: nat, t: real) {
    |Below(n, dist, t)| < f <= |Below(n, dist, t)| + |Tied(n, dist, t)|
  }

  ghost function UpToCut(n: nat, dist: int -> real, t: real): set<int> {
    Below(n, dist, t) + Tied(n, dist, t)
  }

  lemma UpToCutSize(n: nat, dist: int -> real, t: real)
    ensures |UpToCut(n, dist, t)| == |Below(n, dist, t)| + |Tied(n, dist, t)|
    ensures UpToCut(n, dist, t) <= Upto(n) && Below(n, dist, t) !! Tied(n, dist, t)
  {
    assert Below(n, dist, t) * Tied(n, dist, t) == {};
  }

  lemma NearFetched(raw: seq<int>, n: nat, dist: int -> real, f: nat, t: real, x: int)
    requires f <= n && KNearest(raw, Upto(n), dist, f) && CutOff(n, dist, f, t) && x in Below(n, dist, t)
    ensures x in Elems(raw)
  {
    NoDupSize(raw);
    var r := Spare(Elems(raw), Below(n, dist, t) - {x});
    assert r in raw && r in Upto(n);
  }

  lemma FarNotFetched(raw: seq<int>, n: nat, dist: int -> real, f: nat, t: real, r: int)
    requires f <= n && KNearest(raw, Upto(n), dist, f) && CutOff(n, dist, f, t) && r in Elems(raw)
    ensures r in UpToCut(n, dist, t)
  {
    NoDupSize(raw);
    UpToCutSize(n, dist, t);
    assert r in raw && r in Upto(n) && |Elems(raw) - {r}| == |Elems(raw)| - 1;
    var x := Spare(UpToCut(n, dist, t), Elems(raw) - {r});
    assert x == r || x !in raw;
  }

  /** Rows nearer than the last one fetched were fetched. */
  lemma NearerThanLast(raw: seq<int>, n: nat, dist: int -> real, f: nat)
    requires 1 <= f <= n && KNearest(raw, Upto(n), dist, f)
    ensures Below(n, dist, dist(raw[f - 1])) <= Elems(raw) - {raw[f - 1]}
  {
    var last := raw[f - 1];
    forall x | x in Below(n, dist, dist(last)) ensures x in Elems(raw) - {last} {
      assert last in raw && (x in raw || dist(last) <= dist(x));
    }
  }

  /** None fetched is farther than the last one. */
  lemma NoneFarther(raw: seq<int>, n: nat, dist: int -> real, f: nat)
    requires 1 <= f <= n && KNearest(raw, Upto(n), dist, f)
    ensures Elems(raw) <= UpToCut(n, dist, dist(raw[f - 1]))
  {
    forall r | r in Elems(raw) ensures r in UpToCut(n, dist, dist(raw[f - 1])) {
      var i :| 0 <= i < |raw| && raw[i] == r;
      assert r in Upto(n) && (i == f - 1 || dist(raw[i]) <= dist(raw[f - 1]));
    }
  }

  /** The distance of the last row fetched is the cut. */
  lemma CutOfFetch(raw: seq<int>, n: nat, dist: int -> real, f: nat)
    requires 1 <= f <= n && KNearest(raw, Upto(n), dist, f)
    ensures CutOff(n, dist, f, dist(raw[f - 1]))
  {
    var last := raw[f - 1];
    NoDupSize(raw);
    NearerThanLast(raw, n, dist, f);
    assert last in Elems(raw);
    SubsetSize(Below(n, dist, dist(last)), Elems(raw) - {last});
    NoneFarther(raw, n, dist, f);
    UpToCutSize(n, dist, dist(last));
    SubsetSize(Elems(raw), UpToCut(n, dist, dist(last)));
  }

  /** What the cut leaves open: every nearer row is fetched, no further row is. */
  lemma FetchShape(raw: seq<int>, n: nat, dist: int -> real, f: nat, t: real)
    requires f <= n && KNearest(raw, Upto(n), dist, f) && CutOff(n, dist, f, t)
    ensures Below(n, dist, t) <= Elems(raw) <= UpToCut(n, dist, t) && |Elems(raw)| == f
  {
    NoDupSize(raw);
    forall x | x in Below(n, dist, t) ensures x in Elems(raw) {
      NearFetched(raw, n, dist, f, t, x);
    }
    forall r | r in Elems(raw) ensures r in UpToCut(n, dist, t) {
      FarNotFetched(raw, n, dist, f, t, r);
    }
  }

  // ------------------------------------------------------------- how many are kept

  ghost function AdmittedBelow(n: nat, dist: int -> real, t: real, mask: Mask): nat {
    |AdmissibleIn(Below(n, dist, t), mask)|
  }

  ghost function AdmittedTies(n: nat, dist: int -> real, t: real, mask: Mask): nat {
    |AdmissibleIn(Tied(n, dist, t), mask)|
  }

  ghost function OtherTies(n: nat, dist: int -> real, t: real, mask: Mask): set<int> {
    Tied(n, dist, t) - AdmissibleIn(Tied(n, dist, t), mask)
  }

  /** The rows a fetch takes at the cut itself. */
  ghost function Room(n: nat, dist: int -> real, f: nat, t: real): int {
    f - |Below(n, dist, t)|
  }

  /**
   The most, and the fewest, that a fetch cut at t can keep of k: all its room to admissible ties, or none
   it can spare.
   */
  ghost function Most(n: nat, dist: int -> real, mask: Mask, k: nat, f: nat, t: real): int {
    Min(k, AdmittedBelow(n, dist, t, mask) + Min(Room(n, dist, f, t), AdmittedTies(n, dist, t, mask)))
  }

  ghost function Fewest(n: nat, dist: int -> real, mask: Mask, k: nat, f: nat, t: real): int {
    Min(k, AdmittedBelow(n, dist, t, mask) + Max(0, Room(n, dist, f, t) - |OtherTies(n, dist, t, mask)|))
  }

  lemma KeptCount(raw: seq<int>, n: nat, dist: int -> real, f: nat, mask: Mask, k: nat)
    requires KNearest(raw, Upto(n), dist, f)
    ensures |PostRows(raw, mask, k)| == Min(k, |AdmissibleIn(Elems(raw), mask)|)
  {
    var kept := KeepRows(raw, mask);
    KeepRowsOrder(raw, mask, dist);
    NoDupSize(kept);
    KeptMembers(raw, mask);
  }

  lemma KeptMembers(raw: seq<int>, mask: Mask)
    ensures Elems(KeepRows(raw, mask)) == AdmissibleIn(Elems(raw), mask)
  {
    var kept := KeepRows(raw, mask);
    forall x ensures x in Elems(kept) <==> x in AdmissibleIn(Elems(raw), mask) {
      assert x in kept <==> x in raw && Admits(mask, x);
    }
    SameSet(Elems(kept), AdmissibleIn(Elems(raw), mask));
  }

  /** The admissible rows of a fetch: those below the cut and those it took at the cut. */
  lemma FetchSplits(s: set<int>, n: nat, dist: int -> real, t: real, mask: Mask)
    requires Below(n, dist, t) <= s <= UpToCut(n, dist, t)
    ensures var taken := s - Below(n, dist, t);
            && taken <= Tied(n, dist, t) && |taken| == |s| - |Below(n, dist, t)|
            && |AdmissibleIn(s, mask)| == AdmittedBelow(n, dist, t, mask) + |AdmissibleIn(taken, mask)|
  {
    var below := Below(n, dist, t);
    var taken := s - below;
    assert s == below + taken && below * taken == {};
    assert AdmissibleIn(s, mask) == AdmissibleIn(below, mask) + AdmissibleIn(taken, mask);
    assert AdmissibleIn(below, mask) * AdmissibleIn(taken, mask) == {};
  }

  lemma TakenBounds(taken: set<int>, tied: set<int>, mask: Mask)
    requires taken <= tied
    ensures |AdmissibleIn(taken, mask)| <= Min(|taken|, |AdmissibleIn(tied, mask)|)
    ensures |AdmissibleIn(taken, mask)| >= |taken| - |tied - AdmissibleIn(tied, mask)|
  {
    SubsetSize(AdmissibleIn(taken, mask), taken);
    SubsetSize(AdmissibleIn(taken, mask), AdmissibleIn(tied, mask));
    SubsetSize(taken - AdmissibleIn(taken, mask), tied - AdmissibleIn(tied, mask));
  }

  /** The admissible rows of a fetch number the admissible nearer ones and those it took at the cut. */
  lemma KeptSplits(raw: seq<int>, n: nat, dist: int -> real, mask: Mask, f: nat, t: real) returns (taken: set<int>)
    requires f <= n && KNearest(raw, Upto(n), dist, f) && CutOff(n, dist, f, t)
    ensures taken <= Tied(n, dist, t) && |taken| == Room(n, dist, f, t)
    ensures |AdmissibleIn(Elems(raw), mask)| == AdmittedBelow(n, dist, t, mask) + |AdmissibleIn(taken, mask)|
  {
    FetchShape(raw, n, dist, f, t);
    FetchSplits(Elems(raw), n, dist, t, mask);
    taken := Elems(raw) - Below(n, dist, t);
  }

  /** Whatever the tie choice, a fetch keeps between the fewest and the most. */
  lemma KeptBounds(raw: seq<int>, n: nat, dist: int -> real, mask: Mask, k: nat, f: nat, t: real)
    requires f <= n && KNearest(raw, Upto(n), dist, f) && CutOff(n, dist, f, t)
    ensures Fewest(n, dist, mask, k, f, t) <= |PostRows(raw, mask, k)| <= Most(n, dist, mask, k, f, t)
  {
    KeptCount(raw, n, dist, f, mask, k);
    var taken := KeptSplits(raw, n, dist, mask, f, t);
    TakenBounds(taken, Tied(n, dist, t), mask);
  }

  // ------------------------------------------------------------- both ends are reached

  lemma {:induction false} SomeSubset(s: set<int>, size: nat) returns (t: set<int>)
    requires size <= |s|
    ensures t <= s && |t| == size
    decreases size
  {
    if size == 0 {
      t := {};
    } else {
      var rest := SomeSubset(s, size - 1);
      var x := Spare(s, rest);
      t := rest + {x};
    }
  }

  lemma {:induction false} ListOf(s: set<int>) returns (list: seq<int>)
    ensures NoDup(list) && Elems(list) == s && |list| == |s|
    decreases |s|
  {
    list := [];
    if |s| > 0 {
      var x := Spare(s, {});
      var rest := ListOf(s - {x});
      assert x !in Elems(rest);
      list := rest + [x];
      assert Elems(list) == Elems(rest) + {x};
    }
  }

  /** Any rows between the two sides of the cut, f of them, are a fetch. */
  lemma AnyFetch(s: set<int>, n: nat, dist: int -> real, f: nat, t: real) returns (raw: seq<int>)
    requires f <= n && Below(n, dist, t) <= s <= UpToCut(n, dist, t) && |s| == f
    ensures KNearest(raw, Upto(n), dist, f) && Elems(raw) == s
  {
    UpToCutSize(n, dist, t);
    var list := ListOf(s);
    forall r, x | r in list && x in Upto(n) && x !in list ensures dist(r) <= dist(x) {
      assert r in Elems(list) && x !in Elems(list);
      assert r in UpToCut(n, dist, t) && x !in Below(n, dist, t);
    }
    SortedChoice(list, Upto(n), dist, [], f);
    raw := SortRows(list, dist, []);
    SortRowsSorted(list, dist, []);
    SameMembers(list, raw);
  }

  /** A fetch with given rows at the cut. */
  lemma FetchWith(taken: set<int>, n: nat, dist: int -> real, mask: Mask, k: nat, f: nat, t: real)
    returns (raw: seq<int>)
    requires f <= n && CutOff(n, dist, f, t) && taken <= Tied(n, dist, t) && |taken| == Room(n, dist, f, t)
    ensures KNearest(raw, Upto(n), dist, f)
    ensures |PostRows(raw, mask, k)| == Min(k, AdmittedBelow(n, dist, t, mask) + |AdmissibleIn(taken, mask)|)
  {
    UpToCutSize(n, dist, t);
    var s := Below(n, dist, t) + taken;
    assert s - Below(n, dist, t) == taken;
    raw := AnyFetch(s, n, dist, f, t);
    KeptCount(raw, n, dist, f, mask, k);
    FetchSplits(s, n, dist, t, mask);
  }

  /** Some rows at the cut, so many of them admissible. */
  lemma SomeTaken(tied: set<int>, mask: Mask, good: nat, other: nat) returns (taken: set<int>)
    requires good <= |AdmissibleIn(tied, mask)| && other <= |tied - AdmissibleIn(tied, mask)|
    ensures taken <= tied && |taken| == good + other && |AdmissibleIn(taken, mask)| == good
  {
    var chosen := SomeSubset(AdmissibleIn(tied, mask), good);
    var filler := SomeSubset(tied - AdmissibleIn(tied, mask), other);
    assert chosen * filler == {} && AdmissibleIn(chosen + filler, mask) == chosen;
    taken := chosen + filler;
  }

  lemma TiesSplit(tied: set<int>, mask: Mask)
    ensures |tied| == |AdmissibleIn(tied, mask)| + |tied - AdmissibleIn(tied, mask)|
  {
    assert tied == AdmissibleIn(tied, mask) + (tied - AdmissibleIn(tied, mask));
  }

  lemma MostReached(n: nat, dist: int -> real, mask: Mask, k: nat, f: nat, t: real) returns (raw: seq<int>)
    requires f <= n && CutOff(n, dist, f, t)
    ensures KNearest(raw, Upto(n), dist, f) && |PostRows(raw, mask, k)| == Most(n, dist, mask, k, f, t)
  {
    var room, tied := Room(n, dist, f, t), Tied(n, dist, t);
    var good := Min(room, |AdmissibleIn(tied, mask)|);
    TiesSplit(tied, mask);
    var taken := SomeTaken(tied, mask, good, room - good);
    raw := FetchWith(taken, n, dist, mask, k, f, t);
  }

  lemma FewestReached(n: nat, dist: int -> real, mask: Mask, k: nat, f: nat, t: real) returns (raw: seq<int>)
    requires f <= n && CutOff(n, dist, f, t)
    ensures KNearest(raw, Upto(n), dist, f) && |PostRows(raw, mask, k)| == Fewest(n, dist, mask, k, f, t)
  {
    var room, tied := Room(n, dist, f, t), Tied(n, dist, t);
    var other := Min(room, |OtherTies(n, dist, t, mask)|);
    TiesSplit(tied, mask);
    var taken := SomeTaken(tied, mask, room - other, other);
    raw := FetchWith(taken, n, dist, mask, k, f, t);
  }

  // ------------------------------------------------------------- when a larger fetch never answers less

  ghost predicate NeverShorter(n: nat, dist: int -> real, mask: Mask, k: nat, f: nat, f': nat) {
    forall raw, raw' :: KNearest(raw, Upto(n), dist, f) && KNearest(raw', Upto(n), dist, f') ==>
      |PostRows(raw, mask, k)| <= |PostRows(raw', mask, k)|
  }

  /** Cut at a greater distance, the larger fetch has all rows of the smaller. */
  lemma FurtherCutIsMore(n: nat, dist: int -> real, mask: Mask, k: nat, f: nat, t: real, f': nat, t': real)
    requires CutOff(n, dist, f, t) && CutOff(n, dist, f', t') && t < t'
    ensures Most(n, dist, mask, k, f, t) <= Fewest(n, dist, mask, k, f', t')
  {
    var near := AdmissibleIn(Below(n, dist, t), mask) + AdmissibleIn(Tied(n, dist, t), mask);
    assert AdmissibleIn(Below(n, dist, t), mask) * AdmissibleIn(Tied(n, dist, t), mask) == {};
    SubsetSize(near, AdmissibleIn(Below(n, dist, t'), mask));
  }

  /** The cut of a larger fetch is no nearer. */
  lemma CutsAscend(n: nat, dist: int -> real, f: nat, t: real, f': nat, t': real)
    requires CutOff(n, dist, f, t) && CutOff(n, dist, f', t') && f <= f'
    ensures t <= t'
  {
    if t' < t {
      UpToCutSize(n, dist, t');
      SubsetSize(UpToCut(n, dist, t'), Below(n, dist, t));
    }
  }

  /**
   For fetches f <= f' of at most n rows: post-filtering is never shorter with f', however ties
   are taken, exactly when f' is cut at a greater distance than f or the ties at the common cut
   leave it no way to keep fewer.
   */
  lemma NeverShorterExactlyWhen(n: nat, dist: int -> real, mask: Mask, k: nat, f: nat, t: real, f': nat, t': real)
    requires f <= f' <= n && CutOff(n, dist, f, t) && CutOff(n, dist, f', t')
    ensures NeverShorter(n, dist, mask, k, f, f') <==>
              t < t' || Most(n, dist, mask, k, f, t) <= Fewest(n, dist, mask, k, f', t')
  {
    CutsAscend(n, dist, f, t, f', t');
    if t < t' {
      FurtherCutIsMore(n, dist, mask, k, f, t, f', t');
    }
    if Most(n, dist, mask, k, f, t) <= Fewest(n, dist, mask, k, f', t') {
      forall raw, raw' | KNearest(raw, Upto(n), dist, f) && KNearest(raw', Upto(n), dist, f')
        ensures |PostRows(raw, mask, k)| <= |PostRows(raw', mask, k)|
      {
        KeptBounds(raw, n, dist, mask, k, f, t);
        KeptBounds(raw', n, dist, mask, k, f', t');
      }
    } else {
      var raw := MostReached(n, dist, mask, k, f, t);
      var raw' := FewestReached(n, dist, mask, k, f', t');
    }
  }

  /**
   The same for the fetches themselves, of any size: the cuts are the distances of the last rows
   they bring, and a fetch of the whole corpus never answers less.
   */
  lemma LargerFetchNeverShorter(n: nat, dist: int -> real, mask: Mask, k: nat, f: nat, f': nat, raw: seq<int>,
                                raw': seq<int>)
    requires 1 <= f <= f' && KNearest(raw, Upto(n), dist, f) && KNearest(raw', Upto(n), dist, f')
    ensures NeverShorter(n, dist, mask, k, f, f') <==>
              (f' >= n || dist(raw[f - 1]) < dist(raw'[f' - 1])
               || Most(n, dist, mask, k, f, dist(raw[f - 1])) <= Fewest(n, dist, mask, k, f', dist(raw'[f' - 1])))
  {
    if f' >= n {
      forall few, many | KNearest(few, Upto(n), dist, f) && KNearest(many, Upto(n), dist, f')
        ensures |PostRows(few, mask, k)| <= |PostRows(many, mask, k)|
      {
        PostNearest(few, n, dist, mask, f, k);
        PostNearest(many, n, dist, mask, f', k);
      }
    } else {
      CutOfFetch(raw, n, dist, f);
      CutOfFetch(raw', n, dist, f');
      NeverShorterExactlyWhen(n, dist, mask, k, f, dist(raw[f - 1]), f', dist(raw'[f' - 1]));
    }
  }

  function AllAlike(i: int): real {
    1.0
  }

  lemma OneOfThree(rows: seq<int>)
    requires rows == [0] || rows == [1, 2]
    ensures KNearest(rows, Upto(3), AllAlike, |rows|)
    ensures |PostRows(rows, Some([true, false, false]), 1)| == if rows == [0] then 1 else 0
  {
    forall r | r in Elems(rows) ensures r in Upto(3) {
      assert r in rows;
    }
    var mask := Some([true, false, false]);
    KeptCount(rows, 3, AllAlike, |rows|, mask, 1);
    var admitted: set<int> := if rows == [0] then {0} else {};
    assert AdmissibleIn(Elems(rows), mask) == admitted;
  }

  /**
   It can be shorter: of three rows at one distance the first is admissible; one fetch takes it, the next
   takes the other two.
   */
  lemma CanBeShorter()
    ensures !NeverShorter(3, AllAlike, Some([true, false, false]), 1, Fetch(1, 1), Fetch(1, 2))
  {
    OneOfThree([0]);
    OneOfThree([1, 2]);
  }
}
