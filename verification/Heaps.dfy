/**
 The (key, id) pairs that the program keeps in `heapq` lists and hands to `sorted`.
 A heap is kept as the list in ascending order, so its head is the element a
 pop returns; pairs compare as Python tuples do.
 */
module Heaps {
  import opened Seqs

  datatype Scored = Scored(key: real, id: int)

  predicate Before(a: Scored, b: Scored) {
    a.key < b.key || (a.key == b.key && a.id < b.id)
  }

  predicate Ordered(h: seq<Scored>) {
    forall i, j :: 0 <= i < j < |h| ==> Before(h[i], h[j])
  }

  /** Push: the new pair lands at the one place that keeps the list ascending. */
  function Push(h: seq<Scored>, x: Scored): (r: seq<Scored>)
    requires Ordered(h) && x !in h
    ensures Ordered(r)
    ensures |r| == |h| + 1
    ensures forall y :: y in r <==> y in h || y == x
  {
    if h == [] then [x]
    else if Before(x, h[0]) then [x] + h
    else
      var t := Push(h[1..], x);
      assert h == [h[0]] + h[1..];
      assert forall y :: y in t ==> Before(h[0], y);
      [h[0]] + t
  }

  /** Two ascending lists of the same pairs are the same list. */
  lemma {:induction false} OrderedUnique(a: seq<Scored>, b: seq<Scored>)
    requires Ordered(a) && Ordered(b) && forall y :: y in a <==> y in b
    ensures a == b
  {
    if a != [] {
      var x := a[0];
      assert x in a && x in b;
      assert b[0] in b && b[0] in a;
      assert x == b[0];
      forall z ensures z in a[1..] <==> z in b[1..] {
        if z in a[1..] {
          assert z in a && Before(x, z);
        }
        if z in b[1..] {
          assert z in b && Before(x, z);
        }
      }
      OrderedUnique(a[1..], b[1..]);
      assert a == [x] + a[1..] && b == [b[0]] + b[1..];
    } else if b != [] {
      var y := HeadOf(b);
    }
  }

  /** `sorted` on pairs that are all different. */
  function Sorted(s: seq<Scored>): (r: seq<Scored>)
    requires NoDup(s)
    ensures Ordered(r) && |r| == |s|
    ensures forall y :: y in r <==> y in s
  {
    if s == [] then []
    else
      assert forall y :: y in s <==> y == s[0] || y in s[1..];
      Push(Sorted(s[1..]), s[0])
  }
}
