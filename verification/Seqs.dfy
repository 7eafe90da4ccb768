/** The vocabulary the other modules share: options, filters, and sequences without repetition. */
module Seqs {

  datatype Option<+T> = None | Some(value: T)

  function Min(a: int, b: int): int {
    if a <= b then a else b
  }

  function Max(a: int, b: int): int {
    if a <= b then b else a
  }

  /** A filter over row numbers; none admits every row. */
  type Mask = Option<seq<bool>>

  predicate Admits(mask: Mask, x: int) {
    mask.None? || (0 <= x < |mask.value| && mask.value[x])
  }

  predicate NoDup<T(==)>(s: seq<T>) {
    forall i, j :: 0 <= i < j < |s| ==> s[i] != s[j]
  }

  function Elems<T>(s: seq<T>): set<T> {
    set x | x in s
  }

  lemma HeadOf<T>(s: seq<T>) returns (x: T)
    requires s != []
    ensures x in s
  {
    x := s[0];
  }

  lemma NoDupAppend<T>(a: seq<T>, b: seq<T>)
    requires NoDup(a) && NoDup(b) && forall x :: x in a ==> x !in b
    ensures NoDup(a + b)
  {
    var c := a + b;
    forall i, j | 0 <= i < j < |c| ensures c[i] != c[j] {
      if i < |a| <= j {
        assert c[i] in a && c[j] in b;
      }
    }
  }

  /** A list without repetition has as many members as positions. */
  lemma {:induction false} NoDupSize<T>(s: seq<T>)
    requires NoDup(s)
    ensures |Elems(s)| == |s|
  {
    if s != [] {
      var rest, last := s[..|s| - 1], s[|s| - 1];
      NoDupSize(rest);
      assert Elems(s) == Elems(rest) + {last};
    }
  }

  /** A list without repetition drawn from a finite set is no longer than the set. */
  lemma NoDupBound<T>(s: seq<T>, of: set<T>)
    requires NoDup(s) && Elems(s) <= of
    ensures |s| <= |of|
    ensures |s| == |of| ==> Elems(s) == of
  {
    NoDupSize(s);
    SubsetSize(Elems(s), of);
  }

  /** A list as long as its member set has no repetition. */
  lemma {:induction false} SizeNoDup<T>(s: seq<T>)
    ensures |Elems(s)| <= |s|
    ensures |Elems(s)| == |s| ==> NoDup(s)
  {
    if s != [] {
      var rest, last := s[..|s| - 1], s[|s| - 1];
      SizeNoDup(rest);
      assert Elems(s) == Elems(rest) + {last};
      assert last in Elems(rest) ==> Elems(s) == Elems(rest);
      assert forall x :: x in rest ==> x in Elems(rest);
    }
  }

  /** In a list without repetition the next element is new. */
  lemma FreshAt<T>(s: seq<T>, k: nat)
    requires NoDup(s) && k < |s|
    ensures s[k] !in s[..k] && s[..k + 1] == s[..k] + [s[k]]
    ensures s[k] !in Elems(s[..k]) && Elems(s[..k + 1]) == Elems(s[..k]) + {s[k]}
  {
    var x := s[k];
    assert s[..k + 1] == s[..k] + [x];
    forall i | 0 <= i < k ensures s[..k][i] != x {
      assert s[i] != s[k];
    }
  }

  /** What is not in a prefix does not occur before its end. */
  lemma NotBefore<T>(s: seq<T>, x: T, j: nat)
    requires j <= |s| && x !in s[..j]
    ensures forall q :: 0 <= q < j ==> s[q] != x
  {
    forall q | 0 <= q < j ensures s[q] != x {
      assert s[..j][q] in s[..j];
    }
  }

  lemma SubsetSize<T>(a: set<T>, b: set<T>)
    requires a <= b
    ensures |a| <= |b|
    ensures |a| == |b| ==> a == b
  {
    assert b == a + (b - a);
    assert |b| == |a| + |b - a|;
    if |a| == |b| {
      assert b - a == {};
    }
  }

  /** Of more members than `b` has, one is not in `b`. */
  lemma Spare<T>(a: set<T>, b: set<T>) returns (x: T)
    requires |a| > |b|
    ensures x in a && x !in b
  {
    if a - b == {} {
      assert forall y :: y in a ==> y in b || y in a - b;
      SubsetSize(a, b);
    }
    x :| x in a - b;
  }

  /** `list.remove`: the list without the first occurrence of `x`. */
  function Without<T(==)>(s: seq<T>, x: T): (r: seq<T>)
    ensures x !in s ==> r == s
    ensures x in s ==> |r| == |s| - 1
    ensures forall y :: y in r ==> y in s
    ensures forall y :: y in s && y != x ==> y in r
  {
    if s == [] then []
    else if s[0] == x then s[1..]
    else
      var r := [s[0]] + Without(s[1..], x);
      assert forall y :: y in s ==> y == s[0] || y in s[1..];
      r
  }

  lemma {:induction false} WithoutNoDup<T>(s: seq<T>, x: T)
    requires NoDup(s)
    ensures NoDup(Without(s, x)) && x !in Without(s, x)
  {
    if s != [] && s[0] != x {
      WithoutNoDup(s[1..], x);
      assert s[0] !in s[1..];
      assert forall y :: y in Without(s[1..], x) ==> y in s[1..];
    }
  }

  /** Every entry but one is as it was. */
  ghost predicate OthersKept<K(!new), V>(m: map<K, V>, m': map<K, V>, k: K) {
    forall j :: j in m && j != k ==> j in m' && m'[j] == m[j]
  }

  lemma SameButOne<K(!new), V>(m: map<K, V>, m': map<K, V>, k: K)
    requires m'.Keys == m.Keys + {k} && OthersKept(m, m', k)
    ensures m' == m[k := m'[k]]
  {
  }

  lemma SameSet<T>(a: set<T>, b: set<T>)
    requires forall x :: x in a <==> x in b
    ensures a == b
  {
  }

  lemma LoneMember<T>(s: seq<T>, x: T)
    requires |s| == 1 && x in s
    ensures Elems(s) - {x} == {}
  {
  }

  /** How much of n entries `[:k]` takes: a negative k counts from the end. */
  function SliceTo(n: nat, k: int): (r: nat)
    ensures r <= n && (k >= 0 ==> r == Min(k, n))
  {
    if k >= 0 then Min(k, n) else Max(0, n + k)
  }

  /** Maps with the same keys and the same value under each are the same map. */
  lemma SameMap<K, V>(a: map<K, V>, b: map<K, V>)
    requires a.Keys == b.Keys && forall k :: k in a ==> a[k] == b[k]
    ensures a == b
  {
  }
}
