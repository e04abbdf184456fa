/** qsort with a comparator that leaves no two elements of the list equal. */
module Sorting {

  /** What a comparison function owes to qsort. */
  ghost predicate Comparator<T(!new)>(cmp: (T, T) -> int) {
    && (forall a, b {:trigger cmp(a, b)} :: cmp(a, b) < 0 <==> cmp(b, a) > 0)
    && (forall a, b, c {:trigger cmp(a, b), cmp(b, c)} :: cmp(a, b) < 0 && cmp(b, c) < 0 ==> cmp(a, c) < 0)
  }

  lemma Flip<T(!new)>(cmp: (T, T) -> int, a: T, b: T)
    requires Comparator(cmp)
    ensures cmp(a, b) < 0 <==> cmp(b, a) > 0
    ensures cmp(a, b) > 0 <==> cmp(b, a) < 0
  {
  }

  lemma Chain<T(!new)>(cmp: (T, T) -> int, a: T, b: T, c: T)
    requires Comparator(cmp) && cmp(a, b) < 0 && cmp(b, c) < 0
    ensures cmp(a, c) < 0
  {
  }

  ghost predicate SortedBy<T>(cmp: (T, T) -> int, s: seq<T>) {
    forall i, j | 0 <= i < j < |s| :: cmp(s[i], s[j]) < 0
  }

  ghost predicate NoTies<T>(cmp: (T, T) -> int, s: seq<T>) {
    forall i, j | 0 <= i < j < |s| :: cmp(s[i], s[j]) != 0
  }

  lemma SameMembers<T>(a: seq<T>, b: seq<T>)
    requires multiset(a) == multiset(b)
    ensures |a| == |b| && forall x :: x in a <==> x in b
  {
    assert |multiset(a)| == |a| && |multiset(b)| == |b|;
    forall x
      ensures x in a <==> x in b
    {
      assert x in a <==> x in multiset(a);
      assert x in b <==> x in multiset(b);
    }
  }

  lemma DropLast<T>(a: seq<T>, b: seq<T>)
    requires multiset(a) == multiset(b) && a != [] && b != [] && a[|a| - 1] == b[|b| - 1]
    ensures multiset(a[..|a| - 1]) == multiset(b[..|b| - 1])
  {
    Front(a);
    Front(b);
  }

  lemma Front<T>(a: seq<T>)
    requires a != []
    ensures multiset(a[..|a| - 1]) == multiset(a) - multiset{a[|a| - 1]}
  {
    assert a == a[..|a| - 1] + [a[|a| - 1]];
  }

  lemma SameLast<T(!new)>(cmp: (T, T) -> int, a: seq<T>, b: seq<T>)
    requires Comparator(cmp) && SortedBy(cmp, a) && SortedBy(cmp, b) && a != [] && b != []
    requires forall x :: x in a <==> x in b
    ensures a[|a| - 1] == b[|b| - 1]
  {
    hide Comparator;
    var x, y := a[|a| - 1], b[|b| - 1];
    assert x in a && y in b;
    var k :| 0 <= k < |b| && b[k] == x;
    var m :| 0 <= m < |a| && a[m] == y;
    Flip(cmp, x, y);
  }

  /** The comparator leaves no choice: every sorted arrangement is the same. */
  lemma {:induction false} SortUnique<T(!new)>(cmp: (T, T) -> int, a: seq<T>, b: seq<T>)
    requires Comparator(cmp) && SortedBy(cmp, a) && SortedBy(cmp, b) && multiset(a) == multiset(b)
    ensures a == b
    decreases |a|
  {
    hide Comparator;
    if a == [] {
      assert |multiset(b)| == 0;
    } else {
      SameMembers(a, b);
      SameLast(cmp, a, b);
      DropLast(a, b);
      SortUnique(cmp, a[..|a| - 1], b[..|b| - 1]);
    }
  }

  /** qsort, as an insertion sort. */
  method QSort<T(!new)>(cmp: (T, T) -> int, s: seq<T>) returns (r: seq<T>)
    requires Comparator(cmp) && NoTies(cmp, s)
    ensures SortedBy(cmp, r) && multiset(r) == multiset(s)
  {
    hide SortedBy, Comparator;
    r := [];
    NothingToSort(cmp);
    var i := 0;
    while i < |s|
      invariant 0 <= i <= |s| && SortedBy(cmp, r) && multiset(r) == multiset(s[..i])
    {
      assert s[..i + 1] == s[..i] + [s[i]];
      forall k | 0 <= k < |r|
        ensures cmp(r[k], s[i]) != 0
      {
        assert r[k] in multiset(s[..i]);
      }
      r := Insert(cmp, r, s[i]);
      i := i + 1;
    }
    assert s[..i] == s;
  }

  lemma NothingToSort<T>(cmp: (T, T) -> int)
    ensures SortedBy(cmp, [])
  {
  }

  method Insert<T(!new)>(cmp: (T, T) -> int, s: seq<T>, x: T) returns (r: seq<T>)
    requires Comparator(cmp) && SortedBy(cmp, s) && forall k | 0 <= k < |s| :: cmp(s[k], x) != 0
    ensures SortedBy(cmp, r) && multiset(r) == multiset(s) + multiset{x}
  {
    hide SortedBy, Comparator;
    var at := |s|;
    while at > 0 && cmp(x, s[at - 1]) < 0
      invariant 0 <= at <= |s|
      invariant forall k | at <= k < |s| :: cmp(x, s[k]) < 0
    {
      at := at - 1;
    }
    r := s[..at] + [x] + s[at..];
    InsertedBag(s, x, at);
    InsertedSorted(cmp, s, x, at);
  }

  lemma InsertedBag<T>(s: seq<T>, x: T, at: nat)
    requires at <= |s|
    ensures multiset(s[..at] + [x] + s[at..]) == multiset(s) + multiset{x}
  {
    assert s == s[..at] + s[at..];
  }

  lemma InsertedSorted<T(!new)>(cmp: (T, T) -> int, s: seq<T>, x: T, at: nat)
    requires Comparator(cmp) && SortedBy(cmp, s) && at <= |s|
    requires forall k | 0 <= k < |s| :: cmp(s[k], x) != 0
    requires at > 0 ==> cmp(x, s[at - 1]) >= 0
    requires forall k | at <= k < |s| :: cmp(x, s[k]) < 0
    ensures SortedBy(cmp, s[..at] + [x] + s[at..])
  {
    hide Comparator;
    forall k | 0 <= k < at
      ensures cmp(s[k], x) < 0
    {
      Flip(cmp, s[at - 1], x);
      if k < at - 1 {
        Chain(cmp, s[k], s[at - 1], x);
      }
    }
  }
}
