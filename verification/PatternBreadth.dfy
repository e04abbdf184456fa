/** How long the queue of tkcompile (src/auto/token.c:370-404) grows: while no label is lost it holds
    exactly the labels that come after the present one in breadth-first order and whose parents do
    not. */
module PatternBreadth {
  import opened Labels
  import opened PatternTrie
  import opened PatternFrontier

  // ----- breadth-first order

  /** Shorter labels come first, labels of one length in the order of their parents, and the
      children of one label in the order of their letters. */
  predicate Before(u: Label, v: Label)
    decreases |u|
  {
    |u| < |v| ||
    (|u| == |v| && u != [] && (Before(Parent(u), Parent(v)) || (Parent(u) == Parent(v) && Last(u) < Last(v))))
  }

  lemma {:induction false} BeforeNotSelf(u: Label)
    ensures !Before(u, u)
    decreases |u|
  {
    if u != [] {
      BeforeNotSelf(Parent(u));
    }
  }

  lemma {:induction false} BeforeTransitive(u: Label, v: Label, w: Label)
    requires Before(u, v) && Before(v, w)
    ensures Before(u, w)
    decreases |u|
  {
    if |u| == |w| {
      if Before(Parent(u), Parent(v)) && Before(Parent(v), Parent(w)) {
        BeforeTransitive(Parent(u), Parent(v), Parent(w));
      }
    }
  }

  lemma {:induction false} BeforeTotal(u: Label, v: Label)
    ensures u == v || Before(u, v) || Before(v, u)
    decreases |u|
  {
    if |u| == |v| && u != [] {
      BeforeTotal(Parent(u), Parent(v));
      ExtOfParent(u);
      ExtOfParent(v);
    }
  }

  /** A label comes after those above it. */
  lemma ParentBefore(v: Label)
    requires v != []
    ensures Before(Parent(v), v)
  {
  }

  // ----- the waiting labels

  /** With the children of cur up to letter bound queued. */
  ghost predicate Waits(T: Trie, cur: Label, bound: int, v: Label) {
    && v in T && v != [] && Before(cur, v)
    && (Before(Parent(v), cur) || (Parent(v) == cur && Last(v) < bound))
  }

  ghost function Waiting(T: Trie, cur: Label, bound: int): set<Label> {
    set v | v in T && Waits(T, cur, bound, v)
  }

  /** No more than n labels ever wait. */
  ghost predicate NeverFull(T: Trie, n: nat) {
    forall v | v in T :: |Waiting(T, v, 255)| <= n
  }

  lemma WaitingStart(T: Trie)
    ensures Waiting(T, [], 1) == {}
  {
  }

  lemma WaitingStep(T: Trie, w: Label, lo: int, c: Letter)
    requires lo <= c && Absent(T, w, lo, c) && Ext(w, c) in T
    ensures Waiting(T, w, c as int + 1) == Waiting(T, w, lo) + {Ext(w, c)} && Ext(w, c) !in Waiting(T, w, lo)
  {
    hide Before;
    var u := Ext(w, c);
    ParentBefore(u);
    BeforeNotSelf(w);
    forall v
      ensures v in Waiting(T, w, c as int + 1) <==> v in Waiting(T, w, lo) || v == u
    {
      if v in T && v != [] && Parent(v) == w && lo <= Last(v) {
        ExtOfParent(v);
      }
    }
  }

  lemma WaitingGrows(T: Trie, w: Label, lo: int, hi: int)
    requires lo <= hi
    ensures |Waiting(T, w, lo)| <= |Waiting(T, w, hi)|
  {
    assert Waiting(T, w, lo) <= Waiting(T, w, hi);
    SubsetCard(Waiting(T, w, lo), Waiting(T, w, hi));
  }

  lemma WaitingEnd(T: Trie, w: Label, lo: int)
    requires Absent(T, w, lo, 255)
    ensures Waiting(T, w, lo) == Waiting(T, w, 255)
  {
    hide Before;
    forall v | v in Waiting(T, w, 255)
      ensures v in Waiting(T, w, lo)
    {
      if Parent(v) == w && lo <= Last(v) {
        ExtOfParent(v);
      }
    }
    assert Waiting(T, w, lo) <= Waiting(T, w, 255);
  }

  /** Whatever comes after cur, a waiting label comes no later. */
  lemma {:induction false} SomeWaits(T: Trie, cur: Label, x: Label) returns (q: Label)
    requires PrefixClosed(T.Keys) && x in T && Before(cur, x)
    ensures Waits(T, cur, 255, q) && (q == x || Before(q, x))
    decreases |x|
  {
    var p := Parent(x);
    BeforeTotal(p, cur);
    if Before(cur, p) {
      q := SomeWaits(T, cur, p);
      ParentBefore(x);
      if q != p {
        BeforeTransitive(q, p, x);
      }
    } else {
      q := x;
    }
  }

  /** w is the first of the waiting labels. */
  ghost predicate First(T: Trie, cur: Label, w: Label) {
    Waits(T, cur, 255, w) && forall v | Waits(T, cur, 255, v) && v != w :: Before(w, v)
  }

  /** Then nothing comes between. */
  lemma NothingBetween(T: Trie, cur: Label, w: Label, x: Label)
    requires PrefixClosed(T.Keys) && First(T, cur, w) && x in T && Before(x, w)
    ensures x == cur || Before(x, cur)
  {
    hide Before, PrefixClosed;
    BeforeTotal(x, cur);
    if Before(cur, x) {
      var q := SomeWaits(T, cur, x);
      if q != w && q != x {
        BeforeTransitive(w, q, x);
      }
      BeforeNotSelf(x);
      if q != w || q != x {
        assert Before(w, x);
        BeforeTransitive(x, w, x);
      }
    }
  }

  lemma WaitingNext(T: Trie, cur: Label, w: Label)
    requires PrefixClosed(T.Keys) && First(T, cur, w)
    ensures Waiting(T, w, 1) == Waiting(T, cur, 255) - {w}
  {
    hide Before;
    forall v
      ensures v in Waiting(T, w, 1) <==> v in Waiting(T, cur, 255) && v != w
    {
      if Waits(T, w, 1, v) {
        NextWaited(T, cur, w, v);
      } else if Waits(T, cur, 255, v) && v != w {
        StillWaits(T, cur, w, v);
      }
    }
  }

  lemma NextWaited(T: Trie, cur: Label, w: Label, v: Label)
    requires PrefixClosed(T.Keys) && First(T, cur, w) && Waits(T, w, 1, v)
    ensures Waits(T, cur, 255, v) && v != w
  {
    hide Before;
    BeforeTransitive(cur, w, v);
    BeforeNotSelf(w);
    NothingBetween(T, cur, w, Parent(v));
  }

  lemma StillWaits(T: Trie, cur: Label, w: Label, v: Label)
    requires First(T, cur, w) && Waits(T, cur, 255, v) && v != w
    ensures Waits(T, w, 1, v)
  {
    hide Before;
    if Parent(v) != cur {
      BeforeTransitive(Parent(v), cur, w);
    }
  }

  // ----- how many can wait

  /** No label of the list is a prefix of another. */
  ghost predicate Antichain(qs: seq<Label>) {
    forall i, j | 0 <= i < j < |qs| :: !(qs[i] <= qs[j]) && !(qs[j] <= qs[i])
  }

  ghost function SomeKey(D: Dictionary, w: Label): (k: Label)
    requires Extends(D, w)
    ensures k in D && w <= k
  {
    var k :| k in D && w <= k;
    k
  }

  /** Every member of the list lies on the way to one of the keys, and the other way round. */
  ghost predicate Below(qs: seq<Label>, keys: set<Label>) {
    forall k | k in keys :: exists i :: 0 <= i < |qs| && qs[i] <= k
  }

  lemma BelowMore(qs: seq<Label>, q: Label, keys: set<Label>, key: Label)
    requires Below(qs, keys) && q <= key
    ensures Below(qs + [q], keys + {key})
  {
    var all := qs + [q];
    forall k | k in keys + {key}
      ensures exists i :: 0 <= i < |all| && all[i] <= k
    {
      if k == key {
        assert all[|qs|] <= k;
      } else {
        var i :| 0 <= i < |qs| && qs[i] <= k;
        assert all[i] <= k;
      }
    }
  }

  /** A keyword below the last member of an antichain lies below none of the others. */
  lemma NotBelow(qs: seq<Label>, keys: set<Label>, key: Label)
    requires qs != [] && Antichain(qs) && qs[|qs| - 1] <= key && Below(qs[..|qs| - 1], keys)
    ensures key !in keys
  {
    var n := |qs| - 1;
    if key in keys {
      var i :| 0 <= i < n && qs[..n][i] <= key;
      PrefixesCompare(qs[i], qs[n], key);
    }
  }

  /** An antichain of the tree has at most as many members as there are keywords: each
      member lies below its own keyword. */
  lemma {:induction false} AntichainBound(D: Dictionary, qs: seq<Label>) returns (keys: set<Label>)
    requires Antichain(qs) && forall i | 0 <= i < |qs| :: Extends(D, qs[i])
    ensures keys <= D.Keys && |keys| == |qs| <= |D| && Below(qs, keys)
    decreases |qs|
  {
    hide Antichain, Extends, Below;
    keys := {};
    if qs == [] {
      NothingBelow();
    } else {
      var n := |qs| - 1;
      AntichainFront(qs);
      var front := AntichainBound(D, qs[..n]);
      var key := SomeKey(D, qs[n]);
      NotBelow(qs, front, key);
      BelowMore(qs[..n], qs[n], front, key);
      assert qs[..n] + [qs[n]] == qs;
      keys := front + {key};
      SubsetCard(keys, D.Keys);
    }
  }

  lemma NothingBelow()
    ensures Below([], {})
  {
  }

  lemma AntichainFront(qs: seq<Label>)
    requires qs != [] && Antichain(qs)
    ensures Antichain(qs[..|qs| - 1])
  {
  }

  lemma PrefixesCompare(a: Label, b: Label, k: Label)
    requires a <= k && b <= k
    ensures a <= b || b <= a
  {
    if |a| <= |b| {
      assert a == k[..|a|] == b[..|a|];
    } else {
      assert b == k[..|b|] == a[..|b|];
    }
  }

  lemma {:induction false} SubsetCard(a: set<Label>, b: set<Label>)
    requires a <= b
    ensures |a| <= |b|
    decreases |a|
  {
    if a != {} {
      var x :| x in a;
      SubsetCard(a - {x}, b - {x});
    }
  }

  /** Whatever waits, no waiting label lies below another: the one above would have come first. */
  lemma WaitingApart(T: Trie, cur: Label, a: Label, b: Label)
    requires Waits(T, cur, 255, a) && Waits(T, cur, 255, b) && a <= b
    ensures a == b
  {
    hide Before;
    if |a| < |b| {
      var p := Parent(b);
      assert p == a || Before(a, p) by {
        AboveBefore(a, p);
      }
      if p != cur && p != a {
        BeforeTransitive(a, p, cur);
      }
      if a != cur {
        BeforeTransitive(cur, a, cur);
      }
      BeforeNotSelf(cur);
    }
  }

  lemma AboveBefore(a: Label, p: Label)
    requires |a| <= |p| && a == p[..|a|]
    ensures a == p || Before(a, p)
  {
  }

  /** A set as a list. */
  lemma {:induction false} Listed(s: set<Label>) returns (qs: seq<Label>)
    ensures Elements(qs) == s && |qs| == |s| && forall i, j | 0 <= i < j < |qs| :: qs[i] != qs[j]
    decreases |s|
  {
    qs := [];
    if s != {} {
      var x :| x in s;
      var rest := Listed(s - {x});
      qs := rest + [x];
      ElementsMore(rest, x);
      forall i | 0 <= i < |rest|
        ensures rest[i] != x
      {
        assert rest[i] in Elements(rest);
      }
    }
  }

  lemma WaitingIsState(T: Trie, cur: Label, v: Label)
    requires Waits(T, cur, 255, v)
    ensures v in T && v != []
  {
  }

  /** There are never more waiting labels than keywords. */
  lemma KeywordsSuffice(T: Trie, D: Dictionary, n: nat)
    requires Covers(T, D) && |D| <= n
    ensures NeverFull(T, n)
  {
    hide Waits;
    forall cur | cur in T
      ensures |Waiting(T, cur, 255)| <= n
    {
      var qs := Listed(Waiting(T, cur, 255));
      forall i | 0 <= i < |qs|
        ensures Extends(D, qs[i]) && Waits(T, cur, 255, qs[i])
      {
        assert qs[i] in Elements(qs);
        WaitingIsState(T, cur, qs[i]);
      }
      forall i, j | 0 <= i < j < |qs|
        ensures !(qs[i] <= qs[j]) && !(qs[j] <= qs[i])
      {
        if qs[i] <= qs[j] {
          WaitingApart(T, cur, qs[i], qs[j]);
        }
        if qs[j] <= qs[i] {
          WaitingApart(T, cur, qs[j], qs[i]);
        }
      }
      var keys := AntichainBound(D, qs);
    }
  }

  // ----- the queue

  ghost predicate InOrder(qs: seq<Label>) {
    forall i, j | 0 <= i < j < |qs| :: Before(qs[i], qs[j])
  }

  /** While nothing is lost, the queue for n labels holds the waiting ones in order, and up to now
      no more than n have waited; and nothing is lost if they never do. */
  ghost predicate Exact(T: Trie, qs: seq<Label>, lost: set<Label>, cur: Label, bound: int, n: nat) {
    && (NeverFull(T, n) ==> lost == {})
    && (lost == {} ==>
          && InOrder(qs) && Elements(qs) == Waiting(T, cur, bound) && |qs| == |Waiting(T, cur, bound)| <= n
          && forall v {:trigger Waiting(T, v, 255)} | v in T && Before(v, cur) :: |Waiting(T, v, 255)| <= n)
  }

  lemma ExactStart(T: Trie, n: nat)
    ensures Exact(T, [], {}, [], 1, n)
  {
    WaitingStart(T);
  }

  lemma ExactStep(T: Trie, qs: seq<Label>, lost: set<Label>, w: Label, lo: int, c: Letter, n: nat, qs': seq<Label>, lost': set<Label>)
    requires Exact(T, qs, lost, w, lo, n) && w in T && lo <= c && Absent(T, w, lo, c) && Ext(w, c) in T
    requires |qs| < n ==> qs' == qs + [Ext(w, c)] && lost' == lost
    requires |qs| >= n ==> qs' == qs && lost' == lost + {Ext(w, c)}
    ensures Exact(T, qs', lost', w, c as int + 1, n)
  {
    hide Before, Absent, Waiting;
    var u := Ext(w, c);
    WaitingStep(T, w, lo, c);
    WaitingGrows(T, w, c as int + 1, 255);
    if lost' == {} {
      ElementsMore(qs, u);
      LastInOrder(T, qs, w, lo, c);
    } else {
      assert u in lost + {u};
    }
  }

  lemma LastInOrder(T: Trie, qs: seq<Label>, w: Label, lo: int, c: Letter)
    requires InOrder(qs) && Elements(qs) == Waiting(T, w, lo) && lo <= c
    ensures InOrder(qs + [Ext(w, c)])
  {
    var u := Ext(w, c);
    forall i | 0 <= i < |qs|
      ensures Before(qs[i], u)
    {
      assert qs[i] in Elements(qs);
      assert Waits(T, w, lo, qs[i]);
    }
  }

  lemma ExactEnd(T: Trie, qs: seq<Label>, lost: set<Label>, w: Label, lo: int, n: nat)
    requires Exact(T, qs, lost, w, lo, n) && Absent(T, w, lo, 255)
    ensures Exact(T, qs, lost, w, 255, n)
  {
    hide Before, Absent, Waiting;
    WaitingEnd(T, w, lo);
  }

  lemma HeadIsFirst(T: Trie, qs: seq<Label>, cur: Label)
    requires qs != [] && InOrder(qs) && Elements(qs) == Waiting(T, cur, 255)
    ensures First(T, cur, qs[0])
  {
    hide Before;
    assert qs[0] in Elements(qs);
    forall v | Waits(T, cur, 255, v) && v != qs[0]
      ensures Before(qs[0], v)
    {
      assert v in Elements(qs);
      var i :| 0 <= i < |qs| && qs[i] == v;
    }
  }

  lemma ElementsRest(qs: seq<Label>)
    requires qs != [] && InOrder(qs)
    ensures InOrder(qs[1..]) && Elements(qs[1..]) == Elements(qs) - {qs[0]} && qs[0] in Elements(qs)
  {
    hide Before;
    assert qs == [qs[0]] + qs[1..];
    BeforeNotSelf(qs[0]);
  }

  lemma ExactNext(T: Trie, qs: seq<Label>, lost: set<Label>, cur: Label, n: nat)
    requires PrefixClosed(T.Keys) && cur in T && qs != [] && Exact(T, qs, lost, cur, 255, n)
    ensures Exact(T, qs[1..], lost, qs[0], 1, n)
  {
    hide Before, Waiting, First, PrefixClosed;
    if lost == {} {
      var w := qs[0];
      HeadIsFirst(T, qs, cur);
      WaitingNext(T, cur, w);
      ElementsRest(qs);
      forall v | v in T && Before(v, w)
        ensures |Waiting(T, v, 255)| <= n
      {
        NothingBetween(T, cur, w, v);
      }
    }
  }

  /** In the end nothing was lost exactly if never more than n labels wait. */
  lemma ExactOver(T: Trie, lost: set<Label>, cur: Label, n: nat)
    requires PrefixClosed(T.Keys) && cur in T && Exact(T, [], lost, cur, 255, n)
    ensures lost == {} <==> NeverFull(T, n)
  {
    hide Before, PrefixClosed;
    if lost == {} {
      forall v | v in T
        ensures |Waiting(T, v, 255)| <= n
      {
        BeforeTotal(v, cur);
        if Before(cur, v) {
          var q := SomeWaits(T, cur, v);
          assert q in Waiting(T, cur, 255);
        }
      }
    }
  }
}
