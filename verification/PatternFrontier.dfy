/** The queue of tkcompile (src/auto/token.c:370-404) in terms of labels: which ones can be queued
    together, how the breadth-first walk goes on from them, and what it never reaches if the queue
    is too short. */
module PatternFrontier {
  import opened Labels
  import opened PatternTrie

  // ----- the progress of the walk

  /** With the children of the labels Q still to come, and those of cur from letter bound on,
      state v already has its failure transition. */
  ghost predicate Done(Q: set<Label>, cur: Label, bound: int, v: Label) {
    && v != []
    && (forall k {:trigger v[..k]} | 1 <= k < |v| :: v[..k] !in Q)
    && !(cur < v && v[|cur|] >= bound)
  }

  ghost function Elements(qs: seq<Label>): set<Label> {
    set v | v in qs
  }

  lemma ElementsMore(qs: seq<Label>, u: Label)
    ensures Elements(qs + [u]) == Elements(qs) + {u}
  {
  }

  /** The labels whose children are still to come: those in the queue, and those that found no
      room in it, whose children will never come. */
  ghost function Barred(qs: seq<Label>, lost: set<Label>): set<Label> {
    Elements(qs) + lost
  }

  /** Neither cur nor a label above it is barred. */
  ghost predicate Clear(Q: set<Label>, cur: Label) {
    cur !in Q && forall k {:trigger cur[..k]} | 1 <= k < |cur| :: cur[..k] !in Q
  }

  /** Distinct labels in order of depth, spanning two levels at most. */
  ghost predicate Levels(qs: seq<Label>, cur: Label) {
    && (forall i | 0 <= i < |qs| :: |cur| <= |qs[i]| <= |cur| + 1)
    && (forall i, j | 0 <= i < j < |qs| :: qs[i] != qs[j] && |qs[i]| <= |qs[j]|)
  }

  lemma LevelsMore(qs: seq<Label>, w: Label, u: Label)
    requires Levels(qs, w) && |u| == |w| + 1 && u !in Elements(qs)
    ensures Levels(qs + [u], w)
  {
    forall i | 0 <= i < |qs|
      ensures qs[i] != u
    {
      assert qs[i] in Elements(qs);
    }
  }

  /** The queue: all its labels, and the lost ones, are done. */
  ghost predicate Frontier(T: Trie, qs: seq<Label>, lost: set<Label>, cur: Label, bound: int) {
    && Levels(qs, cur)
    && (forall i | 0 <= i < |qs| :: qs[i] !in lost)
    && (forall v | v in Barred(qs, lost) :: v in T && Done(Barred(qs, lost), cur, bound, v))
  }

  /** Passing on to the barred label w. */
  lemma DoneStart(Q: set<Label>, w: Label, cur: Label, v: Label)
    requires w in Q && w != []
    ensures Done(Q - {w}, w, 1, v) <==> Done(Q, cur, 255, v)
  {
    if w < v {
      assert v[..|w|] == w;
    }
    if v != [] && !(w < v) {
      forall k | 1 <= k < |v|
        ensures v[..k] != w
      {
      }
    }
  }

  lemma DoneStep(T: Trie, Q: set<Label>, w: Label, lo: int, c: Letter, v: Label)
    requires PrefixClosed(T.Keys) && v in T && lo <= c && Absent(T, w, lo, c)
    requires Clear(Q, w)
    ensures Done(Q + {Ext(w, c)}, w, c as int + 1, v) <==> Done(Q, w, lo, v) || v == Ext(w, c)
  {
    var u := Ext(w, c);
    if w < v {
      var d := v[|w|];
      assert v[..|w| + 1] == Ext(w, d);
      PrefixInClosed(T.Keys, v, |w| + 1);
      if v == u {
        forall k | 1 <= k < |v|
          ensures v[..k] !in Q + {u}
        {
          if k < |w| {
            assert v[..k] == w[..k];
          } else {
            assert v[..k] == w;
          }
        }
      }
    }
    if v == u {
      assert w < v by {
        assert v[..|w|] == w;
      }
    }
    forall k | 1 <= k < |v|
      ensures v[..k] == u ==> w < v && v[|w|] == c
    {
      if v[..k] == u {
        assert w == u[..|w|] == v[..|w|];
      }
    }
  }

  lemma DoneEnd(T: Trie, Q: set<Label>, w: Label, lo: int, v: Label)
    requires PrefixClosed(T.Keys) && v in T && Absent(T, w, lo, 255)
    ensures Done(Q, w, lo, v) <==> Done(Q, w, 255, v)
  {
    if w < v {
      assert v[..|w| + 1] == Ext(w, v[|w|]);
      PrefixInClosed(T.Keys, v, |w| + 1);
    }
  }

  /** Every state as shallow as cur is done, unless it lies below a lost one. */
  lemma ShallowDone(T: Trie, qs: seq<Label>, lost: set<Label>, cur: Label, bound: int, v: Label)
    requires Frontier(T, qs, lost, cur, bound) && v != [] && |v| <= |cur|
    requires forall k {:trigger v[..k]} | 1 <= k < |v| :: v[..k] !in lost
    ensures Done(Barred(qs, lost), cur, bound, v)
  {
  }

  lemma BarredStart(T: Trie, qs: seq<Label>, lost: set<Label>, cur: Label, bound: int)
    requires qs != [] && Frontier(T, qs, lost, cur, bound)
    ensures Barred(qs[1..], lost) == Barred(qs, lost) - {qs[0]} && qs[0] in Barred(qs, lost) && qs[0] != []
  {
    assert qs == [qs[0]] + qs[1..];
  }

  lemma FrontierStart(T: Trie, qs: seq<Label>, lost: set<Label>, cur: Label)
    requires qs != [] && Frontier(T, qs, lost, cur, 255)
    ensures Frontier(T, qs[1..], lost, qs[0], 1)
    ensures Clear(Barred(qs[1..], lost), qs[0])
  {
    BarredStart(T, qs, lost, cur, 255);
    var Q, w := Barred(qs, lost), qs[0];
    forall v | v in Barred(qs[1..], lost)
      ensures v in T && Done(Barred(qs[1..], lost), w, 1, v)
    {
      DoneStart(Q, w, cur, v);
    }
    assert Done(Q, cur, 255, w);
  }

  /** A child that comes is neither queued nor lost already. */
  lemma ChildIsNew(T: Trie, qs: seq<Label>, lost: set<Label>, w: Label, lo: int, c: Letter)
    requires Frontier(T, qs, lost, w, lo) && lo <= c
    ensures Ext(w, c) !in Barred(qs, lost) && !Done(Barred(qs, lost), w, lo, Ext(w, c))
  {
    var u := Ext(w, c);
    assert w < u && u[|w|] == c by {
      assert u[..|w|] == w;
    }
  }

  /** One more label is barred: it was queued, or it was lost. */
  ghost predicate Barring(qs: seq<Label>, lost: set<Label>, u: Label, qs': seq<Label>, lost': set<Label>) {
    (qs' == qs + [u] && lost' == lost) || (qs' == qs && lost' == lost + {u})
  }

  lemma BarredMore(qs: seq<Label>, lost: set<Label>, u: Label, qs': seq<Label>, lost': set<Label>)
    requires Barring(qs, lost, u, qs', lost')
    ensures Barred(qs', lost') == Barred(qs, lost) + {u}
  {
    ElementsMore(qs, u);
  }

  lemma FrontierStep(T: Trie, qs: seq<Label>, lost: set<Label>, w: Label, lo: int, c: Letter, qs': seq<Label>, lost': set<Label>)
    requires PrefixClosed(T.Keys) && Frontier(T, qs, lost, w, lo) && lo <= c && Absent(T, w, lo, c) && Ext(w, c) in T
    requires Clear(Barred(qs, lost), w) && Barring(qs, lost, Ext(w, c), qs', lost')
    ensures Frontier(T, qs', lost', w, c as int + 1)
    ensures Clear(Barred(qs', lost'), w)
  {
    hide Done, Absent, PrefixClosed, Levels, Clear;
    var u, Q := Ext(w, c), Barred(qs, lost);
    ChildIsNew(T, qs, lost, w, lo, c);
    BarredMore(qs, lost, u, qs', lost');
    forall v | v in Q + {u}
      ensures v in T && Done(Q + {u}, w, c as int + 1, v)
    {
      DoneStep(T, Q, w, lo, c, v);
    }
    LevelsMore(qs, w, u);
    LostStep(qs, lost, u, qs', lost');
    ClearMore(Q, w, u);
  }

  lemma ClearMore(Q: set<Label>, w: Label, u: Label)
    requires Clear(Q, w) && |w| < |u|
    ensures Clear(Q + {u}, w)
  {
  }

  lemma LostStep(qs: seq<Label>, lost: set<Label>, u: Label, qs': seq<Label>, lost': set<Label>)
    requires Barring(qs, lost, u, qs', lost') && u !in Barred(qs, lost) && forall i | 0 <= i < |qs| :: qs[i] !in lost
    ensures forall i | 0 <= i < |qs'| :: qs'[i] !in lost'
  {
    forall i | 0 <= i < |qs|
      ensures qs[i] != u
    {
      assert qs[i] in Elements(qs);
    }
  }

  lemma FrontierEnd(T: Trie, qs: seq<Label>, lost: set<Label>, w: Label, lo: int)
    requires PrefixClosed(T.Keys) && Frontier(T, qs, lost, w, lo) && Absent(T, w, lo, 255)
    ensures Frontier(T, qs, lost, w, 255)
  {
    forall v | v in Barred(qs, lost)
      ensures Done(Barred(qs, lost), w, 255, v)
    {
      DoneEnd(T, Barred(qs, lost), w, lo, v);
    }
  }

  // ----- the work left

  /** The states the walk has not reached, and its work left: every step takes one label off
      the queue and puts reached ones on it. */
  ghost function Unreached(T: Trie, Q: set<Label>, cur: Label, bound: int): set<Label> {
    set v | v in T && v != [] && !Done(Q, cur, bound, v)
  }

  ghost function WorkLeft(T: Trie, qs: seq<Label>, lost: set<Label>, cur: Label, bound: int): nat {
    |Unreached(T, Barred(qs, lost), cur, bound)| + |qs|
  }

  lemma ReachedStep(T: Trie, Q: set<Label>, w: Label, lo: int, c: Letter)
    requires PrefixClosed(T.Keys) && lo <= c && Absent(T, w, lo, c) && Ext(w, c) in T && Clear(Q, w)
    ensures |Unreached(T, Q + {Ext(w, c)}, w, c as int + 1)| + 1 == |Unreached(T, Q, w, lo)|
  {
    var u := Ext(w, c);
    assert w < u && u[|w|] == c by {
      assert u[..|w|] == w;
    }
    var before, after := Unreached(T, Q, w, lo), Unreached(T, Q + {u}, w, c as int + 1);
    forall v
      ensures v in before <==> v in after || v == u
    {
      if v in T {
        DoneStep(T, Q, w, lo, c, v);
      }
    }
    assert u !in after by {
      DoneStep(T, Q, w, lo, c, u);
    }
    assert before == after + {u};
  }

  lemma WorkStep(T: Trie, qs: seq<Label>, lost: set<Label>, w: Label, lo: int, c: Letter, qs': seq<Label>, lost': set<Label>)
    requires PrefixClosed(T.Keys) && lo <= c && Absent(T, w, lo, c) && Ext(w, c) in T
    requires Clear(Barred(qs, lost), w) && Barring(qs, lost, Ext(w, c), qs', lost')
    ensures WorkLeft(T, qs', lost', w, c as int + 1) <= WorkLeft(T, qs, lost, w, lo)
  {
    hide Unreached, Clear;
    BarredMore(qs, lost, Ext(w, c), qs', lost');
    ReachedStep(T, Barred(qs, lost), w, lo, c);
  }

  lemma WorkStart(T: Trie, qs: seq<Label>, lost: set<Label>, cur: Label)
    requires qs != [] && Frontier(T, qs, lost, cur, 255)
    ensures WorkLeft(T, qs[1..], lost, qs[0], 1) < WorkLeft(T, qs, lost, cur, 255)
  {
    BarredStart(T, qs, lost, cur, 255);
    var Q := Barred(qs, lost);
    forall v
      ensures v in Unreached(T, Q - {qs[0]}, qs[0], 1) <==> v in Unreached(T, Q, cur, 255)
    {
      DoneStart(Q, qs[0], cur, v);
    }
    assert Unreached(T, Q - {qs[0]}, qs[0], 1) == Unreached(T, Q, cur, 255);
  }

  lemma WorkEnd(T: Trie, qs: seq<Label>, lost: set<Label>, w: Label, lo: int)
    requires PrefixClosed(T.Keys) && Absent(T, w, lo, 255)
    ensures WorkLeft(T, qs, lost, w, 255) == WorkLeft(T, qs, lost, w, lo)
  {
    var Q := Barred(qs, lost);
    forall v
      ensures v in Unreached(T, Q, w, lo) <==> v in Unreached(T, Q, w, 255)
    {
      if v in T {
        DoneEnd(T, Q, w, lo, v);
      }
    }
    assert Unreached(T, Q, w, lo) == Unreached(T, Q, w, 255);
  }

  // ----- what is lost

  /** Nothing lies below a lost label. */
  ghost predicate Harmless(T: Trie, lost: set<Label>) {
    forall v, k {:trigger v[..k], v in T} | v in T && 1 <= k < |v| :: v[..k] !in lost
  }

  lemma HarmlessLess(T: Trie, lost: set<Label>, lost': set<Label>)
    requires lost <= lost' && Harmless(T, lost')
    ensures Harmless(T, lost)
  {
  }
}
