/** The string theory behind the pattern machine of src/auto/token.c.

    A state of the machine is named by its label: the characters on the path from the
    initial state to it.  NUL and WCARD are reserved (token.c:82-84), so the letters of
    keywords and of input are the byte values 1..254. */
module Labels {

  type Letter = c: int | 1 <= c <= 254 witness 1

  type Label = seq<Letter>

  /** The keywords entered so far, with their svalues. */
  type Dictionary = map<Label, int>

  function Ext(w: Label, c: Letter): (r: Label)
    ensures r != [] && |r| == |w| + 1
    ensures Parent(r) == w && Last(r) == c
  {
    w + [c]
  }

  function Parent(w: Label): (p: Label)
    requires w != []
    ensures |p| == |w| - 1
  {
    w[..|w| - 1]
  }

  function Last(w: Label): Letter
    requires w != []
  {
    w[|w| - 1]
  }

  lemma ExtOfParent(w: Label)
    requires w != []
    ensures Ext(Parent(w), Last(w)) == w
  {
  }

  ghost predicate IsSuffix(s: Label, w: Label) {
    |s| <= |w| && w[|w| - |s|..] == s
  }

  ghost predicate PrefixClosed(K: set<Label>) {
    && [] in K
    && forall w {:trigger Parent(w)} | w in K && w != [] :: Parent(w) in K
  }

  lemma {:induction false} PrefixInClosed(K: set<Label>, w: Label, n: nat)
    requires PrefixClosed(K) && w in K && n <= |w|
    ensures w[..n] in K
    decreases |w|
  {
    if n == |w| {
      assert w[..n] == w;
    } else {
      PrefixInClosed(K, Parent(w), n);
      assert w[..n] == Parent(w)[..n];
    }
  }

  /** The longest suffix of w that is in K; the empty label when there is none. */
  function LongestSuffix(K: set<Label>, w: Label): Label
    decreases |w|
  {
    if w == [] || w in K then w else LongestSuffix(K, w[1..])
  }

  /** LongestSuffix deserves its name. */
  lemma {:induction false} LongestSuffixIsLongest(K: set<Label>, w: Label, u: Label)
    ensures var s := LongestSuffix(K, w);
      && IsSuffix(s, w)
      && (s in K || s == [])
      && (IsSuffix(u, w) && u in K ==> |u| <= |s| && IsSuffix(u, s))
    decreases |w|
  {
    if w == [] || w in K {
      assert w[|w| - |w|..] == w;
    } else {
      var t := w[1..];
      LongestSuffixIsLongest(K, t, u);
      var s := LongestSuffix(K, t);
      assert w[|w| - |s|..] == t[|t| - |s|..];
      if IsSuffix(u, w) && u in K {
        assert w[0..] == w && |u| < |w|;
        assert w[|w| - |u|..] == t[|t| - |u|..];
      }
    }
  }

  /** Reading one more letter only needs the longest suffix kept so far. */
  lemma {:induction false} LongestSuffixStep(K: set<Label>, w: Label, c: Letter)
    requires PrefixClosed(K)
    ensures LongestSuffix(K, Ext(w, c)) == LongestSuffix(K, Ext(LongestSuffix(K, w), c))
    decreases |w|
  {
    if w == [] || w in K {
    } else {
      assert Parent(Ext(w, c)) == w;
      assert Ext(w, c)[1..] == Ext(w[1..], c);
      LongestSuffixStep(K, w[1..], c);
    }
  }

  /** The failure function: the longest proper suffix that is in K. */
  function FailLabel(K: set<Label>, w: Label): Label
    requires w != []
  {
    LongestSuffix(K, w[1..])
  }

  lemma FailLabelShorter(K: set<Label>, w: Label)
    requires w != []
    ensures |FailLabel(K, w)| < |w|
    ensures FailLabel(K, w) in K || FailLabel(K, w) == []
  {
    LongestSuffixIsLongest(K, w[1..], []);
  }

  /** One failure transition keeps the answer: from w, when c does not extend w. */
  lemma FailureStep(K: set<Label>, w: Label, c: Letter)
    requires PrefixClosed(K) && w != [] && Ext(w, c) !in K
    ensures LongestSuffix(K, Ext(w, c)) == LongestSuffix(K, Ext(FailLabel(K, w), c))
  {
    assert Ext(w, c)[1..] == Ext(w[1..], c);
    LongestSuffixStep(K, w[1..], c);
  }

  /** The initial state is the last resort. */
  lemma EmptyStep(K: set<Label>, c: Letter)
    requires [] in K && Ext([], c) !in K
    ensures LongestSuffix(K, Ext([], c)) == []
  {
    assert Ext([], c)[1..] == [];
  }

  /** The failure label of a child comes from the failure label of its parent. */
  lemma FailLabelOfChild(K: set<Label>, w: Label, c: Letter)
    requires PrefixClosed(K) && w != []
    ensures FailLabel(K, Ext(w, c)) == LongestSuffix(K, Ext(FailLabel(K, w), c))
  {
    assert Ext(w, c)[1..] == Ext(w[1..], c);
    LongestSuffixStep(K, w[1..], c);
  }

  /** Passing to the longest suffix in a larger set loses no keyword suffix. */
  lemma {:induction false} LongestSuffixVia(keys: set<Label>, K: set<Label>, w: Label)
    requires keys <= K
    ensures LongestSuffix(keys, w) == LongestSuffix(keys, LongestSuffix(K, w))
    decreases |w|
  {
    if w == [] || w in K {
    } else {
      LongestSuffixVia(keys, K, w[1..]);
    }
  }

  /** The keywords that are suffixes of w, longest first. */
  function KeySuffixes(keys: set<Label>, w: Label): seq<Label>
    decreases |w|
  {
    if w == [] then []
    else (if w in keys then [w] else []) + KeySuffixes(keys, w[1..])
  }

  /** KeySuffixes lists every keyword that is a suffix of w exactly once, in strictly
      decreasing length. */
  lemma {:induction false} KeySuffixesAreAll(keys: set<Label>, w: Label)
    requires [] !in keys
    ensures forall u :: u in KeySuffixes(keys, w) <==> u in keys && IsSuffix(u, w)
    ensures forall i, j | 0 <= i < j < |KeySuffixes(keys, w)| ::
              |KeySuffixes(keys, w)[i]| > |KeySuffixes(keys, w)[j]|
    decreases |w|
  {
    if w != [] {
      var t := w[1..];
      KeySuffixesAreAll(keys, t);
      var rest := KeySuffixes(keys, t);
      var all := KeySuffixes(keys, w);
      var head := if w in keys then [w] else [];
      assert all == head + rest;
      forall u
        ensures u in all <==> u in keys && IsSuffix(u, w)
      {
        assert u in all <==> u in head || u in rest;
        if |u| < |w| {
          assert w[|w| - |u|..] == t[|t| - |u|..];
        } else if |u| == |w| {
          assert w[0..] == w;
        }
      }
      forall i | 0 <= i < |rest|
        ensures |rest[i]| < |w|
      {
        assert rest[i] in rest;
      }
    }
  }

  lemma {:induction false} KeySuffixesVia(keys: set<Label>, K: set<Label>, w: Label)
    requires keys <= K
    ensures KeySuffixes(keys, w) == KeySuffixes(keys, LongestSuffix(K, w))
    decreases |w|
  {
    if w == [] || w in K {
    } else {
      KeySuffixesVia(keys, K, w[1..]);
    }
  }

  /** The svalues reported for a list of recognised keywords. */
  function Svalues(D: Dictionary, ks: seq<Label>): seq<int>
    requires forall k | k in ks :: k in D
  {
    if ks == [] then [] else [D[ks[0]]] + Svalues(D, ks[1..])
  }

  lemma {:induction false} KeySuffixesInDictionary(keys: set<Label>, w: Label)
    ensures forall u | u in KeySuffixes(keys, w) :: u in keys
    decreases |w|
  {
    if w != [] {
      KeySuffixesInDictionary(keys, w[1..]);
    }
  }

  /** What a match on the text w must report: the svalues of all keyword suffixes of w. */
  function Report(D: Dictionary, w: Label): seq<int> {
    KeySuffixesInDictionary(D.Keys, w);
    Svalues(D, KeySuffixes(D.Keys, w))
  }

  lemma {:induction false} ReportUnfold(D: Dictionary, w: Label)
    ensures w == [] ==> Report(D, w) == []
    ensures w != [] && w in D ==> Report(D, w) == [D[w]] + Report(D, w[1..])
    ensures w != [] && w !in D ==> Report(D, w) == Report(D, w[1..])
  {
    if w != [] {
      KeySuffixesInDictionary(D.Keys, w);
      KeySuffixesInDictionary(D.Keys, w[1..]);
      var rest := KeySuffixes(D.Keys, w[1..]);
      if w in D {
        assert ([w] + rest)[1..] == rest;
        assert KeySuffixes(D.Keys, w) == [w] + rest;
      } else {
        assert KeySuffixes(D.Keys, w) == rest;
      }
    }
  }

  // ----- the states a search passes

  /** The suffixes of w in K that are n letters long or longer. */
  ghost function Passed(K: set<Label>, w: Label, n: nat): set<Label> {
    set u | u in K && IsSuffix(u, w) && n <= |u|
  }

  lemma PassedNone(K: set<Label>, w: Label)
    ensures Passed(K, w, |w| + 1) == {}
  {
  }

  /** Something is passed exactly if the search does not end with a longer label. */
  lemma PassedSome(K: set<Label>, w: Label, n: nat)
    requires w in K
    ensures Passed(K, w, n) != {} <==> n < |w| + 1
  {
    assert w[|w| - |w|..] == w;
    assert n <= |w| ==> w in Passed(K, w, n);
  }

  lemma SuffixOfSuffix(u: Label, x: Label, w: Label)
    requires IsSuffix(x, w)
    ensures IsSuffix(u, x) <==> |u| <= |x| && IsSuffix(u, w)
  {
    if |u| <= |x| {
      assert w[|w| - |u|..] == x[|x| - |u|..];
    }
  }

  lemma SuffixOfTail(u: Label, x: Label)
    requires |u| < |x|
    ensures IsSuffix(u, x[1..]) <==> IsSuffix(u, x)
  {
    assert x[1..][|x| - 1 - |u|..] == x[|x| - |u|..];
  }

  /** No state lies between x and its failure state. */
  lemma NothingSkipped(K: set<Label>, w: Label, x: Label, u: Label)
    requires x != [] && IsSuffix(x, w) && u in K && IsSuffix(u, w) && |FailLabel(K, x)| < |u| <= |x|
    ensures u == x
  {
    hide IsSuffix, LongestSuffix;
    SuffixOfSuffix(u, x, w);
    if |u| < |x| {
      SuffixOfTail(u, x);
      LongestSuffixIsLongest(K, x[1..], u);
    } else {
      SameSuffix(u, x);
    }
  }

  lemma SameSuffix(u: Label, x: Label)
    requires IsSuffix(u, x) && |u| == |x|
    ensures u == x
  {
  }

  lemma FailIsSuffix(K: set<Label>, w: Label, x: Label)
    requires x != [] && IsSuffix(x, w)
    ensures IsSuffix(FailLabel(K, x), w) && |FailLabel(K, x)| < |x|
  {
    hide IsSuffix, LongestSuffix;
    var f := FailLabel(K, x);
    FailLabelShorter(K, x);
    LongestSuffixIsLongest(K, x[1..], []);
    SuffixOfTail(f, x);
    SuffixOfSuffix(f, x, w);
  }

  /** A search that leaves x has passed it, and none between x and its failure state. */
  lemma PassedMore(K: set<Label>, w: Label, x: Label)
    requires x in K && IsSuffix(x, w)
    ensures var n := if x == [] then 0 else |FailLabel(K, x)| + 1;
      |Passed(K, w, n)| == |Passed(K, w, |x| + 1)| + 1
    ensures x != [] ==> IsSuffix(FailLabel(K, x), w)
  {
    hide FailLabel, IsSuffix;
    var n := if x == [] then 0 else |FailLabel(K, x)| + 1;
    if x != [] {
      FailIsSuffix(K, w, x);
    }
    forall u
      ensures u in Passed(K, w, n) <==> u in Passed(K, w, |x| + 1) || u == x
    {
      if x != [] && u in K && IsSuffix(u, w) && n <= |u| <= |x| {
        NothingSkipped(K, w, x, u);
      }
    }
    assert Passed(K, w, n) == Passed(K, w, |x| + 1) + {x};
  }

  /** The suffixes of a text are those of the label it leads to. */
  lemma PassedInText(K: set<Label>, text: Label, n: nat)
    ensures Passed(K, LongestSuffix(K, text), n) == Passed(K, text, n)
  {
    hide LongestSuffix;
    var w := LongestSuffix(K, text);
    forall u
      ensures u in K && IsSuffix(u, w) <==> u in K && IsSuffix(u, text)
    {
      LongestSuffixIsLongest(K, text, u);
      if IsSuffix(u, w) {
        assert text[|text| - |u|..] == text[|text| - |w|..][|w| - |u|..];
      }
    }
  }

  /** The failure and wild card transitions on a text: at each letter one for every suffix of the
      text before it that is the prefix of a keyword and no shorter than the label after it. */
  ghost function Moves(K: set<Label>, text: Label): nat {
    if text == [] then 0 else Moves(K, Parent(text)) + |Passed(K, Parent(text), |LongestSuffix(K, text)|)|
  }

  // ----- the prefixes of keywords

  /** Some keyword passes through w. */
  ghost predicate Extends(D: Dictionary, w: Label) {
    exists k :: k in D && w <= k
  }

  /** The labels of the machine for D. */
  ghost function Prefixes(D: Dictionary): (K: set<Label>)
    ensures forall w :: w in K <==> w == [] || Extends(D, w)
  {
    var K := set k, n | k in D && 0 <= n <= |k| :: k[..n];
    assert forall w | Extends(D, w) :: w in K by {
      forall w | Extends(D, w)
        ensures w in K
      {
        var k :| k in D && w <= k;
        assert w == k[..|w|];
      }
    }
    K + {[]}
  }
}
