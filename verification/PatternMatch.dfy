/** Matching with a compiled machine: tkmatch, tknext and tkreset of src/auto/token.c. */
module PatternMatch {
  import opened Labels
  import opened RingQueue
  import opened PatternTrie
  import opened PatternCompile

  /** tkdie() ends the program. */
  datatype Reply = Exit | Sval(value: int)

  // ----- reports

  lemma {:induction false} ReportEmpty(D: Dictionary, w: Label)
    requires [] !in D
    ensures Report(D, w) == [] <==> Token(D, w) == []
    decreases |w|
  {
    ReportUnfold(D, w);
    if w != [] && w !in D {
      ReportEmpty(D, w[1..]);
    }
  }

  /** What is left to report depends on the token only. */
  lemma ReportOfSuffix(D: Dictionary, K: set<Label>, w: Label)
    requires D.Keys <= K
    ensures Report(D, w) == Report(D, LongestSuffix(K, w))
  {
    KeySuffixesVia(D.Keys, K, w);
  }

  /** tknext's step: the token, then the reports of the failure state of the token. */
  lemma ReportChain(D: Dictionary, K: set<Label>, w: Label)
    requires D.Keys <= K && [] !in D && Token(D, w) != []
    ensures Token(D, w) in D
    ensures Report(D, w) == [D[Token(D, w)]] + Report(D, FailLabel(K, Token(D, w)))
  {
    var r := Token(D, w);
    TokenIsKey(D, w);
    ReportOfSuffix(D, D.Keys, w);
    ReportUnfold(D, r);
    ReportOfSuffix(D, K, r[1..]);
  }

  /** The report on w: the svalues of exactly the keywords that are suffixes of w, each once,
      longest first. */
  lemma ReportMeaning(D: Dictionary, w: Label) returns (ks: seq<Label>)
    requires [] !in D
    ensures forall k :: k in ks <==> k in D && IsSuffix(k, w)
    ensures forall i, j | 0 <= i < j < |ks| :: |ks[i]| > |ks[j]|
    ensures |Report(D, w)| == |ks| && forall i | 0 <= i < |ks| :: ks[i] in D && Report(D, w)[i] == D[ks[i]]
  {
    ks := KeySuffixes(D.Keys, w);
    KeySuffixesAreAll(D.Keys, w);
    KeySuffixesInDictionary(D.Keys, w);
    SvaluesAt(D, ks);
  }

  lemma {:induction false} SvaluesAt(D: Dictionary, ks: seq<Label>)
    requires forall k | k in ks :: k in D
    ensures |Svalues(D, ks)| == |ks| && forall i | 0 <= i < |ks| :: Svalues(D, ks)[i] == D[ks[i]]
    decreases |ks|
  {
    if ks != [] {
      SvaluesAt(D, ks[1..]);
    }
  }

  // ----- the running machine

  /** A compiled machine that has read some input. */
  ghost predicate Running(tree: Tree)
    reads tree
  {
    && Compiled(tree) && tree.cstate in tree.paths
    && (tree.ostate != NULL ==>
          tree.ostate in tree.paths && tree.paths[tree.ostate] != [] && Token(tree.dict, tree.paths[tree.ostate]) != [])
  }

  /** The label of the current state. */
  ghost function Current(tree: Tree): Label
    requires Running(tree)
    reads tree
  {
    tree.paths[tree.cstate]
  }

  /** The svalues tknext has yet to report. */
  ghost function Pending(tree: Tree): seq<int>
    requires Running(tree)
    reads tree
  {
    if tree.ostate == NULL then [] else Report(tree.dict, tree.paths[tree.ostate])
  }

  /** The state after a text. */
  ghost function After(tree: Tree, text: Label): Label
    reads tree
  {
    LongestSuffix(tree.trie.Keys, text)
  }

  method TkReset(tree: Tree) returns (r: Reply)
    requires tree.compiled ==> Compiled(tree)
    requires tree.cqueue != null ==> tree.cqueue.Valid()
    modifies tree`found, tree`cstate, tree`ostate, tree.cqueue
    ensures r == if tree.compiled then Sval(0) else Exit
    ensures r != Exit ==> Running(tree) && Current(tree) == [] && tree.ostate == NULL && Pending(tree) == [] && !tree.found
    ensures r != Exit && tree.cqueue != null ==> tree.cqueue.Valid() && tree.cqueue.Contents() == []
  {
    if !tree.compiled {
      return Exit;
    }
    tree.found := false;
    tree.cstate := tree.link;
    tree.ostate := NULL;
    if tree.cqueue != null {
      tree.cqueue.QClear();
    }
    r := Sval(0);
  }

  lemma ReadyState(tree: Tree, p: Ptr)
    requires Compiled(tree) && p in tree.paths && tree.paths[p] != []
    ensures Ready(tree.store, tree.trie, tree.dict, tree.wild, tree.paths[p]) && tree.trie[tree.paths[p]] == p
  {
  }

  /** tknext: the next pending svalue. */
  method TkNext(tree: Tree) returns (svalue: int)
    requires Running(tree)
    modifies tree`ostate
    ensures Running(tree) && Current(tree) == old(Current(tree))
    ensures old(Pending(tree)) == [] ==> svalue == PENDING && Pending(tree) == []
    ensures old(Pending(tree)) != [] ==> svalue > 0 && old(Pending(tree)) == [svalue] + Pending(tree)
  {
    hide Linked, Report, LongestSuffix, FailLabel;
    if tree.ostate == NULL {
      return PENDING;
    }
    ghost var D, K, o := tree.dict, tree.trie.Keys, tree.paths[tree.ostate];
    ReadyState(tree, tree.ostate);
    ReportChain(D, K, o);
    ghost var r := Token(D, o);
    ReadyState(tree, tree.trie[r]);
    var ostate := tree.store[tree.ostate].rstate;
    svalue := tree.store[ostate].sval;
    ostate := tree.store[ostate].fail;
    ghost var f := FailLabel(K, r);
    FailLabelShorter(K, r);
    ReportEmpty(D, f);
    TokenOfEmpty(D);
    assert f != [] ==> Ready(tree.store, tree.trie, D, tree.wild, f);
    if !tree.store[ostate].output {
      tree.ostate := NULL;
    } else {
      tree.ostate := ostate;
    }
  }

  /** The inner loop of tkmatch and tkparse: the transition on c in a child list, NULL if it
      has none. */
  method Scan(tree: Tree, first: Ptr, c: Letter, ghost w: Label) returns (trans: Ptr)
    requires Walking(tree) && w in tree.trie && first == FirstChild(tree.trie, w, 1)
    ensures trans == if Ext(w, c) in tree.trie then tree.trie[Ext(w, c)] else NULL
    ensures Ext(w, c) in tree.trie ==>
              trans in tree.store && trans != NULL && trans in tree.paths && tree.paths[trans] == Ext(w, c)
  {
    hide Walking, FirstChild;
    trans := first;
    ghost var lo: nat := 1;
    NextChild(tree, w, lo, trans);
    while trans != NULL
      invariant 1 <= lo <= c
      invariant trans == FirstChild(tree.trie, w, lo)
      decreases c - lo
    {
      NextChild(tree, w, lo, trans);
      if tree.store[trans].cval > c {
        return NULL;
      } else if tree.store[trans].cval == c {
        return trans;
      }
      lo := tree.store[trans].cval + 1;
      trans := tree.store[trans].sibling;
    }
    NextChild(tree, w, lo, trans);
  }

  /** The child list of a state: the WCARD state comes first for the two initial states. */
  lemma ChildList(tree: Tree, p: Ptr)
    requires Walking(tree) && p in tree.paths
    ensures p in tree.store && tree.paths[p] in tree.trie
    ensures tree.wild != NULL && tree.wild in tree.store && tree.store[tree.wild].cval == WCARD
    ensures tree.store[tree.wild].sibling == FirstChild(tree.trie, [], 1)
    ensures tree.store[p].child == if tree.paths[p] == [] then tree.wild else FirstChild(tree.trie, tree.paths[p], 1)
    ensures tree.paths[p] != [] && tree.store[p].child != NULL ==>
              tree.store[p].child in tree.store && tree.store[tree.store[p].child].cval != WCARD
  {
    assert NodeOk(tree.store, tree.trie, tree.paths, tree.wild, p);
    assert NodeOk(tree.store, tree.trie, tree.paths, tree.wild, tree.wild);
    if tree.paths[p] != [] {
      NextChild(tree, tree.paths[p], 1, tree.store[p].child);
    }
  }

  /** What one call of tkmatch on c does, from label w with the svalues `pending` unreported:
      the machine moves to the state of the longest suffix of its text that is a prefix of a
      keyword; it reports the longest keyword ending here and leaves the others to tknext.
      There is one failure or wild card transition for every suffix of w, w and the empty one
      included, that is the prefix of a keyword and no shorter than the new label. */
  ghost predicate Matched(tree: Tree, w: Label, pending: seq<int>, c: Letter, sv: int, moves: nat)
    reads tree
  {
    && Running(tree) && Current(tree) == After(tree, Ext(w, c))
    && (var report := Report(tree.dict, Current(tree));
        if report == [] then sv == PENDING && Pending(tree) == pending
        else sv > 0 && report == [sv] + Pending(tree))
    && moves == |Passed(tree.trie.Keys, w, |Current(tree)|)| && tree.tkfail == Short(moves)
    && (moves > 0 <==> |Current(tree)| < |w| + 1)
    && moves + |Current(tree)| <= |w| + 1
  }

  /** tkmatch.  `moves` counts the failure and wild card transitions, the value of TKfail. */
  method TkMatch(tree: Tree, c: Letter) returns (r: Reply, ghost moves: nat)
    requires Running(tree)
    modifies tree`tkfail, tree`cstate, tree`ostate
    ensures r == Exit <==> tree.cqueue != null
    ensures r != Exit ==> Matched(tree, old(Current(tree)), old(Pending(tree)), c, r.value, moves)
  {
    hide Finished, Sound, AllReady, LongestSuffix, FailLabel, FirstChild, Short, Report, Token, Matched, Passed, Searched;
    tree.tkfail := 0;
    moves := 0;
    if tree.cqueue != null {
      return Exit, 0;
    }
    RunningFacts(tree);
    ghost var K, w, x, pending := tree.trie.Keys, Current(tree), Current(tree), Pending(tree);
    var tfail := tree.cstate;
    tree.cstate := NULL;
    ShortOfZero();
    MoveStarts(K, w, c);
    while true
      invariant tree.compiled && Finished(tree.trie, tree.paths, tree.dict, tree.wild, tree.store, tree.link)
      invariant tfail in tree.paths && tree.paths[tfail] == x && tree.cstate == NULL && tree.ostate == old(tree.ostate)
      invariant Searched(K, w, c, x, moves) && tree.tkfail == Short(moves)
      decreases |x|
    {
      var trans := Probe(tree, tfail, c);
      if trans != NULL {
        MoveHits(K, w, c, x, moves);
        var sv := Arrive(tree, trans, w, pending, c, moves);
        return Sval(sv), moves;
      }
      ShortOfShort(moves, 1);
      tree.tkfail := Short(tree.tkfail + 1);
      if tree.cstate != NULL {
        MoveFails(K, w, c, moves);
        moves := moves + 1;
        Discard(tree, w, pending, c, moves);
        return Sval(PENDING), moves;
      }
      FailFacts(tree, tfail, x);
      MoveGoesOn(K, w, c, x, moves);
      moves := moves + 1;
      tfail := tree.store[tfail].fail;
      x := FailLabel(K, x);
    }
  }

  /** tkmatch's search from w has come to x in as many moves as it has passed states. */
  ghost predicate Searched(K: set<Label>, w: Label, c: Letter, x: Label, moves: nat) {
    && w in K && x in K && IsSuffix(x, w) && LongestSuffix(K, Ext(x, c)) == LongestSuffix(K, Ext(w, c))
    && moves == |Passed(K, w, |x| + 1)| && moves + |x| <= |w|
  }

  lemma MoveStarts(K: set<Label>, w: Label, c: Letter)
    requires w in K
    ensures Searched(K, w, c, w, 0)
  {
    hide LongestSuffix;
    assert w[|w| - |w|..] == w;
    PassedNone(K, w);
  }

  lemma MoveGoesOn(K: set<Label>, w: Label, c: Letter, x: Label, moves: nat)
    requires Searched(K, w, c, x, moves) && x != [] && FailLabel(K, x) in K && |FailLabel(K, x)| < |x|
    requires LongestSuffix(K, Ext(x, c)) == LongestSuffix(K, Ext(FailLabel(K, x), c))
    ensures Searched(K, w, c, FailLabel(K, x), moves + 1)
  {
    hide LongestSuffix, Passed, IsSuffix, FailLabel;
    PassedMore(K, w, x);
  }

  lemma MoveHits(K: set<Label>, w: Label, c: Letter, x: Label, moves: nat)
    requires Searched(K, w, c, x, moves) && LongestSuffix(K, Ext(x, c)) == Ext(x, c)
    ensures w in K && LongestSuffix(K, Ext(w, c)) == Ext(x, c)
    ensures moves == |Passed(K, w, |Ext(x, c)|)| && moves + |Ext(x, c)| <= |w| + 1
  {
    hide LongestSuffix, Passed;
  }

  lemma MoveFails(K: set<Label>, w: Label, c: Letter, moves: nat)
    requires Searched(K, w, c, [], moves) && LongestSuffix(K, Ext([], c)) == []
    ensures w in K && LongestSuffix(K, Ext(w, c)) == [] && moves + 1 == |Passed(K, w, 0)| && moves + 1 <= |w| + 1
  {
    hide LongestSuffix, Passed;
    PassedMore(K, w, []);
  }

  /** One state of tkmatch's search: its transition on c, and its WCARD transition, which is
      taken if nothing better turns up. */
  method Probe(tree: Tree, tfail: Ptr, c: Letter) returns (trans: Ptr)
    requires Walking(tree) && tfail in tree.paths && tree.cstate == NULL
    modifies tree`cstate
    ensures var K, x := tree.trie.Keys, tree.paths[tfail];
      && (trans != NULL <==> Ext(x, c) in K)
      && (trans != NULL ==> trans in tree.store && trans in tree.paths && tree.paths[trans] == Ext(x, c)
                            && LongestSuffix(K, Ext(x, c)) == Ext(x, c))
      && tree.cstate == (if x == [] then tree.wild else NULL) && tree.wild != NULL
      && (trans == NULL ==> LongestSuffix(K, Ext(x, c)) ==
                            if x == [] then [] else LongestSuffix(K, Ext(FailLabel(K, x), c)))
  {
    hide Sound, LongestSuffix, FailLabel, FirstChild;
    ghost var x := tree.paths[tfail];
    ChildList(tree, tfail);
    trans := tree.store[tfail].child;
    if trans != NULL && tree.store[trans].cval == WCARD {
      tree.cstate := trans;
      trans := tree.store[trans].sibling;
    }
    trans := Scan(tree, trans, c, x);
    StepLabel(tree, x, c);
  }

  /** The normal transition of tkmatch. */
  method Arrive(tree: Tree, trans: Ptr, ghost w: Label, ghost pending: seq<int>, ghost c: Letter, ghost moves: nat)
    returns (sv: int)
    requires tree.compiled && Finished(tree.trie, tree.paths, tree.dict, tree.wild, tree.store, tree.link)
    requires trans in tree.store && trans in tree.paths && tree.paths[trans] != [] && trans != NULL
    requires tree.paths[trans] == LongestSuffix(tree.trie.Keys, Ext(w, c))
    requires tree.ostate == NULL || (tree.ostate in tree.paths && tree.paths[tree.ostate] != [] && Token(tree.dict, tree.paths[tree.ostate]) != [])
    requires pending == if tree.ostate == NULL then [] else Report(tree.dict, tree.paths[tree.ostate])
    requires w in tree.trie && moves == |Passed(tree.trie.Keys, w, |tree.paths[trans]|)|
    requires moves + |tree.paths[trans]| <= |w| + 1 && tree.tkfail == Short(moves)
    modifies tree`cstate, tree`ostate
    ensures Matched(tree, w, pending, c, sv, moves)
  {
    hide Finished, LongestSuffix, Report, Token, Short, Passed;
    PassedSome(tree.trie.Keys, w, |tree.paths[trans]|);
    tree.cstate := trans;
    ReadyHere(tree, trans);
    if tree.store[trans].output {
      tree.ostate := trans;
      sv := TkNext(tree);
    } else {
      sv := PENDING;
    }
  }

  /** The wild card transition has left the machine in its WCARD state. */
  lemma Discard(tree: Tree, w: Label, pending: seq<int>, c: Letter, moves: nat)
    requires tree.compiled && Finished(tree.trie, tree.paths, tree.dict, tree.wild, tree.store, tree.link)
    requires tree.cstate == tree.wild && LongestSuffix(tree.trie.Keys, Ext(w, c)) == []
    requires tree.ostate == NULL || (tree.ostate in tree.paths && tree.paths[tree.ostate] != [] && Token(tree.dict, tree.paths[tree.ostate]) != [])
    requires pending == if tree.ostate == NULL then [] else Report(tree.dict, tree.paths[tree.ostate])
    requires w in tree.trie && moves == |Passed(tree.trie.Keys, w, 0)|
    requires moves <= |w| + 1 && tree.tkfail == Short(moves)
    ensures Matched(tree, w, pending, c, PENDING, moves)
  {
    hide Finished, LongestSuffix, Report, Token, Short, Passed;
    PassedSome(tree.trie.Keys, w, 0);
    WildFacts(tree);
  }

  lemma ShortOfZero()
    ensures Short(0) == 0
  {
  }

  lemma RunningFacts(tree: Tree)
    requires Running(tree)
    ensures Walking(tree) && tree.paths[tree.cstate] in tree.trie
  {
  }

  /** Where the transition on c leads from x, or how the search goes on. */
  lemma StepLabel(tree: Tree, x: Label, c: Letter)
    requires Walking(tree) && x in tree.trie
    ensures var K := tree.trie.Keys;
      if Ext(x, c) in K then LongestSuffix(K, Ext(x, c)) == Ext(x, c)
      else if x == [] then LongestSuffix(K, Ext(x, c)) == []
      else LongestSuffix(K, Ext(x, c)) == LongestSuffix(K, Ext(FailLabel(K, x), c))
  {
    var K := tree.trie.Keys;
    if Ext(x, c) !in K {
      if x == [] {
        EmptyStep(K, c);
      } else {
        FailureStep(K, x, c);
      }
    }
  }

  lemma FailFacts(tree: Tree, p: Ptr, x: Label)
    requires Finished(tree.trie, tree.paths, tree.dict, tree.wild, tree.store, tree.link)
    requires p in tree.paths && tree.paths[p] == x && x != []
    ensures var K, f := tree.trie.Keys, FailLabel(tree.trie.Keys, x);
      && p in tree.store && tree.store[p].fail in tree.paths && tree.paths[tree.store[p].fail] == f
      && f in tree.trie && |f| < |x|
  {
    FailLabelShorter(tree.trie.Keys, x);
    assert Ready(tree.store, tree.trie, tree.dict, tree.wild, x);
  }

  lemma WildFacts(tree: Tree)
    requires Finished(tree.trie, tree.paths, tree.dict, tree.wild, tree.store, tree.link)
    ensures tree.wild in tree.paths && tree.paths[tree.wild] == []
    ensures Token(tree.dict, []) == [] && Report(tree.dict, []) == []
  {
    ReportUnfold(tree.dict, []);
  }

  /** The output flag of a state. */
  lemma ReadyHere(tree: Tree, p: Ptr)
    requires Finished(tree.trie, tree.paths, tree.dict, tree.wild, tree.store, tree.link)
    requires p in tree.store && p in tree.paths && tree.paths[p] != []
    ensures tree.store[p].output <==> Token(tree.dict, tree.paths[p]) != []
    ensures Token(tree.dict, tree.paths[p]) == [] <==> Report(tree.dict, tree.paths[p]) == []
  {
    assert Ready(tree.store, tree.trie, tree.dict, tree.wild, tree.paths[p]);
    ReportEmpty(tree.dict, tree.paths[p]);
  }

  // ----- whole texts

  /** The state after a longer text follows from the state before. */
  lemma AfterStep(tree: Tree, text: Label, c: Letter)
    requires Compiled(tree)
    ensures After(tree, Ext(text, c)) == After(tree, Ext(After(tree, text), c))
    ensures Report(tree.dict, Ext(text, c)) == Report(tree.dict, After(tree, Ext(text, c)))
    ensures Moves(tree.trie.Keys, Ext(text, c)) ==
            Moves(tree.trie.Keys, text) + |Passed(tree.trie.Keys, After(tree, text), |After(tree, Ext(text, c))|)|
  {
    hide LongestSuffix, Passed, Report, Finished;
    assert PrefixClosed(tree.trie.Keys) && tree.dict.Keys <= tree.trie.Keys by {
      KeysClosed(tree);
    }
    PassedInText(tree.trie.Keys, text, |After(tree, Ext(text, c))|);
    LongestSuffixStep(tree.trie.Keys, text, c);
    ReportOfSuffix(tree.dict, tree.trie.Keys, Ext(text, c));
  }

  lemma KeysClosed(tree: Tree)
    requires Compiled(tree)
    ensures PrefixClosed(tree.trie.Keys) && tree.dict.Keys <= tree.trie.Keys
  {
  }

  /** The inner loop of a tkmatch client: everything that ends here. */
  method Drain(tree: Tree, first: int) returns (report: seq<int>)
    requires Running(tree)
    modifies tree`ostate
    ensures Running(tree) && Current(tree) == old(Current(tree)) && Pending(tree) == []
    ensures report == [first] + old(Pending(tree))
  {
    hide Running, Pending, Current;
    report := [first];
    var sv := TkNext(tree);
    while sv > 0
      invariant Running(tree) && Current(tree) == old(Current(tree))
      invariant if sv > 0 then report + [sv] + Pending(tree) == [first] + old(Pending(tree))
                else Pending(tree) == [] && report == [first] + old(Pending(tree))
      decreases |Pending(tree)| + if sv > 0 then 1 else 0
    {
      report := report + [sv];
      sv := TkNext(tree);
    }
  }

  /** The client loop of src/auto/ttestm.c over a whole text, from reset: at each position it
      learns the svalues of exactly the keywords ending there, longest first; the failure and wild
      card transitions are counted exactly, and there are no more of them than characters. */
  method MatchText(tree: Tree, text: Label) returns (reports: seq<seq<int>>, ghost total: nat)
    requires Running(tree) && Current(tree) == [] && Pending(tree) == [] && tree.cqueue == null
    modifies tree`tkfail, tree`cstate, tree`ostate
    ensures Running(tree) && Current(tree) == After(tree, text) && Pending(tree) == []
    ensures |reports| == |text|
    ensures forall i | 0 <= i < |text| :: reports[i] == Report(tree.dict, text[..i + 1])
    ensures total == Moves(tree.trie.Keys, text) <= |text|
  {
    hide Finished, Token, Report, LongestSuffix, Short, Passed;
    reports, total := [], 0;
    assert text[..0] == [] && After(tree, []) == [] by {
      AfterNothing(tree);
    }
    var i := 0;
    while i < |text|
      invariant 0 <= i <= |text| && |reports| == i
      invariant Running(tree) && Current(tree) == After(tree, text[..i]) && Pending(tree) == []
      invariant forall j | 0 <= j < i :: reports[j] == Report(tree.dict, text[..j + 1])
      invariant total == Moves(tree.trie.Keys, text[..i]) && total + |Current(tree)| <= i
    {
      assert text[..i + 1] == Ext(text[..i], text[i]);
      AfterStep(tree, text[..i], text[i]);
      var r, moves := TkMatch(tree, text[i]);
      var report := [];
      if r.value > 0 {
        report := Drain(tree, r.value);
      }
      reports, total := reports + [report], total + moves;
      i := i + 1;
    }
    assert text[..i] == text;
  }

  lemma AfterNothing(tree: Tree)
    ensures After(tree, []) == []
  {
  }
}
