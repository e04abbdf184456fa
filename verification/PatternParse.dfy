/** tkparse of src/auto/token.c, called by the user, up to its first report. */
module PatternParse {
  import opened Labels
  import opened RingQueue
  import opened Occurrences
  import opened PatternTrie
  import opened PatternCompile
  import opened PatternMatch

  /** The pending output state, if any, spells the text up to the end of the leftmost longest
      keyword occurrence inside the label w of the current state. */
  ghost predicate Held(D: Dictionary, P: Paths, w: Label, ostate: Ptr, odepth: int) {
    if ostate == NULL then NoneOccurs(D, w)
    else
      && ostate in P && P[ostate] != [] && P[ostate] <= w
      && LeftmostLongest(D, w, odepth - 1, |P[ostate]|)
      && Token(D, P[ostate]) == P[ostate][odepth - 1..]
  }

  /** A tkparse machine that has not reported since it was reset.  The lookahead queue holds
      exactly the label of the current state. */
  ghost predicate Parsing(tree: Tree)
    reads tree, tree.cqueue, if tree.cqueue == null then {} else {tree.cqueue.buffer}
  {
    && Compiled(tree) && tree.cqueue != null && !tree.found
    && tree.cqueue.Valid() && tree.cqueue.Capacity() == LOOKAHEAD
    && tree.cstate in tree.paths
    && tree.cqueue.Contents() == tree.paths[tree.cstate]
    && Held(tree.dict, tree.paths, tree.paths[tree.cstate], tree.ostate, tree.odepth)
  }

  ghost function Here(tree: Tree): Label
    requires tree.cstate in tree.paths
    reads tree
  {
    tree.paths[tree.cstate]
  }

  /** After reset a tkparse machine is ready. */
  lemma ResetParses(tree: Tree)
    requires Running(tree) && Current(tree) == [] && tree.ostate == NULL && !tree.found
    requires tree.cqueue != null && tree.cqueue.Valid() && tree.cqueue.Contents() == [] && tree.cqueue.Capacity() == LOOKAHEAD
    ensures Parsing(tree) && Here(tree) == []
  {
  }

  /** A call of tkparse on c, from label w, that reports nothing: the machine moves as tkmatch
      moves, and TKfail tells whether input was discarded. */
  ghost predicate Continued(tree: Tree, w: Label, c: Letter, sv: int)
    reads tree, tree.cqueue, if tree.cqueue == null then {} else {tree.cqueue.buffer}
  {
    && sv == PENDING && Parsing(tree) && Here(tree) == After(tree, Ext(w, c))
    && (tree.tkfail > 0 <==> |Here(tree)| < |w| + 1)
  }

  /** A call of tkparse on c, from label w, that reports the keyword from i to j: the text
      after it stays queued, and TKfail tells whether text before it was passed over. */
  ghost predicate Reported(tree: Tree, w: Label, i: int, j: int, c: Letter, sv: int)
    reads tree, tree.cqueue, if tree.cqueue == null then {} else {tree.cqueue.buffer}
  {
    && 0 <= i < j <= |w| && w[i..j] in tree.dict && sv == tree.dict[w[i..j]]
    && tree.cqueue != null && tree.cqueue.Valid() && tree.cqueue.Contents() == w[j..] + [c]
    && tree.found && tree.cstate == tree.link && tree.ostate == NULL
    && (tree.tkfail > 0 <==> i > 0)
  }

  /** The lookahead queue is full. */
  ghost predicate Full(w: Label) {
    |w| >= LOOKAHEAD
  }

  // ----- the held output state

  lemma HeldQuiet(D: Dictionary, P: Paths, x: Label, c: Letter, ostate: Ptr, odepth: int)
    requires Held(D, P, x, ostate, odepth) && Token(D, Ext(x, c)) == []
    ensures Held(D, P, Ext(x, c), ostate, odepth)
  {
    ExtQuiet(D, x, c);
    if ostate != NULL {
      assert P[ostate] == x[..|P[ostate]|] == Ext(x, c)[..|P[ostate]|];
    }
  }

  /** The comparison of start depths in tkparse keeps the leftmost longest token. */
  lemma HeldToken(D: Dictionary, P: Paths, x: Label, c: Letter, ostate: Ptr, odepth: int, trans: Ptr, cdepth: int)
    requires Held(D, P, x, ostate, odepth) && Token(D, Ext(x, c)) != []
    requires trans in P && P[trans] == Ext(x, c) && trans != NULL
    requires cdepth == |Ext(x, c)| - |Token(D, Ext(x, c))| + 1
    ensures ostate == NULL || cdepth <= odepth ==> Held(D, P, Ext(x, c), trans, cdepth)
    ensures ostate != NULL && cdepth > odepth ==> Held(D, P, Ext(x, c), ostate, odepth)
  {
    var u := Ext(x, c);
    TokenOccurs(D, u);
    if ostate == NULL {
      ExtToken(D, x, c, 0, 0);
    } else {
      ExtToken(D, x, c, odepth - 1, |P[ostate]|);
      assert P[ostate] == x[..|P[ostate]|] == u[..|P[ostate]|];
    }
  }

  // ----- depths

  lemma DepthAt(tree: Tree, p: Ptr)
    requires Finished(tree.trie, tree.paths, tree.dict, tree.wild, tree.store, tree.link)
    requires p in tree.paths && (tree.paths[p] != [] || p == tree.wild) && |tree.paths[p]| <= 0x7fff
    ensures p in tree.store && tree.store[p].sdepth == |tree.paths[p]|
  {
    if p != tree.wild {
      assert Ready(tree.store, tree.trie, tree.dict, tree.wild, tree.paths[p]);
    }
  }

  lemma FailLabelOf(tree: Tree, p: Ptr)
    requires Finished(tree.trie, tree.paths, tree.dict, tree.wild, tree.store, tree.link)
    requires p in tree.paths && tree.paths[p] != []
    ensures p in tree.store && tree.store[p].fail in tree.paths
    ensures tree.paths[tree.store[p].fail] == FailLabel(tree.trie.Keys, tree.paths[p])
    ensures tree.paths[tree.store[p].fail] != [] || tree.store[p].fail == tree.wild
    ensures |FailLabel(tree.trie.Keys, tree.paths[p])| < |tree.paths[p]|
    ensures IsSuffix(FailLabel(tree.trie.Keys, tree.paths[p]), tree.paths[p])
  {
    var w := tree.paths[p];
    assert Ready(tree.store, tree.trie, tree.dict, tree.wild, w);
    FailLabelShorter(tree.trie.Keys, w);
    LongestSuffixIsLongest(tree.trie.Keys, w[1..], []);
    var f := FailLabel(tree.trie.Keys, w);
    assert w[|w| - |f|..] == w[1..][|w[1..]| - |f|..];
  }

  lemma ReceiverState(tree: Tree, p: Ptr)
    requires Finished(tree.trie, tree.paths, tree.dict, tree.wild, tree.store, tree.link)
    requires p in tree.paths && tree.paths[p] != []
    ensures p in tree.store && (tree.store[p].output <==> Token(tree.dict, tree.paths[p]) != [])
    ensures Token(tree.dict, tree.paths[p]) != [] ==>
              var r, t := tree.store[p].rstate, Token(tree.dict, tree.paths[p]);
              && r in tree.paths && tree.paths[r] == t && |t| <= |tree.paths[p]|
              && t in tree.dict && r in tree.store && tree.store[r].sval == tree.dict[t]
  {
    TokenIsKey(tree.dict, tree.paths[p]);
    assert Ready(tree.store, tree.trie, tree.dict, tree.wild, tree.paths[p]);
    var t := Token(tree.dict, tree.paths[p]);
    assert t != [] ==> Ready(tree.store, tree.trie, tree.dict, tree.wild, t);
  }

  // ----- the steps of tkparse

  /** The machine inside a call of tkparse on c: x labels the state whose transitions are
      tried, and the queue holds x and c. */
  ghost predicate Trying(tree: Tree, x: Label, c: Letter)
    reads tree`compiled, tree`trie, tree`paths, tree`dict, tree`wild, tree`store, tree`link
    reads tree`found, tree`ostate, tree`odepth
    reads tree.cqueue, if tree.cqueue == null then {} else {tree.cqueue.buffer}
  {
    && tree.compiled && Finished(tree.trie, tree.paths, tree.dict, tree.wild, tree.store, tree.link)
    && tree.cqueue != null && !tree.found
    && tree.cqueue.Valid() && tree.cqueue.Capacity() == LOOKAHEAD
    && tree.cqueue.Contents() == Ext(x, c) && |x| < LOOKAHEAD
    && Held(tree.dict, tree.paths, x, tree.ostate, tree.odepth)
  }

  /** Normal transition: keep the output token with the least start depth. */
  method Shift(tree: Tree, trans: Ptr, ghost x: Label, ghost c: Letter)
    requires Trying(tree, x, c) && trans in tree.paths && tree.paths[trans] == Ext(x, c) && trans != NULL
    modifies tree`cstate, tree`ostate, tree`odepth
    ensures Parsing(tree) && Here(tree) == Ext(x, c)
  {
    hide Finished, Held, Token;
    ReceiverState(tree, trans);
    tree.cstate := trans;
    if tree.store[trans].output {
      DepthAt(tree, trans);
      DepthAt(tree, tree.store[trans].rstate);
      var cdepth := Short(tree.store[trans].sdepth - tree.store[tree.store[trans].rstate].sdepth + 1);
      HeldToken(tree.dict, tree.paths, x, c, tree.ostate, tree.odepth, trans, cdepth);
      if tree.ostate == NULL || cdepth <= tree.odepth {
        tree.ostate := trans;
        tree.odepth := cdepth;
      }
    } else {
      HeldQuiet(tree.dict, tree.paths, x, c, tree.ostate, tree.odepth);
    }
  }

  /** The failure state of x, its label, and what of the queue it keeps. */
  lemma RetreatFacts(tree: Tree, tfail: Ptr, x: Label, c: Letter) returns (f: Label)
    requires Trying(tree, x, c) && tree.ostate == NULL && x != []
    requires tfail in tree.paths && tree.paths[tfail] == x
    ensures tree.cqueue != null && tree.cqueue.Valid() && tree.cqueue.Contents() == Ext(x, c)
    ensures tfail in tree.store && tree.store[tfail].sdepth == |x|
    ensures var next := tree.store[tfail].fail;
      && next in tree.paths && tree.paths[next] == f && next in tree.store && tree.store[next].sdepth == |f|
    ensures f == FailLabel(tree.trie.Keys, x) && |f| < |x| && NoneOccurs(tree.dict, f)
    ensures Ext(x, c)[|x| - |f|..] == Ext(f, c)
  {
    hide Finished, FailLabel, NoneOccurs;
    f := FailLabel(tree.trie.Keys, x);
    FailLabelOf(tree, tfail);
    DepthAt(tree, tfail);
    DepthAt(tree, tree.store[tfail].fail);
    NoneInSuffix(tree.dict, x, f);
  }

  lemma TryingNow(tree: Tree, x: Label, c: Letter)
    requires tree.compiled && Finished(tree.trie, tree.paths, tree.dict, tree.wild, tree.store, tree.link)
    requires tree.cqueue != null && !tree.found
    requires tree.cqueue.Valid() && tree.cqueue.Capacity() == LOOKAHEAD
    requires tree.cqueue.Contents() == Ext(x, c) && |x| < LOOKAHEAD
    requires tree.ostate == NULL && NoneOccurs(tree.dict, x)
    ensures Trying(tree, x, c)
  {
    hide Finished, NoneOccurs;
  }

  lemma TryingParts(tree: Tree, x: Label, c: Letter)
    requires Trying(tree, x, c)
    ensures tree.compiled && Finished(tree.trie, tree.paths, tree.dict, tree.wild, tree.store, tree.link)
    ensures tree.cqueue != null && !tree.found && tree.cqueue.Capacity() == LOOKAHEAD && |x| < LOOKAHEAD
  {
    hide Finished, Held;
  }

  /** Failure transition with nothing held: the characters no longer in the label leave the
      queue. */
  method Retreat(tree: Tree, tfail: Ptr, ghost x: Label, ghost c: Letter) returns (next: Ptr)
    requires Trying(tree, x, c) && tree.ostate == NULL && x != []
    requires tfail in tree.paths && tree.paths[tfail] == x
    modifies tree.cqueue
    ensures next in tree.paths && tree.paths[next] == FailLabel(tree.trie.Keys, x) && |tree.paths[next]| < |x|
    ensures Trying(tree, tree.paths[next], c)
  {
    hide *;
    TryingParts(tree, x, c);
    ghost var f := RetreatFacts(tree, tfail, x, c);
    next := tree.store[tfail].fail;
    var s := tree.cqueue.QDelete(tree.store[tfail].sdepth - tree.store[next].sdepth);
    TryingNow(tree, f, c);
  }

  /** The held state, its token and the rest of the queue. */
  lemma DeliverFacts(tree: Tree, x: Label, c: Letter) returns (i: int, o: Label)
    requires Trying(tree, x, c) && tree.ostate != NULL
    ensures tree.cqueue != null && tree.cqueue.Valid() && tree.cqueue.Contents() == Ext(x, c)
    ensures tree.ostate in tree.paths && tree.ostate in tree.store
    ensures i == tree.odepth - 1 && o == tree.paths[tree.ostate] && tree.store[tree.ostate].sdepth == |o|
    ensures 0 <= i < |o| <= |x| && x[i..|o|] in tree.dict && Ext(x, c)[|o|..] == x[|o|..] + [c]
    ensures var r := tree.store[tree.ostate].rstate; r in tree.store && tree.store[r].sval == tree.dict[x[i..|o|]]
    ensures Short(1) == 1
  {
    hide Finished, Token;
    i, o := tree.odepth - 1, tree.paths[tree.ostate];
    DepthAt(tree, tree.ostate);
    ReceiverState(tree, tree.ostate);
    HeldPiece(tree.dict, tree.paths, x, tree.ostate, tree.odepth);
  }

  /** Failure transition with a token held: report it. */
  method Deliver(tree: Tree, ghost x: Label, ghost c: Letter) returns (sv: int)
    requires Trying(tree, x, c) && tree.ostate != NULL && tree.tkfail == 0
    modifies tree`cstate, tree`ostate, tree`found, tree`tkfail, tree.cqueue
    ensures Reported(tree, x, old(tree.odepth) - 1, |tree.paths[old(tree.ostate)]|, c, sv)
  {
    hide *;
    ghost var i, o := DeliverFacts(tree, x, c);
    var state := tree.store[tree.ostate];
    sv := tree.store[state.rstate].sval;
    var s := tree.cqueue.QDelete(state.sdepth);
    if tree.odepth > 1 {
      tree.tkfail := Short(tree.tkfail + 1);
    }
    tree.ostate := NULL;
    tree.cstate := tree.link;
    tree.found := true;
    ReportedNow(tree, x, i, |o|, c, sv);
  }

  lemma HeldPiece(D: Dictionary, P: Paths, x: Label, ostate: Ptr, odepth: int)
    requires Held(D, P, x, ostate, odepth) && ostate != NULL
    ensures ostate in P && P[ostate] != [] && P[ostate] <= x
    ensures 0 <= odepth - 1 < |P[ostate]| <= |x| && Token(D, P[ostate]) == x[odepth - 1..|P[ostate]|] != []
  {
    var o := P[ostate];
    assert o == x[..|o|];
    assert o[odepth - 1..] == x[odepth - 1..|o|];
  }

  lemma ReportedNow(tree: Tree, w: Label, i: int, j: int, c: Letter, sv: int)
    requires 0 <= i < j <= |w| && w[i..j] in tree.dict && sv == tree.dict[w[i..j]]
    requires tree.cqueue != null && tree.cqueue.Valid() && tree.cqueue.Contents() == w[j..] + [c]
    requires tree.found && tree.cstate == tree.link && tree.ostate == NULL
    requires tree.tkfail > 0 <==> i > 0
    ensures Reported(tree, w, i, j, c, sv)
  {
  }

  /** The wild card transition, taken from the initial states only: c leaves the queue. */
  method PassOver(tree: Tree, ghost c: Letter)
    requires Trying(tree, [], c) && tree.cstate == tree.wild && tree.ostate == NULL
    modifies tree.cqueue
    ensures Parsing(tree) && Here(tree) == []
  {
    hide Token;
    assert tree.wild in tree.paths && tree.paths[tree.wild] == [];
    assert Ext([], c)[1..] == [];
    var s := tree.cqueue.QDelete(1);
  }

  /** What a call of tkparse on c does, from label w: it reports exactly when a keyword occurs
      inside w and c cannot extend w; what it reports is the leftmost longest of those
      occurrences. */
  ghost predicate Parsed(tree: Tree, w: Label, c: Letter, sv: int)
    reads tree, tree.cqueue, if tree.cqueue == null then {} else {tree.cqueue.buffer}
  {
    if Ext(w, c) in tree.trie || NoneOccurs(tree.dict, w) then Continued(tree, w, c, sv)
    else exists i, j :: LeftmostLongest(tree.dict, w, i, j) && Reported(tree, w, i, j, c, sv)
  }

  lemma ParsedOn(tree: Tree, w: Label, c: Letter, x: Label)
    requires Parsing(tree) && Here(tree) == After(tree, Ext(w, c))
    requires tree.tkfail > 0 <==> |Here(tree)| < |w| + 1
    requires Ext(w, c) in tree.trie || NoneOccurs(tree.dict, w)
    ensures Parsed(tree, w, c, PENDING)
  {
  }

  lemma ParsedOut(tree: Tree, w: Label, c: Letter, P: Paths, ostate: Ptr, odepth: int, sv: int)
    requires Held(tree.dict, P, w, ostate, odepth) && ostate != NULL && Ext(w, c) !in tree.trie
    requires Reported(tree, w, odepth - 1, |P[ostate]|, c, sv)
    ensures Parsed(tree, w, c, sv)
  {
    assert Occurs(tree.dict, w, odepth - 1, |P[ostate]|);
  }

  lemma HeldFacts(tree: Tree, x: Label, c: Letter)
    requires Trying(tree, x, c)
    ensures Held(tree.dict, tree.paths, x, tree.ostate, tree.odepth)
    ensures tree.ostate == NULL ==> NoneOccurs(tree.dict, x)
    ensures Walking(tree) && tree.cqueue != null && |x| < LOOKAHEAD
  {
  }

  /** The search of tkparse on c, from the label w, when it has come to the state tfail labelled
      x: nothing was held when it left w. */
  ghost predicate Seeking(tree: Tree, w: Label, c: Letter, x: Label, tfail: Ptr)
    reads tree`compiled, tree`trie, tree`paths, tree`dict, tree`wild, tree`store, tree`link
    reads tree`found, tree`ostate, tree`odepth, tree`tkfail
    reads tree.cqueue, if tree.cqueue == null then {} else {tree.cqueue.buffer}
  {
    && Trying(tree, x, c)
    && tfail in tree.paths && tree.paths[tfail] == x
    && LongestSuffix(tree.trie.Keys, Ext(x, c)) == LongestSuffix(tree.trie.Keys, Ext(w, c))
    && 0 <= tree.tkfail <= |w| - |x| && |w| < LOOKAHEAD && (tree.tkfail == 0 ==> x == w)
    && (x != w ==> tree.ostate == NULL && NoneOccurs(tree.dict, w))
  }

  lemma SeekingStarts(tree: Tree, w: Label, c: Letter, start: Ptr)
    requires Trying(tree, w, c) && start in tree.paths && tree.paths[start] == w && tree.tkfail == 0
    ensures Seeking(tree, w, c, w, start)
  {
    hide Trying;
    HeldFacts(tree, w, c);
  }

  lemma SeekingFacts(tree: Tree, w: Label, c: Letter, x: Label, tfail: Ptr)
    requires Seeking(tree, w, c, x, tfail)
    ensures Walking(tree) && tfail in tree.paths && tree.paths[tfail] == x && tree.cqueue != null
  {
  }

  /** There is a transition on c. */
  method Forward(tree: Tree, trans: Ptr, ghost w: Label, ghost c: Letter, ghost x: Label, ghost tfail: Ptr)
    requires Seeking(tree, w, c, x, tfail)
    requires trans in tree.paths && tree.paths[trans] == Ext(x, c) && trans != NULL
    requires LongestSuffix(tree.trie.Keys, Ext(x, c)) == Ext(x, c)
    modifies tree`cstate, tree`ostate, tree`odepth
    ensures Parsed(tree, w, c, PENDING)
  {
    hide Trying, LongestSuffix, Parsed, NoneOccurs;
    assert Ext(w, c) in tree.trie || NoneOccurs(tree.dict, w) by {
      TransInTrie(tree, trans, x, c);
    }
    Shift(tree, trans, x, c);
    ParsedOn(tree, w, c, x);
  }

  lemma TransInTrie(tree: Tree, trans: Ptr, x: Label, c: Letter)
    requires Trying(tree, x, c) && trans in tree.paths
    ensures tree.paths[trans] in tree.trie
  {
  }

  /** Only the wild card is left. */
  method PassBy(tree: Tree, ghost w: Label, ghost c: Letter, ghost tfail: Ptr)
    requires Seeking(tree, w, c, [], tfail) && tree.cstate == tree.wild
    requires LongestSuffix(tree.trie.Keys, Ext([], c)) == []
    modifies tree`tkfail, tree.cqueue
    ensures Parsed(tree, w, c, PENDING)
  {
    hide Trying, LongestSuffix, Parsed;
    PassNothing(tree, c, []);
    HeldFacts(tree, [], c);
    tree.tkfail := Short(tree.tkfail + 1);
    PassOver(tree, c);
    ParsedOn(tree, w, c, []);
  }

  /** No transition, and a token held. */
  method Announce(tree: Tree, ghost w: Label, ghost c: Letter, ghost x: Label, ghost tfail: Ptr) returns (sv: int)
    requires Seeking(tree, w, c, x, tfail) && tree.ostate != NULL && Ext(x, c) !in tree.trie
    modifies tree`cstate, tree`ostate, tree`found, tree`tkfail, tree.cqueue
    ensures Parsed(tree, w, c, sv)
  {
    hide Trying, LongestSuffix, Held, Parsed, Reported;
    HeldFacts(tree, w, c);
    ghost var o, d := tree.ostate, tree.odepth;
    sv := Deliver(tree, w, c);
    ParsedOut(tree, w, c, tree.paths, o, d, sv);
  }

  /** No transition, and nothing held: go on from the failure state. */
  method Back(tree: Tree, tfail: Ptr, ghost w: Label, ghost c: Letter, ghost x: Label) returns (next: Ptr)
    requires Seeking(tree, w, c, x, tfail) && tree.ostate == NULL && x != []
    requires LongestSuffix(tree.trie.Keys, Ext(x, c)) == LongestSuffix(tree.trie.Keys, Ext(FailLabel(tree.trie.Keys, x), c))
    modifies tree`tkfail, tree.cqueue
    ensures Seeking(tree, w, c, FailLabel(tree.trie.Keys, x), next) && |FailLabel(tree.trie.Keys, x)| < |x|
  {
    hide Trying, LongestSuffix, FailLabel, NoneOccurs;
    HeldFacts(tree, x, c);
    next := Retreat(tree, tfail, x, c);
    tree.tkfail := Short(tree.tkfail + 1);
  }

  /** The search of tkparse from state start, labelled w. */
  method Search(tree: Tree, start: Ptr, c: Letter, ghost w: Label) returns (sv: int)
    requires Seeking(tree, w, c, w, start) && tree.cstate == NULL
    modifies tree`tkfail, tree`cstate, tree`ostate, tree`odepth, tree`found
    modifies tree.cqueue
    ensures Parsed(tree, w, c, sv)
  {
    hide Seeking, Walking, LongestSuffix, FailLabel, Parsed;
    ghost var K, x := tree.trie.Keys, w;
    var tfail := start;
    SeekingFacts(tree, w, c, x, tfail);
    while true
      invariant tree.cqueue != null && Seeking(tree, w, c, x, tfail) && tree.cstate == NULL
      decreases |x|
    {
      SeekingFacts(tree, w, c, x, tfail);
      var trans := Probe(tree, tfail, c);
      if trans != NULL {
        Forward(tree, trans, w, c, x, tfail);
        return PENDING;
      }
      if tree.cstate != NULL {
        PassBy(tree, w, c, tfail);
        return PENDING;
      }
      if tree.ostate != NULL {
        sv := Announce(tree, w, c, x, tfail);
        return;
      }
      tfail := Back(tree, tfail, w, c, x);
      x := FailLabel(K, x);
    }
  }

  /** Nothing is held in an initial state. */
  lemma PassNothing(tree: Tree, c: Letter, x: Label)
    requires Trying(tree, x, c)
    ensures x == [] ==> tree.ostate == NULL
  {
  }

  /** tkparse, called by the user.  It ends the program on a tkmatch machine, when tkpnext has
      not been called after a report, and when the lookahead queue is full. */
  method TkParse(tree: Tree, c: Letter) returns (r: Reply)
    requires tree.cqueue != null && !tree.found ==> Parsing(tree)
    modifies tree`tkfail, tree`cstate, tree`ostate, tree`odepth, tree`found
    modifies if tree.cqueue == null then {} else {tree.cqueue, tree.cqueue.buffer}
    ensures r == Exit <==> tree.cqueue == null || old(tree.found) || Full(old(Here(tree)))
    ensures r != Exit ==> Parsed(tree, old(Here(tree)), c, r.value)
  {
    hide LongestSuffix, Seeking;
    hide Finished, Held, Parsed;
    if tree.cqueue == null {
      return Exit;
    }
    if tree.found {
      return Exit;
    }
    var tfail := tree.cstate;
    tree.tkfail := 0;
    ghost var w := Here(tree);
    tree.cqueue.Bounds();
    var s := tree.cqueue.QAdd(c);
    if s == Failure {
      return Exit;
    }
    tree.cstate := NULL;
    SeekingStarts(tree, w, c, tfail);
    var sv := Search(tree, tfail, c, w);
    return Sval(sv);
  }

  // ----- whole texts

  /** What tkparse reports on c after a text it has not reported on: the leftmost longest keyword
      occurrence of all the text before c.  It stays the leftmost longest one, however the text
      goes on, exactly if it starts before the label that c leads to. */
  ghost predicate FirstReport(tree: Tree, text: Label, c: Letter, sv: int)
    reads tree, tree.cqueue, if tree.cqueue == null then {} else {tree.cqueue.buffer}
  {
    var w := After(tree, text);
    exists i, j :: ReportedAt(tree, text, c, sv, i, j) && Reported(tree, w, i - |text| + |w|, j - |text| + |w|, c, sv)
  }

  ghost predicate ReportedAt(tree: Tree, text: Label, c: Letter, sv: int, i: int, j: int)
    reads tree
  {
    && LeftmostLongest(tree.dict, text, i, j) && sv == tree.dict[text[i..j]]
    && (ForGood(tree.dict, Ext(text, c), i, j) <==> i < |text| + 1 - |After(tree, Ext(text, c))|)
  }

  /** The client loop of src/auto/ttestp.c up to the first report, from reset.  As long as
      nothing is reported, the lookahead queue holds the label of the current state, which is
      that of the longest suffix of the text read that starts some keyword, and no occurrence
      of a keyword starts before it.  r is PENDING if the text runs out first, and n counts the
      characters read without a report. */
  method ParseText(tree: Tree, text: Label) returns (r: Reply, n: nat)
    requires Parsing(tree) && Here(tree) == []
    modifies tree`tkfail, tree`cstate, tree`ostate, tree`odepth, tree`found
    modifies tree.cqueue, tree.cqueue.buffer
    ensures n <= |text|
    ensures n == |text| ==> r == Sval(PENDING) && Parsing(tree) && Here(tree) == After(tree, text)
    ensures n == |text| ==> Confined(tree.dict, text, After(tree, text))
    ensures n < |text| && r == Exit ==> Full(After(tree, text[..n]))
    ensures forall m | 0 <= m < n :: Quiet(tree.dict, tree.trie.Keys, text[..m], text[m])
    ensures n < |text| && r != Exit ==>
              !Quiet(tree.dict, tree.trie.Keys, text[..n], text[n]) && FirstReport(tree, text[..n], text[n], r.value)
  {
    hide Finished, Held, LongestSuffix, Parsed, FirstReport, Full, Confined, Quiet, Past;
    ghost var D, K := tree.dict, tree.trie.Keys;
    n := 0;
    r := Sval(PENDING);
    PastNothing(D, K, text);
    while n < |text|
      invariant 0 <= n <= |text| && r == Sval(PENDING)
      invariant Parsing(tree) && Here(tree) == LongestSuffix(K, text[..n]) && Past(D, K, text, n)
    {
      PastFacts(D, K, text, n);
      r := TkParse(tree, text[n]);
      if r == Exit {
        return;
      }
      if r != Sval(PENDING) {
        ReportsLeftmost(tree, text[..n], text[n], r.value);
        return;
      }
      GoesOn(tree, text, n);
      n := n + 1;
    }
    PastFacts(D, K, text, n);
    assert text[..n] == text;
  }

  /** No keyword occurs in the first n characters before the label they lead to, and nothing was
      reported on any of them. */
  ghost predicate Past(D: Dictionary, K: set<Label>, text: Label, n: nat)
    requires n <= |text|
  {
    && Confined(D, text[..n], LongestSuffix(K, text[..n]))
    && forall m | 0 <= m < n :: Quiet(D, K, text[..m], text[m])
  }

  lemma PastFacts(D: Dictionary, K: set<Label>, text: Label, n: nat)
    requires n <= |text| && Past(D, K, text, n)
    ensures Confined(D, text[..n], LongestSuffix(K, text[..n]))
    ensures forall m | 0 <= m < n :: Quiet(D, K, text[..m], text[m])
  {
  }

  lemma PastNothing(D: Dictionary, K: set<Label>, text: Label)
    ensures Past(D, K, text, 0) && LongestSuffix(K, text[..0]) == []
  {
  }

  lemma PastMore(D: Dictionary, K: set<Label>, text: Label, n: nat)
    requires PrefixClosed(K) && D.Keys <= K && n < |text| && Past(D, K, text, n) && Quiet(D, K, text[..n], text[n])
    ensures Past(D, K, text, n + 1)
  {
    hide Quiet, Confined, LongestSuffix, PrefixClosed;
    ConfinedStep(D, K, text[..n], text[n]);
    assert text[..n + 1] == Ext(text[..n], text[n]);
  }

  lemma GoesOn(tree: Tree, text: Label, n: nat)
    requires Compiled(tree) && n < |text| && Past(tree.dict, tree.trie.Keys, text, n)
    requires Parsed(tree, LongestSuffix(tree.trie.Keys, text[..n]), text[n], PENDING)
    ensures Parsing(tree) && Here(tree) == LongestSuffix(tree.trie.Keys, text[..n + 1])
    ensures Past(tree.dict, tree.trie.Keys, text, n + 1)
  {
    hide Compiled, Past, Quiet, LongestSuffix, Parsed, PrefixClosed;
    CompiledPrefixes(tree);
    var w := LongestSuffix(tree.trie.Keys, text[..n]);
    PendingIsContinued(tree, w, text[n]);
    PendingIsQuiet(tree, text[..n], text[n]);
    PastMore(tree.dict, tree.trie.Keys, text, n);
    LongestSuffixStep(tree.trie.Keys, text[..n], text[n]);
    assert text[..n + 1] == Ext(text[..n], text[n]);
  }

  lemma CompiledPrefixes(tree: Tree)
    requires Compiled(tree)
    ensures PrefixClosed(tree.trie.Keys) && tree.dict.Keys <= tree.trie.Keys
  {
  }

  lemma KeysArePrefixes(tree: Tree)
    requires Compiled(tree)
    ensures tree.trie.Keys == Prefixes(tree.dict)
  {
    forall w
      ensures w in tree.trie <==> w in Prefixes(tree.dict)
    {
      TrieIsPrefixes(tree.trie, tree.dict, w);
    }
  }

  lemma PendingIsQuiet(tree: Tree, text: Label, c: Letter)
    requires Compiled(tree) && Parsed(tree, After(tree, text), c, PENDING)
    ensures Quiet(tree.dict, tree.trie.Keys, text, c)
  {
    PendingIsContinued(tree, After(tree, text), c);
  }

  lemma ReportsLeftmost(tree: Tree, text: Label, c: Letter, sv: int)
    requires Compiled(tree) && Confined(tree.dict, text, After(tree, text))
    requires Parsed(tree, After(tree, text), c, sv) && sv != PENDING
    ensures !Quiet(tree.dict, tree.trie.Keys, text, c) && FirstReport(tree, text, c, sv)
  {
    hide Parsed, Quiet, Compiled, Reported, LeftmostLongest, ForGood, LongestSuffix, Prefixes, Confined;
    NotContinued(tree, text, c, sv);
    var w := After(tree, text);
    var i, j :| LeftmostLongest(tree.dict, w, i, j) && Reported(tree, w, i, j, c, sv);
    KeysArePrefixes(tree);
    var a, b := TextReport(tree.dict, tree.trie.Keys, text, c, w, i, j);
    SvalueReported(tree, w, i, j, c, sv);
    assert ReportedAt(tree, text, c, sv, a, b);
  }

  lemma SvalueReported(tree: Tree, w: Label, i: int, j: int, c: Letter, sv: int)
    requires Reported(tree, w, i, j, c, sv)
    ensures 0 <= i < j <= |w| && w[i..j] in tree.dict && sv == tree.dict[w[i..j]]
  {
  }

  lemma TextReport(D: Dictionary, K: set<Label>, text: Label, c: Letter, w: Label, i: int, j: int)
    returns (a: int, b: int)
    requires K == Prefixes(D) && w == LongestSuffix(K, text) && Confined(D, text, w) && LeftmostLongest(D, w, i, j)
    ensures a - |text| + |w| == i && b - |text| + |w| == j
    ensures LeftmostLongest(D, text, a, b) && 0 <= a < b <= |text| && text[a..b] == w[i..j]
    ensures ForGood(D, Ext(text, c), a, b) <==> a < |text| + 1 - |LongestSuffix(K, Ext(text, c))|
  {
    hide Confined, Prefixes, LongestSuffix, ForGood;
    LongestSuffixIsLongest(K, text, []);
    a, b := |text| - |w| + i, |text| - |w| + j;
    LeftmostInText(D, text, w, i, j);
    ForGoodIff(D, text, c, a, b);
    InLabel(D, text, w, a, b);
    assert text[a..b] == w[i..j];
  }

  lemma NotContinued(tree: Tree, text: Label, c: Letter, sv: int)
    requires Parsed(tree, After(tree, text), c, sv) && sv != PENDING
    ensures !Quiet(tree.dict, tree.trie.Keys, text, c)
    ensures var w := After(tree, text);
      exists i, j :: LeftmostLongest(tree.dict, w, i, j) && Reported(tree, w, i, j, c, sv)
  {
    hide Reported, LeftmostLongest, LongestSuffix;
  }

  /** PENDING is no svalue. */
  lemma PendingIsContinued(tree: Tree, w: Label, c: Letter)
    requires Compiled(tree) && Parsed(tree, w, c, PENDING)
    ensures Continued(tree, w, c, PENDING) && (Ext(w, c) in tree.trie || NoneOccurs(tree.dict, w))
  {
    forall i, j
      ensures !Reported(tree, w, i, j, c, PENDING)
    {
      if Occurs(tree.dict, w, i, j) {
        assert tree.dict[w[i..j]] > 0;
      }
    }
  }

  /** With keywords of at most 119 characters the lookahead queue is never full. */
  lemma ShortKeysFit(tree: Tree, text: Label)
    requires Compiled(tree) && forall k | k in tree.dict :: |k| < LOOKAHEAD
    ensures !Full(After(tree, text))
  {
    LongestSuffixIsLongest(tree.trie.Keys, text, []);
    var w := After(tree, text);
    if w != [] {
      assert Extends(tree.dict, w);
      var k :| k in tree.dict && w <= k;
    }
  }

  // ----- a report that is not the leftmost one

  const ABCDE: Label := [97, 98, 99, 100, 101]
  const ABC: Label := [97, 98, 99]
  const ABCF: Label := [97, 98, 99, 102]
  const BCF: Label := [98, 99, 102]
  const C: Label := [99]

  lemma AbcIsState(D: Dictionary)
    requires D.Keys == {ABCDE, C, BCF}
    ensures ABC == ABCF[..3] && LongestSuffix(Prefixes(D), ABC) == ABC
    ensures Ext(ABC, 102) == ABCF && ABCF !in Prefixes(D)
  {
    hide Prefixes;
    assert ABCDE in D && ABC <= ABCDE;
    assert Extends(D, ABC);
    assert !(ABCF <= ABCDE) by {
      assert ABCDE[3] == 100 && ABCF[3] == 102;
    }
    assert |BCF| == 3 && |C| == 1;
  }

  lemma OnlyC(D: Dictionary)
    requires D.Keys == {ABCDE, C, BCF}
    ensures LeftmostLongest(D, ABC, 2, 3) && ABC[2..3] == C
  {
    assert ABC[2..3] == C;
    forall i, j | Occurs(D, ABC, i, j)
      ensures i == 2 && j == 3
    {
      assert |ABC[i..j]| == j - i;
      assert ABC[i..j][0] == ABC[i];
    }
  }

  lemma BcfOccurs(D: Dictionary)
    requires D.Keys == {ABCDE, C, BCF}
    ensures Occurs(D, ABCF, 1, 4)
  {
    assert ABCF[1..4] == BCF;
  }

  /** The report need not be the leftmost one of the whole text.  With the keywords abcde, c and
      bcf the machine is in the state abc when the f of abcf arrives; the only keyword inside abc
      is c, but the label f leads to is bcf, which starts before it. */
  lemma NotForGood(D: Dictionary)
    requires D.Keys == {ABCDE, C, BCF}
    ensures LongestSuffix(Prefixes(D), ABC) == ABC && Ext(ABC, 102) == ABCF && ABCF !in Prefixes(D)
    ensures LeftmostLongest(D, ABC, 2, 3) && !LeftmostLongest(D, ABCF, 2, 3) && !ForGood(D, ABCF, 2, 3)
  {
    hide Prefixes, LongestSuffix, ForGood, Occurs;
    AbcIsState(D);
    OnlyC(D);
    BcfOccurs(D);
    EndsInLabel(D, Prefixes(D), ABCF, 1);
    ForGoodIff(D, ABC, 102, 2, 3);
  }
}
