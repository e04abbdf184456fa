/** The failure function of src/auto/token.c: tkcompile's breadth-first walk. */
module PatternCompile {
  import opened Labels
  import opened RingQueue
  import opened PatternTrie
  import opened PatternFrontier
  import opened PatternBreadth

  // ----- what tkcompile must compute

  /** The state a failure transition to label u enters: the WCARD state stands for the empty
      label. */
  function StateOf(T: Trie, wild: Ptr, u: Label): Ptr
    requires u == [] || u in T
  {
    if u == [] then wild else T[u]
  }

  /** The longest keyword that ends where w ends, empty if there is none. */
  function Token(D: Dictionary, w: Label): Label {
    LongestSuffix(D.Keys, w)
  }

  lemma TokenIsKey(D: Dictionary, w: Label)
    ensures Token(D, w) == [] || Token(D, w) in D
    ensures |Token(D, w)| <= |w|
  {
    LongestSuffixIsLongest(D.Keys, w, []);
  }

  /** State w with its failure transition, output flag, receiving state and depth. */
  ghost predicate Final(T: Trie, D: Dictionary, wild: Ptr, w: Label, t: TkState)
    requires w != [] && [] in T && D.Keys <= T.Keys
  {
    FailLabelShorter(T.Keys, w);
    TokenIsKey(D, w);
    && t.sval == SvalueOf(D, w)
    && t.fail == StateOf(T, wild, FailLabel(T.Keys, w))
    && (t.output <==> Token(D, w) != [])
    && t.rstate == (if Token(D, w) == [] then NULL else T[Token(D, w)])
    && t.sdepth == Short(|w|)
  }

  // ----- the walk on the store

  /** The WCARD state. */
  ghost predicate Backstop(M: Store, wild: Ptr) {
    && wild in M && M[wild].fail == wild && M[wild].sval == PENDING
    && !M[wild].output && M[wild].rstate == NULL && M[wild].sdepth == 0
  }

  ghost predicate Ready(M: Store, T: Trie, D: Dictionary, wild: Ptr, v: Label)
    requires [] in T && D.Keys <= T.Keys
  {
    v != [] && v in T && T[v] in M && Final(T, D, wild, v, M[T[v]])
  }

  ghost predicate Untouched(M: Store, T: Trie, D: Dictionary, v: Label) {
    v in T && T[v] in M && PlainState(D, v, M[T[v]])
  }

  /** What the walk has done: the states below a barred label are untouched, and the others are
      ready, if no failure transition can have gone wrong. */
  ghost predicate Progress(M: Store, T: Trie, D: Dictionary, wild: Ptr, Q: set<Label>, cur: Label, bound: int, exact: bool)
    requires [] in T && D.Keys <= T.Keys
  {
    && (forall v {:trigger Ready(M, T, D, wild, v)} {:trigger Untouched(M, T, D, v)} | v in T ::
          if Done(Q, cur, bound, v) then exact ==> Ready(M, T, D, wild, v) else Untouched(M, T, D, v))
  }

  /** Finishing the child of w on c. */
  lemma ProgressStep(M: Store, M': Store, T: Trie, P: Paths, D: Dictionary, wild: Ptr, Q: set<Label>, w: Label, lo: int, c: Letter,
                     exact: bool, exact': bool)
    requires Named(T, P, wild) && D.Keys <= T.Keys && Progress(M, T, D, wild, Q, w, lo, exact)
    requires lo <= c && Absent(T, w, lo, c) && Ext(w, c) in T && Clear(Q, w) && (exact' ==> exact)
    requires (exact ==> Ready(M', T, D, wild, Ext(w, c))) && M'.Keys == M.Keys
    requires forall p | p in M && p != T[Ext(w, c)] :: M'[p] == M[p]
    ensures Progress(M', T, D, wild, Q + {Ext(w, c)}, w, c as int + 1, exact')
  {
    hide Done, Clear, FailLabel, LongestSuffix, PlainState;
    var u := Ext(w, c);
    forall v | v in T
      ensures if Done(Q + {u}, w, c as int + 1, v) then exact' ==> Ready(M', T, D, wild, v) else Untouched(M', T, D, v)
    {
      DoneStep(T, Q, w, lo, c, v);
      assert Ready(M, T, D, wild, v) || Untouched(M, T, D, v) || !exact;
    }
  }

  // ----- one child

  lemma TokenOfFail(T: Trie, D: Dictionary, u: Label)
    requires D.Keys <= T.Keys && u != [] && u !in D
    ensures Token(D, u) == Token(D, FailLabel(T.Keys, u))
  {
    LongestSuffixVia(D.Keys, T.Keys, u[1..]);
  }

  /** The states at most n deep have their failure transitions. */
  ghost predicate ReadyTo(M: Store, T: Trie, D: Dictionary, wild: Ptr, n: nat)
    requires [] in T && D.Keys <= T.Keys
  {
    forall v {:trigger Ready(M, T, D, wild, v)} | v in T && 1 <= |v| <= n :: Ready(M, T, D, wild, v)
  }

  lemma ProgressReady(M: Store, T: Trie, D: Dictionary, wild: Ptr, qs: seq<Label>, lost: set<Label>, cur: Label, bound: int)
    requires [] in T && D.Keys <= T.Keys && Harmless(T, lost)
    requires Frontier(T, qs, lost, cur, bound) && Progress(M, T, D, wild, Barred(qs, lost), cur, bound, true)
    ensures ReadyTo(M, T, D, wild, |cur|)
  {
    hide Frontier, Done, Final, Barred;
    forall v | v in T && 1 <= |v| <= |cur|
      ensures Ready(M, T, D, wild, v)
    {
      ShallowDone(T, qs, lost, cur, bound, v);
    }
  }

  /** The goto tree with its WCARD state. */
  ghost predicate Sound(T: Trie, P: Paths, D: Dictionary, wild: Ptr, M: Store) {
    && Named(T, P, wild) && wild != NULL && Linked(M, T, P, wild) && Covers(T, D) && Backstop(M, wild)
  }

  /** What the walk needs to know about the machine while it runs. */
  ghost predicate Walking(tree: Tree)
    reads tree
  {
    Sound(tree.trie, tree.paths, tree.dict, tree.wild, tree.store)
  }

  ghost predicate ShallowReady(tree: Tree, n: nat)
    reads tree
  {
    [] in tree.trie && tree.dict.Keys <= tree.trie.Keys && ReadyTo(tree.store, tree.trie, tree.dict, tree.wild, n)
  }

  ghost predicate IsReady(tree: Tree, u: Label)
    reads tree
  {
    [] in tree.trie && tree.dict.Keys <= tree.trie.Keys && Ready(tree.store, tree.trie, tree.dict, tree.wild, u)
  }

  /** What holds of a state whatever was lost: its failure state is shallower, and an output flag
      that is not its own is that of its failure state. */
  ghost predicate LooseState(M: Store, P: Paths, wild: Ptr, p: Ptr)
    requires M.Keys == P.Keys && p in P
  {
    var t := M[p];
    && (p == wild || t.fail == NULL || (t.fail in P && |P[t.fail]| < |P[p]|))
    && (t.output && t.sval == PENDING ==> t.fail in P && M[t.fail].output)
  }

  ghost predicate Loose(M: Store, P: Paths, wild: Ptr) {
    && M.Keys == P.Keys
    && forall p {:trigger LooseState(M, P, wild, p)} | p in P :: LooseState(M, P, wild, p)
  }

  /** One more assignment to p keeps it so. */
  lemma LooseStep(M: Store, P: Paths, wild: Ptr, p: Ptr, t: TkState)
    requires Loose(M, P, wild) && NULL !in P && p in P && p != wild
    requires t.sval == M[p].sval && (M[p].output ==> t.output)
    requires t.fail == NULL || (t.fail in P && |P[t.fail]| < |P[p]|)
    requires t.output && t.sval == PENDING ==> t.fail in P && M[t.fail].output
    ensures Loose(M[p := t], P, wild)
  {
    var M' := M[p := t];
    assert M'.Keys == P.Keys;
    forall q | q in P
      ensures LooseState(M', P, wild, q)
    {
      assert LooseState(M, P, wild, q);
    }
  }

  // ----- the failure state

  /** The search for the failure state of the child of w on c has come to pfail. */
  ghost predicate Searching(T: Trie, P: Paths, wild: Ptr, w: Label, c: Letter, pfail: Ptr)
    requires pfail in P && w != []
  {
    && (P[pfail] == [] || P[pfail] in T) && pfail == StateOf(T, wild, P[pfail])
    && LongestSuffix(T.Keys, Ext(P[pfail], c)) == FailLabel(T.Keys, Ext(w, c))
  }

  /** What tkgoto finds there. */
  ghost predicate Went(T: Trie, P: Paths, wild: Ptr, pfail: Ptr, c: Letter, ok: bool, tfail: Ptr)
    requires pfail in P
  {
    if Ext(P[pfail], c) in T then ok && tfail == T[Ext(P[pfail], c)]
    else if P[pfail] == [] then ok && tfail == wild
    else !ok
  }

  ghost predicate FailFound(T: Trie, wild: Ptr, u: Label, tfail: Ptr)
    requires u != []
  {
    && (FailLabel(T.Keys, u) == [] || FailLabel(T.Keys, u) in T)
    && tfail == StateOf(T, wild, FailLabel(T.Keys, u))
  }

  lemma SearchStarts(M: Store, T: Trie, P: Paths, D: Dictionary, wild: Ptr, w: Label, c: Letter)
    requires Sound(T, P, D, wild, M) && Loose(M, P, wild) && w != [] && w in T
    ensures T[w] in M && (M[T[w]].fail == NULL || (M[T[w]].fail in P && |P[M[T[w]].fail]| < |w|))
    ensures ReadyTo(M, T, D, wild, |w|) ==> M[T[w]].fail != NULL && Searching(T, P, wild, w, c, M[T[w]].fail)
  {
    assert LooseState(M, P, wild, T[w]);
    FailLabelShorter(T.Keys, w);
    FailLabelOfChild(T.Keys, w, c);
    hide Linked, PrefixClosed, FailLabel, LongestSuffix;
    assert ReadyTo(M, T, D, wild, |w|) ==> Ready(M, T, D, wild, w);
  }

  lemma SearchGoesOn(M: Store, T: Trie, P: Paths, D: Dictionary, wild: Ptr, w: Label, c: Letter, pfail: Ptr)
    requires Sound(T, P, D, wild, M) && Loose(M, P, wild) && w != [] && pfail in P && P[pfail] != []
    requires |P[pfail]| < |w| && Ext(P[pfail], c) !in T
    ensures pfail in M && (M[pfail].fail == NULL || (M[pfail].fail in P && |P[M[pfail].fail]| < |P[pfail]|))
    ensures ReadyTo(M, T, D, wild, |w|) && Searching(T, P, wild, w, c, pfail) ==>
              M[pfail].fail != NULL && Searching(T, P, wild, w, c, M[pfail].fail)
  {
    assert LooseState(M, P, wild, pfail);
    var x := P[pfail];
    FailLabelShorter(T.Keys, x);
    FailureStep(T.Keys, x, c);
    hide Linked, PrefixClosed, FailLabel, LongestSuffix;
    assert ReadyTo(M, T, D, wild, |w|) ==> Ready(M, T, D, wild, x);
  }

  lemma SearchEnds(M: Store, T: Trie, P: Paths, D: Dictionary, wild: Ptr, w: Label, c: Letter, pfail: Ptr, tfail: Ptr)
    requires Sound(T, P, D, wild, M) && w != [] && pfail in P && |P[pfail]| < |w| && Went(T, P, wild, pfail, c, true, tfail)
    ensures tfail in P && |P[tfail]| <= |w|
    ensures Searching(T, P, wild, w, c, pfail) ==> FailFound(T, wild, Ext(w, c), tfail)
  {
    if P[pfail] == [] && Ext(P[pfail], c) !in T {
      EmptyStep(T.Keys, c);
    }
  }

  /** The loop computing Tfail: follow failure transitions from trans until one has a
      transition on c; the WCARD state always has one.  Below a lost label there may be none to
      follow, and tkgoto is called on NULL. */
  method FailureOf(tree: Tree, trans: Ptr, c: Letter, ghost w: Label) returns (tfail: Ptr, crash: bool)
    requires Walking(tree) && Loose(tree.store, tree.paths, tree.wild)
    requires w != [] && w in tree.trie && trans == tree.trie[w]
    ensures !crash ==> tfail in tree.paths && |tree.paths[tfail]| <= |w|
    ensures ShallowReady(tree, |w|) ==>
              !crash && FailFound(tree.trie, tree.wild, Ext(w, c), tfail)
  {
    hide Sound, Loose, ReadyTo, Searching, FailFound;
    ghost var M, T, P, D, wild := tree.store, tree.trie, tree.paths, tree.dict, tree.wild;
    WalkDomains(T, P, D, wild, M);
    ghost var exact := ReadyTo(M, T, D, wild, |w|);
    SearchStarts(M, T, P, D, wild, w, c);
    var pfail := tree.store[trans].fail;
    if pfail == NULL {
      return NULL, true;
    }
    var ok;
    ok, tfail := Goto(tree, pfail, c);
    while !ok
      invariant pfail in P && |P[pfail]| < |w| && Went(T, P, wild, pfail, c, ok, tfail)
      invariant exact ==> Searching(T, P, wild, w, c, pfail)
      decreases |P[pfail]|
      modifies {}
    {
      SearchGoesOn(M, T, P, D, wild, w, c, pfail);
      pfail := tree.store[pfail].fail;
      if pfail == NULL {
        return NULL, true;
      }
      ok, tfail := Goto(tree, pfail, c);
    }
    SearchEnds(M, T, P, D, wild, w, c, pfail, tfail);
    crash := false;
  }

  /** tkgoto on a machine with its WCARD state. */
  method Goto(tree: Tree, p: Ptr, c: Letter) returns (ok: bool, q: Ptr)
    requires Walking(tree) && p in tree.paths
    ensures Went(tree.trie, tree.paths, tree.wild, p, c, ok, q)
  {
    hide Named, Linked, Covers, Backstop, Precedes;
    ok, q := tree.TkGoto(p, c);
  }

  // ----- the receiving state

  lemma ReceiverNext(M: Store, T: Trie, P: Paths, D: Dictionary, wild: Ptr, p: Ptr)
    requires Sound(T, P, D, wild, M) && Loose(M, P, wild) && p in P && M[p].output && M[p].sval == PENDING
    ensures M[p].fail in P && M[M[p].fail].output && |P[M[p].fail]| < |P[p]|
  {
    assert LooseState(M, P, wild, p);
  }

  /** Following failure states up to a keyword: it is the token. */
  lemma ReceiverStep(M: Store, T: Trie, P: Paths, D: Dictionary, wild: Ptr, x: Label, n: nat)
    requires Sound(T, P, D, wild, M) && ReadyTo(M, T, D, wild, n) && x != [] && x in T && x !in D
    requires Token(D, x) != [] && |x| <= n + 1
    ensures var f := FailLabel(T.Keys, x);
      Token(D, f) == Token(D, x) && f != [] && f in T && 1 <= |f| <= n && Ready(M, T, D, wild, f)
  {
    TokenOfFail(T, D, x);
    FailLabelShorter(T.Keys, x);
    TokenOfEmpty(D);
    hide Linked, Token, FailLabel, LongestSuffix;
  }

  lemma ReadyFail(M: Store, T: Trie, D: Dictionary, wild: Ptr, x: Label)
    requires [] in T && D.Keys <= T.Keys && Ready(M, T, D, wild, x)
    ensures FailLabel(T.Keys, x) == [] || FailLabel(T.Keys, x) in T
    ensures T[x] in M && M[T[x]].fail == StateOf(T, wild, FailLabel(T.Keys, x)) && M[T[x]].sval == SvalueOf(D, x)
    ensures M[T[x]].output <==> Token(D, x) != []
  {
    hide Token, FailLabel, SvalueOf;
    FailLabelShorter(T.Keys, x);
  }

  /** The loop computing rstate: the first state on the failure path of ntrans that carries a
      keyword.  It always ends, because the output flag promises such a state. */
  method ReceiverOf(tree: Tree, ntrans: Ptr, ghost u: Label) returns (pfail: Ptr)
    requires Walking(tree) && Loose(tree.store, tree.paths, tree.wild) && u != [] && u in tree.trie
    requires ntrans == tree.trie[u] && ntrans in tree.store && tree.store[ntrans].sval == SvalueOf(tree.dict, u)
    requires tree.store[ntrans].sval == PENDING ==>
               tree.store[ntrans].fail in tree.paths && tree.store[ntrans].fail in tree.store
               && tree.store[tree.store[ntrans].fail].output && |tree.paths[tree.store[ntrans].fail]| < |u|
    ensures ShallowReady(tree, |u| - 1)
            && FailFound(tree.trie, tree.wild, u, tree.store[ntrans].fail) && Token(tree.dict, u) != [] ==>
              Token(tree.dict, u) in tree.trie && pfail == tree.trie[Token(tree.dict, u)]
  {
    hide Sound, Loose, ReadyTo, Token, FailLabel, LongestSuffix, SvalueOf, FailFound, StateOf;
    ghost var M, T, P, D, wild := tree.store, tree.trie, tree.paths, tree.dict, tree.wild;
    WalkDomains(T, P, D, wild, M);
    ghost var exact := ReadyTo(M, T, D, wild, |u| - 1) && FailFound(T, wild, u, M[ntrans].fail) && Token(D, u) != [];
    LabelOf(M, T, P, D, wild, u);
    pfail := ntrans;
    if tree.store[pfail].sval == PENDING {
      if exact {
        ReceiverStarts(M, T, P, D, wild, u);
      }
      pfail := tree.store[pfail].fail;
      while tree.store[pfail].sval == PENDING
        invariant pfail in P && pfail in M && M[pfail].output
        invariant exact ==> Receiving(M, T, P, D, wild, u, pfail)
        decreases |P[pfail]|
        modifies {}
      {
        ReceiverNext(M, T, P, D, wild, pfail);
        if exact {
          ReceiverGoesOn(M, T, P, D, wild, u, pfail);
        }
        pfail := tree.store[pfail].fail;
      }
      if exact {
        ReceiverEnds(M, T, P, D, wild, u, pfail);
      }
    } else {
      TokenHere(D, u);
    }
  }

  lemma LabelOf(M: Store, T: Trie, P: Paths, D: Dictionary, wild: Ptr, u: Label)
    requires Sound(T, P, D, wild, M) && u in T
    ensures T[u] in P && P[T[u]] == u && T[u] != wild && M.Keys == P.Keys
  {
  }

  lemma TokenHere(D: Dictionary, u: Label)
    requires SvalueOf(D, u) != PENDING
    ensures u in D && Token(D, u) == u
  {
  }

  /** The search for the receiving state of u has come to p. */
  ghost predicate Receiving(M: Store, T: Trie, P: Paths, D: Dictionary, wild: Ptr, u: Label, p: Ptr)
    requires [] in T && D.Keys <= T.Keys && p in P
  {
    var x := P[p];
    x != [] && x in T && p == T[x] && |x| < |u| && Token(D, x) == Token(D, u) && Ready(M, T, D, wild, x)
  }

  lemma NotAKey(D: Dictionary, x: Label)
    requires (forall w | w in D :: 0 < D[w]) && SvalueOf(D, x) == PENDING
    ensures x !in D
  {
  }

  lemma ReceiverStarts(M: Store, T: Trie, P: Paths, D: Dictionary, wild: Ptr, u: Label)
    requires Sound(T, P, D, wild, M) && u != [] && u in T && ReadyTo(M, T, D, wild, |u| - 1)
    requires T[u] in M && FailFound(T, wild, u, M[T[u]].fail) && Token(D, u) != [] && SvalueOf(D, u) == PENDING
    ensures M[T[u]].fail in P && Receiving(M, T, P, D, wild, u, M[T[u]].fail)
  {
    hide Linked, Token, FailLabel, LongestSuffix, SvalueOf, Final;
    NotAKey(D, u);
    ReceiverStep(M, T, P, D, wild, u, |u| - 1);
  }

  lemma ReceiverGoesOn(M: Store, T: Trie, P: Paths, D: Dictionary, wild: Ptr, u: Label, p: Ptr)
    requires Sound(T, P, D, wild, M) && u != [] && ReadyTo(M, T, D, wild, |u| - 1) && Token(D, u) != []
    requires p in P && p in M && Receiving(M, T, P, D, wild, u, p) && M[p].sval == PENDING
    ensures M[p].fail in P && Receiving(M, T, P, D, wild, u, M[p].fail)
  {
    hide Linked, Token, FailLabel, LongestSuffix, SvalueOf, Final;
    ReadyFail(M, T, D, wild, P[p]);
    NotAKey(D, P[p]);
    ReceiverStep(M, T, P, D, wild, P[p], |u| - 1);
  }

  lemma ReceiverEnds(M: Store, T: Trie, P: Paths, D: Dictionary, wild: Ptr, u: Label, p: Ptr)
    requires Sound(T, P, D, wild, M) && p in P && p in M && Receiving(M, T, P, D, wild, u, p) && M[p].sval != PENDING
    ensures Token(D, u) in T && p == T[Token(D, u)]
  {
    hide Linked, Token, FailLabel, LongestSuffix, SvalueOf, Final;
    ReadyFail(M, T, D, wild, P[p]);
    TokenHere(D, P[p]);
  }

  lemma TokenOfKey(D: Dictionary, x: Label)
    requires x in D
    ensures Token(D, x) == x
  {
  }

  lemma TokenOfEmpty(D: Dictionary)
    ensures Token(D, []) == []
  {
  }

  // ----- the walk

  /** The whole state of the walk: labels qs queued, labels lost that found no room in the queue,
      the children of cur from bound on to come. */
  ghost predicate Bfs(T: Trie, D: Dictionary, wild: Ptr, M: Store, qs: seq<Label>, lost: set<Label>, cur: Label, bound: int) {
    && [] in T && D.Keys <= T.Keys && cur in T
    && Frontier(T, qs, lost, cur, bound)
    && Progress(M, T, D, wild, Barred(qs, lost), cur, bound, Harmless(T, lost))
    && (bound < 255 ==> Clear(Barred(qs, lost), cur))
  }

  lemma BfsStep(M: Store, M': Store, T: Trie, P: Paths, D: Dictionary, wild: Ptr, qs: seq<Label>, lost: set<Label>, w: Label,
                lo: int, c: Letter, qs': seq<Label>, lost': set<Label>)
    requires Named(T, P, wild) && Bfs(T, D, wild, M, qs, lost, w, lo) && lo <= c && lo < 255
    requires Absent(T, w, lo, c) && Ext(w, c) in T && Barring(qs, lost, Ext(w, c), qs', lost')
    requires (Harmless(T, lost) ==> Ready(M', T, D, wild, Ext(w, c))) && M'.Keys == M.Keys
    requires forall p | p in M && p != T[Ext(w, c)] :: M'[p] == M[p]
    ensures Bfs(T, D, wild, M', qs', lost', w, c as int + 1)
    ensures WorkLeft(T, qs', lost', w, c as int + 1) <= WorkLeft(T, qs, lost, w, lo)
  {
    hide Frontier, Progress, Absent, Clear, WorkLeft, Barred, Harmless, Ready;
    assert PrefixClosed(T.Keys);
    FrontierStep(T, qs, lost, w, lo, c, qs', lost');
    BarredMore(qs, lost, Ext(w, c), qs', lost');
    if Harmless(T, lost') {
      HarmlessLess(T, lost, lost');
    }
    ProgressStep(M, M', T, P, D, wild, Barred(qs, lost), w, lo, c, Harmless(T, lost), Harmless(T, lost'));
    WorkStep(T, qs, lost, w, lo, c, qs', lost');
  }

  lemma BfsStart(M: Store, T: Trie, D: Dictionary, wild: Ptr, qs: seq<Label>, lost: set<Label>, cur: Label)
    requires Bfs(T, D, wild, M, qs, lost, cur, 255) && qs != []
    ensures Bfs(T, D, wild, M, qs[1..], lost, qs[0], 1)
    ensures WorkLeft(T, qs[1..], lost, qs[0], 1) < WorkLeft(T, qs, lost, cur, 255)
  {
    hide Frontier, Clear, WorkLeft, Barred, Harmless, Ready, Untouched, Done;
    FrontierStart(T, qs, lost, cur);
    BarredStart(T, qs, lost, cur, 255);
    InTrie(T, qs, lost, cur);
    WorkStart(T, qs, lost, cur);
    forall v | v in T
      ensures if Done(Barred(qs[1..], lost), qs[0], 1, v) then Harmless(T, lost) ==> Ready(M, T, D, wild, v) else Untouched(M, T, D, v)
    {
      DoneStart(Barred(qs, lost), qs[0], cur, v);
      assert Ready(M, T, D, wild, v) || Untouched(M, T, D, v) || !Harmless(T, lost);
    }
  }

  lemma InTrie(T: Trie, qs: seq<Label>, lost: set<Label>, cur: Label)
    requires qs != [] && Frontier(T, qs, lost, cur, 255)
    ensures qs[0] in T && qs[0] != []
  {
    assert qs[0] in Barred(qs, lost);
  }

  lemma BfsEnd(M: Store, T: Trie, D: Dictionary, wild: Ptr, qs: seq<Label>, lost: set<Label>, w: Label, lo: int)
    requires PrefixClosed(T.Keys) && Bfs(T, D, wild, M, qs, lost, w, lo) && Absent(T, w, lo, 255)
    ensures Bfs(T, D, wild, M, qs, lost, w, 255)
    ensures WorkLeft(T, qs, lost, w, 255) == WorkLeft(T, qs, lost, w, lo)
  {
    hide Frontier, Clear, WorkLeft, Barred, Harmless, Ready, Untouched, Done;
    FrontierEnd(T, qs, lost, w, lo);
    WorkEnd(T, qs, lost, w, lo);
    forall v | v in T
      ensures if Done(Barred(qs, lost), w, 255, v) then Harmless(T, lost) ==> Ready(M, T, D, wild, v) else Untouched(M, T, D, v)
    {
      DoneEnd(T, Barred(qs, lost), w, lo, v);
      assert Ready(M, T, D, wild, v) || Untouched(M, T, D, v) || !Harmless(T, lost);
    }
  }

  /** Only the character and the child and sibling pointers shape the tree. */
  ghost predicate SameShape(M: Store, M': Store) {
    && M.Keys == M'.Keys
    && forall p {:trigger M'[p]} | p in M ::
         M'[p].cval == M[p].cval && M'[p].child == M[p].child && M'[p].sibling == M[p].sibling
  }

  lemma LinkedKept(M: Store, M': Store, T: Trie, P: Paths, wild: Ptr)
    requires Linked(M, T, P, wild) && SameShape(M, M')
    ensures Linked(M', T, P, wild)
  {
    forall p | p in P
      ensures NodeOk(M', T, P, wild, p)
    {
      assert NodeOk(M, T, P, wild, p);
    }
  }

  /** The queue holds the states of the labels qs. */
  ghost predicate Queued(T: Trie, items: seq<Ptr>, qs: seq<Label>) {
    && |items| == |qs|
    && forall i | 0 <= i < |qs| :: qs[i] in T && items[i] == T[qs[i]]
  }

  /** The queue and the machine in the middle of the walk. */
  ghost predicate InWalk(tree: Tree, queue: Queue<Ptr>, qs: seq<Label>, lost: set<Label>, cur: Label, bound: int)
    reads tree, queue, queue.buffer
  {
    && Walking(tree) && Loose(tree.store, tree.paths, tree.wild) && queue.Valid()
    && Bfs(tree.trie, tree.dict, tree.wild, tree.store, qs, lost, cur, bound)
    && Queued(tree.trie, queue.Contents(), qs)
    && Exact(tree.trie, qs, lost, cur, bound, queue.Capacity())
  }

  /** tkcompile does not look whether a label finds room in the queue. */
  method Enqueue(tree: Tree, queue: Queue<Ptr>, p: Ptr, ghost qs: seq<Label>, ghost lost: set<Label>, ghost u: Label)
    returns (ghost qs': seq<Label>, ghost lost': set<Label>)
    requires queue.Valid() && Queued(tree.trie, queue.Contents(), qs) && u in tree.trie && p == tree.trie[u]
    modifies queue, queue.buffer
    ensures queue.Valid() && Queued(tree.trie, queue.Contents(), qs')
    ensures |qs| < queue.Capacity() ==> qs' == qs + [u] && lost' == lost
    ensures |qs| >= queue.Capacity() ==> qs' == qs && lost' == lost + {u}
  {
    hide Queued;
    queue.Bounds();
    QueuedMore(tree.trie, queue.Contents(), qs, u);
    QueuedLength(tree.trie, queue.Contents(), qs);
    var s := queue.QAdd(p);
    qs', lost' := if s == Success then qs + [u] else qs, if s == Success then lost else lost + {u};
  }

  lemma QueuedLength(T: Trie, items: seq<Ptr>, qs: seq<Label>)
    requires Queued(T, items, qs)
    ensures |items| == |qs|
  {
  }

  lemma QueuedMore(T: Trie, items: seq<Ptr>, qs: seq<Label>, u: Label)
    requires Queued(T, items, qs) && u in T
    ensures Queued(T, items + [T[u]], qs + [u])
  {
  }

  lemma ChildUntouched(M: Store, T: Trie, D: Dictionary, wild: Ptr, qs: seq<Label>, lost: set<Label>, w: Label, lo: int, c: Letter)
    requires Bfs(T, D, wild, M, qs, lost, w, lo) && lo <= c && Ext(w, c) in T
    ensures Untouched(M, T, D, Ext(w, c)) && (Harmless(T, lost) ==> ReadyTo(M, T, D, wild, |w|))
  {
    hide Frontier, Clear, Harmless, Ready, Barred, Done;
    ChildIsNew(T, qs, lost, w, lo, c);
    if Harmless(T, lost) {
      ProgressReady(M, T, D, wild, qs, lost, w, lo);
    }
  }

  /** Only the state at p differs, and not in its place in the tree. */
  ghost predicate Touched(M: Store, M': Store, p: Ptr) {
    && p in M && SameShape(M, M') && M'[p].sval == M[p].sval
    && forall q {:trigger M'[q]} | q in M && q != p :: M'[q] == M[q]
  }

  lemma TouchedNot(M: Store, p: Ptr)
    requires p in M
    ensures Touched(M, M, p)
  {
  }

  /** One more assignment to a field that does not shape the tree. */
  lemma TouchedAgain(M: Store, M': Store, p: Ptr, t: TkState)
    requires Touched(M, M', p) && p in M'
    requires t.cval == M'[p].cval && t.child == M'[p].child && t.sibling == M'[p].sibling && t.sval == M'[p].sval
    ensures Touched(M, M'[p := t], p)
  {
  }

  /** While a child is worked on, the machine and the shallower states stay as they were. */
  lemma TouchedSound(M: Store, M': Store, T: Trie, P: Paths, D: Dictionary, wild: Ptr, u: Label)
    requires Sound(T, P, D, wild, M) && u in T && Touched(M, M', T[u])
    ensures Sound(T, P, D, wild, M')
  {
    hide Covers, NodeOk;
    LinkedKept(M, M', T, P, wild);
  }

  lemma TouchedReady(M: Store, M': Store, T: Trie, P: Paths, D: Dictionary, wild: Ptr, u: Label, n: nat)
    requires Sound(T, P, D, wild, M) && ReadyTo(M, T, D, wild, n)
    requires u in T && |u| > n && Touched(M, M', T[u])
    ensures ReadyTo(M', T, D, wild, n)
  {
    hide Final, Linked;
    forall v | v in T && 1 <= |v| <= n
      ensures Ready(M', T, D, wild, v)
    {
      assert Ready(M, T, D, wild, v);
    }
  }

  lemma ChildChar(M: Store, T: Trie, P: Paths, D: Dictionary, wild: Ptr, u: Label)
    requires Sound(T, P, D, wild, M) && u in T && u != []
    ensures T[u] in M && M[T[u]].cval == Last(u)
  {
    assert NodeOk(M, T, P, wild, T[u]);
  }

  lemma DepthOf(M: Store, T: Trie, D: Dictionary, wild: Ptr, w: Label)
    requires [] in T && D.Keys <= T.Keys && Ready(M, T, D, wild, w)
    ensures M[T[w]].sdepth == Short(|w|) && Short(M[T[w]].sdepth + 1) == Short(|w| + 1)
  {
    ShortOfShort(|w|, 1);
  }

  /** The failure state of u has output exactly if a keyword ends at its label. */
  lemma FailState(M: Store, T: Trie, P: Paths, D: Dictionary, wild: Ptr, u: Label, n: nat)
    requires Sound(T, P, D, wild, M) && ReadyTo(M, T, D, wild, n)
    requires u != [] && |u| == n + 1
    requires FailLabel(T.Keys, u) == [] || FailLabel(T.Keys, u) in T
    ensures var f := FailLabel(T.Keys, u);
      StateOf(T, wild, f) in M && (M[StateOf(T, wild, f)].output <==> Token(D, f) != [])
  {
    FailLabelShorter(T.Keys, u);
    var f := FailLabel(T.Keys, u);
    assert f != [] ==> Ready(M, T, D, wild, f);
  }

  /** A keyword ends at u iff u is one or one ends at the failure state. */
  lemma OutputRule(T: Trie, P: Paths, D: Dictionary, wild: Ptr, M: Store, u: Label)
    requires Sound(T, P, D, wild, M) && u != []
    ensures SvalueOf(D, u) != PENDING <==> u in D
    ensures Token(D, u) != [] <==> u in D || Token(D, FailLabel(T.Keys, u)) != []
  {
    if u !in D {
      TokenOfFail(T, D, u);
    } else {
      TokenOfKey(D, u);
    }
  }

  /** A child with all its assignments made. */
  lemma ReadyNow(M: Store, T: Trie, D: Dictionary, wild: Ptr, u: Label)
    requires [] in T && D.Keys <= T.Keys && u != [] && u in T && T[u] in M
    requires FailLabel(T.Keys, u) == [] || FailLabel(T.Keys, u) in T
    requires Token(D, u) == [] || Token(D, u) in T
    requires var t := M[T[u]];
      && t.sval == SvalueOf(D, u) && t.sdepth == Short(|u|)
      && t.fail == StateOf(T, wild, FailLabel(T.Keys, u))
      && (t.output <==> Token(D, u) != [])
      && t.rstate == if Token(D, u) == [] then NULL else T[Token(D, u)]
    ensures Ready(M, T, D, wild, u)
  {
  }

  /** The depth of a child: the walk may take it from a state below a lost one. */
  lemma UntouchedState(M: Store, T: Trie, P: Paths, D: Dictionary, wild: Ptr, u: Label)
    requires Sound(T, P, D, wild, M) && Untouched(M, T, D, u) && u != []
    ensures T[u] in M && T[u] in P && T[u] != wild && P[T[u]] == u && NULL !in P && M.Keys == P.Keys
    ensures M[T[u]].sval == SvalueOf(D, u) && (M[T[u]].output <==> u in D) && M[T[u]].fail == NULL && M[T[u]].rstate == NULL
    ensures u in D ==> M[T[u]].sval != PENDING
    ensures !M[wild].output && wild in P && P[wild] == []
  {
    hide NodeOk;
  }

  lemma WalkDomains(T: Trie, P: Paths, D: Dictionary, wild: Ptr, M: Store)
    requires Sound(T, P, D, wild, M)
    ensures [] in T && D.Keys <= T.Keys
  {
  }

  /** A child whose depth and failure state are set. */
  ghost predicate FailSet(M: Store, M': Store, T: Trie, P: Paths, u: Label, depth: int, tfail: Ptr)
    requires u in T
  {
    && T[u] in M && tfail in P && |P[tfail]| < |u|
    && M' == M[T[u] := M[T[u]].(sdepth := depth, fail := tfail)]
  }

  /** The assignments to the child: depth, failure state, output flag, receiving state. */
  method SetFailure(tree: Tree, trans: Ptr, ntrans: Ptr, ghost w: Label, ghost u: Label) returns (crash: bool)
    requires Walking(tree) && Loose(tree.store, tree.paths, tree.wild)
    requires w != [] && u != [] && Parent(u) == w && u in tree.trie && w in tree.trie
    requires Untouched(tree.store, tree.trie, tree.dict, u)
    requires trans == tree.trie[w] && trans in tree.store && ntrans == tree.trie[u]
    modifies tree`store
    ensures Walking(tree) && Touched(old(tree.store), tree.store, ntrans)
    ensures !crash ==> Loose(tree.store, tree.paths, tree.wild)
    ensures old(ShallowReady(tree, |w|)) ==>
              !crash && IsReady(tree, u)
  {
    hide Sound, ReadyTo, Ready, FailLabel, Token, Short, LongestSuffix, Touched, Untouched, FailFound, Loose, SvalueOf;
    ghost var M, T, P, D, wild := tree.store, tree.trie, tree.paths, tree.dict, tree.wild;
    WalkDomains(T, P, D, wild, M);
    ghost var exact := ReadyTo(M, T, D, wild, |w|);
    UntouchedState(M, T, P, D, wild, u);
    ChildChar(M, T, P, D, wild, u);
    ExtOfParent(u);
    TouchedNot(M, ntrans);
    var depth := Short(tree.store[trans].sdepth + 1);
    tree.store := tree.store[ntrans := tree.store[ntrans].(sdepth := depth)];
    ghost var M1 := tree.store;
    TouchedAgain(M, M, ntrans, tree.store[ntrans]);
    TouchedSound(M, M1, T, P, D, wild, u);
    LooseStep(M, P, wild, ntrans, tree.store[ntrans]);
    if exact {
      ReadyChild(M, M1, T, P, D, wild, w, u, depth);
    }
    var tfail;
    tfail, crash := FailureOf(tree, trans, tree.store[ntrans].cval, w);
    if crash {
      return;
    }
    tree.store := tree.store[ntrans := tree.store[ntrans].(fail := tfail)];
    TouchedAgain(M, M1, ntrans, tree.store[ntrans]);
    LooseStep(M1, P, wild, ntrans, tree.store[ntrans]);
    TouchedSound(M, tree.store, T, P, D, wild, u);
    if exact {
      TouchedReady(M, tree.store, T, P, D, wild, u, |w|);
    }
    assert tree.store == M[ntrans := M[ntrans].(sdepth := depth, fail := tfail)];
    SetOutput(tree, tfail, ntrans, M, u, depth);
  }

  lemma ReadyChild(M: Store, M1: Store, T: Trie, P: Paths, D: Dictionary, wild: Ptr, w: Label, u: Label, depth: int)
    requires Sound(T, P, D, wild, M) && ReadyTo(M, T, D, wild, |w|) && w != [] && w in T && u in T && |u| == |w| + 1
    requires T[w] in M && depth == Short(M[T[w]].sdepth + 1) && Touched(M, M1, T[u])
    ensures depth == Short(|u|) && ReadyTo(M1, T, D, wild, |w|)
  {
    hide Linked, Final, FailLabel, Token, Short, Touched;
    TouchedReady(M, M1, T, P, D, wild, u, |w|);
    assert Ready(M, T, D, wild, w);
    DepthOf(M, T, D, wild, w);
  }

  /** The output flag and the receiving state. */
  method SetOutput(tree: Tree, tfail: Ptr, ntrans: Ptr, ghost M: Store, ghost u: Label, ghost depth: int)
    requires Walking(tree) && Loose(tree.store, tree.paths, tree.wild) && u != [] && u in tree.trie && ntrans == tree.trie[u]
    requires Untouched(M, tree.trie, tree.dict, u) && FailSet(M, tree.store, tree.trie, tree.paths, u, depth, tfail)
    requires Touched(M, tree.store, ntrans)
    modifies tree`store
    ensures Walking(tree) && Touched(M, tree.store, ntrans) && Loose(tree.store, tree.paths, tree.wild)
    ensures old(ShallowReady(tree, |u| - 1)) && depth == Short(|u|)
            && FailFound(tree.trie, tree.wild, u, tfail) ==>
              IsReady(tree, u)
  {
    hide Sound, ReadyTo, Ready, FailLabel, Token, Short, LongestSuffix, SvalueOf, Touched, Untouched, FailFound, Loose;
    ghost var M1, T, P, D, wild := tree.store, tree.trie, tree.paths, tree.dict, tree.wild;
    WalkDomains(T, P, D, wild, M1);
    ghost var exact := ReadyTo(M1, T, D, wild, |u| - 1) && depth == Short(|u|) && FailFound(T, wild, u, tfail);
    FailSetState(M, M1, T, P, D, wild, u, depth, tfail);
    if exact {
      OutputExpected(M1, T, P, D, wild, u, tfail);
    }
    if tree.store[tfail].output || tree.store[ntrans].sval != PENDING {
      var pfail := ReceiverOf(tree, ntrans, u);
      tree.store := tree.store[ntrans := tree.store[ntrans].(output := true, rstate := pfail)];
      TouchedAgain(M, M1, ntrans, tree.store[ntrans]);
      TouchedSound(M1, tree.store, T, P, D, wild, u) by {
        TouchedNot(M1, ntrans);
        TouchedAgain(M1, M1, ntrans, tree.store[ntrans]);
      }
      LooseStep(M1, P, wild, ntrans, tree.store[ntrans]);
    }
    if exact {
      ReadyAtLast(tree.store, T, P, D, wild, u, tfail);
    }
  }

  lemma FailSetState(M: Store, M1: Store, T: Trie, P: Paths, D: Dictionary, wild: Ptr, u: Label, depth: int, tfail: Ptr)
    requires Sound(T, P, D, wild, M1) && u != [] && u in T && Untouched(M, T, D, u) && FailSet(M, M1, T, P, u, depth, tfail)
    ensures T[u] in M1 && T[u] in P && T[u] != wild && P[T[u]] == u && NULL !in P && M1.Keys == P.Keys
    ensures var t := M1[T[u]];
      && t.sval == SvalueOf(D, u) && (t.output <==> u in D) && t.fail == tfail && t.sdepth == depth && t.rstate == NULL
      && (u in D <==> t.sval != PENDING) && tfail != NULL && tfail in P && |P[tfail]| < |u|
  {
    hide NodeOk;
  }

  /** The flag the failure state shows is the right one. */
  lemma OutputExpected(M: Store, T: Trie, P: Paths, D: Dictionary, wild: Ptr, u: Label, tfail: Ptr)
    requires Sound(T, P, D, wild, M) && u != [] && ReadyTo(M, T, D, wild, |u| - 1) && FailFound(T, wild, u, tfail)
    ensures tfail in M && (u in D || M[tfail].output <==> Token(D, u) != [])
    ensures SvalueOf(D, u) != PENDING <==> u in D
  {
    hide Linked, Token, FailLabel, LongestSuffix, Final;
    FailState(M, T, P, D, wild, u, |u| - 1);
    OutputRule(T, P, D, wild, M, u);
  }

  lemma ReadyAtLast(M: Store, T: Trie, P: Paths, D: Dictionary, wild: Ptr, u: Label, tfail: Ptr)
    requires [] in T && D.Keys <= T.Keys && u != [] && u in T && T[u] in M && FailFound(T, wild, u, tfail)
    requires M[T[u]].sval == SvalueOf(D, u) && M[T[u]].sdepth == Short(|u|) && M[T[u]].fail == tfail
    requires M[T[u]].output <==> Token(D, u) != []
    requires if Token(D, u) == [] then M[T[u]].rstate == NULL else Token(D, u) in T && M[T[u]].rstate == T[Token(D, u)]
    ensures Ready(M, T, D, wild, u)
  {
    hide Token, FailLabel, Short, SvalueOf;
    ReadyNow(M, T, D, wild, u);
  }

  /** A call of tkgoto on NULL while the state of u gets its failure state: no label above u was
      lost, but one was whose states are missing. */
  ghost predicate CrashAt(T: Trie, lost: set<Label>, u: Label) {
    u in T && |u| >= 2 && forall k {:trigger u[..k]} | 1 <= k < |u| :: u[..k] !in lost
  }

  ghost predicate Crashed(T: Trie, lost: set<Label>) {
    !Harmless(T, lost) && exists u :: CrashAt(T, lost, u)
  }

  lemma CrashHere(T: Trie, qs: seq<Label>, lost: set<Label>, w: Label, c: Letter, qs': seq<Label>, lost': set<Label>)
    requires Clear(Barred(qs, lost), w) && w != [] && Ext(w, c) in T && Barring(qs, lost, Ext(w, c), qs', lost')
    requires !Harmless(T, lost)
    ensures Crashed(T, lost')
  {
    var u := Ext(w, c);
    if Harmless(T, lost') {
      HarmlessLess(T, lost, lost');
    }
    forall k | 1 <= k < |u|
      ensures u[..k] !in lost'
    {
      assert |u[..k]| < |u|;
      assert u[..k] == w[..k];
      assert w[..|w|] == w;
    }
    assert CrashAt(T, lost', u);
  }

  lemma CrashNeedsRoom(T: Trie, qs: seq<Label>, lost: set<Label>, cur: Label, bound: int, n: nat)
    requires Crashed(T, lost) && Exact(T, qs, lost, cur, bound, n)
    ensures !NeverFull(T, n)
  {
  }

  /** One round of the inner loop of tkcompile: the child ntrans of trans. */
  method Visit(tree: Tree, queue: Queue<Ptr>, trans: Ptr, ntrans: Ptr,
               ghost qs: seq<Label>, ghost lost: set<Label>, ghost w: Label, ghost lo: int, ghost c: Letter)
    returns (ghost qs': seq<Label>, ghost lost': set<Label>, crash: bool)
    requires InWalk(tree, queue, qs, lost, w, lo) && lo <= c && Absent(tree.trie, w, lo, c) && lo < 255
    requires w != [] && w in tree.trie && trans == tree.trie[w] && trans in tree.store
    requires Ext(w, c) in tree.trie && ntrans == tree.trie[Ext(w, c)]
    modifies tree`store, queue, queue.buffer
    ensures lost <= lost'
    ensures !crash ==> InWalk(tree, queue, qs', lost', w, c as int + 1)
    ensures !crash ==> WorkLeft(tree.trie, qs', lost', w, c as int + 1) <= WorkLeft(tree.trie, qs, lost, w, lo)
    ensures !crash ==> SameShape(old(tree.store), tree.store)
    ensures crash ==> Crashed(tree.trie, lost') && !NeverFull(tree.trie, queue.Capacity())
  {
    hide Sound, Frontier, Progress, Ready, Untouched, ReadyTo, Absent, WorkLeft, Loose, Queued, Harmless, Clear, Barred, Crashed, Exact, NeverFull;
    ghost var M, u := tree.store, Ext(w, c);
    SoundNames(tree);
    qs', lost' := Enqueue(tree, queue, ntrans, qs, lost, u);
    assert Barring(qs, lost, u, qs', lost');
    ExactStep(tree.trie, qs, lost, w, lo, c, queue.Capacity(), qs', lost');
    ChildUntouched(tree.store, tree.trie, tree.dict, tree.wild, qs, lost, w, lo, c);
    crash := SetFailure(tree, trans, ntrans, w, u);
    if crash {
      CrashHere(tree.trie, qs, lost, w, c, qs', lost');
      CrashNeedsRoom(tree.trie, qs', lost', w, c as int + 1, queue.Capacity());
      return;
    }
    BfsStep(M, tree.store, tree.trie, tree.paths, tree.dict, tree.wild, qs, lost, w, lo, c, qs', lost');
  }

  lemma SoundNames(tree: Tree)
    requires Walking(tree)
    ensures Named(tree.trie, tree.paths, tree.wild)
  {
  }

  /** What a step along a child list finds. */
  lemma NextChild(tree: Tree, w: Label, lo: nat, p: Ptr)
    requires Walking(tree) && w in tree.trie && 1 <= lo && p == FirstChild(tree.trie, w, lo)
    ensures p == NULL ==> Absent(tree.trie, w, lo, 255)
    ensures p != NULL ==>
              && p in tree.store && p in tree.paths && tree.paths[p] != []
              && var c := Last(tree.paths[p]);
                && tree.paths[p] == Ext(w, c) && Ext(w, c) in tree.trie && tree.trie[Ext(w, c)] == p
                && lo <= c && Absent(tree.trie, w, lo, c)
                && tree.store[p].cval == c && tree.store[p].sibling == FirstChild(tree.trie, w, c as int + 1)
  {
    ListNext(tree.store, tree.trie, tree.paths, tree.wild, w, lo, p);
  }

  /** The inner loop of tkcompile: all children of the state just dequeued. */
  method VisitChildren(tree: Tree, queue: Queue<Ptr>, trans: Ptr, ghost qs: seq<Label>, ghost lost: set<Label>, ghost w: Label)
    returns (ghost qs': seq<Label>, ghost lost': set<Label>, crash: bool)
    requires InWalk(tree, queue, qs, lost, w, 1)
    requires w != [] && w in tree.trie && trans == tree.trie[w] && trans in tree.store
    requires tree.store[trans].child == FirstChild(tree.trie, w, 1)
    modifies tree`store, queue, queue.buffer
    ensures lost <= lost'
    ensures !crash ==> InWalk(tree, queue, qs', lost', w, 255)
    ensures !crash ==> WorkLeft(tree.trie, qs', lost', w, 255) <= WorkLeft(tree.trie, qs, lost, w, 1)
    ensures crash ==> Crashed(tree.trie, lost') && !NeverFull(tree.trie, queue.Capacity())
  {
    hide Walking, InWalk, WorkLeft, FirstChild, Absent, SameShape, Crashed, NeverFull;
    qs', lost', crash := qs, lost, false;
    ghost var lo: nat := 1;
    WalkFacts(tree, queue, qs, lost, w, 1);
    var ntrans := tree.store[trans].child;
    NextChild(tree, w, lo, ntrans);
    while ntrans != NULL
      invariant 1 <= lo <= 255 && InWalk(tree, queue, qs', lost', w, lo) && lost <= lost' && trans in tree.store
      invariant WorkLeft(tree.trie, qs', lost', w, lo) <= WorkLeft(tree.trie, qs, lost, w, 1)
      invariant ntrans == FirstChild(tree.trie, w, lo)
      decreases 255 - lo
    {
      WalkFacts(tree, queue, qs', lost', w, lo);
      NextChild(tree, w, lo, ntrans);
      ghost var c := Last(tree.paths[ntrans]);
      if tree.store[ntrans].cval != WCARD {
        qs', lost', crash := Visit(tree, queue, trans, ntrans, qs', lost', w, lo, c);
        if crash {
          return;
        }
        lo := c as int + 1;
        WalkFacts(tree, queue, qs', lost', w, lo);
        SiblingOf(tree, w, c);
        StillThere(tree, w);
      }
      ntrans := tree.store[ntrans].sibling;
    }
    WalkFacts(tree, queue, qs', lost', w, lo);
    NextChild(tree, w, lo, ntrans);
    EndOfChildren(tree, queue, qs', lost', w, lo);
  }

  lemma StillThere(tree: Tree, w: Label)
    requires Walking(tree) && w in tree.trie
    ensures tree.trie[w] in tree.store
  {
  }

  lemma WalkFacts(tree: Tree, queue: Queue<Ptr>, qs: seq<Label>, lost: set<Label>, w: Label, lo: int)
    requires InWalk(tree, queue, qs, lost, w, lo)
    ensures Walking(tree) && w in tree.trie
  {
  }

  lemma SiblingOf(tree: Tree, w: Label, c: Letter)
    requires Walking(tree) && Ext(w, c) in tree.trie
    ensures tree.trie[Ext(w, c)] in tree.store
    ensures tree.store[tree.trie[Ext(w, c)]].sibling == FirstChild(tree.trie, w, c as int + 1)
  {
    assert NodeOk(tree.store, tree.trie, tree.paths, tree.wild, tree.trie[Ext(w, c)]);
  }

  lemma EndOfChildren(tree: Tree, queue: Queue<Ptr>, qs: seq<Label>, lost: set<Label>, w: Label, lo: int)
    requires InWalk(tree, queue, qs, lost, w, lo) && Absent(tree.trie, w, lo, 255)
    ensures InWalk(tree, queue, qs, lost, w, 255)
    ensures WorkLeft(tree.trie, qs, lost, w, 255) == WorkLeft(tree.trie, qs, lost, w, lo)
  {
    hide Linked, Covers, Backstop, Loose, Bfs, Absent, WorkLeft, Queued, Exact;
    ExactEnd(tree.trie, qs, lost, w, lo, queue.Capacity());
    BfsEnd(tree.store, tree.trie, tree.dict, tree.wild, qs, lost, w, lo);
  }

  // ----- the initial state and the first level

  lemma WildNamed(T: Trie, P: Paths, p: Ptr)
    requires Named(T, P, NULL) && p !in P && p != NULL
    ensures Named(T, P[p := []], p)
  {
  }

  lemma WildLinked(M: Store, M': Store, T: Trie, P: Paths, p: Ptr)
    requires Named(T, P, NULL) && Linked(M, T, P, NULL) && p !in P && p != NULL && T[[]] in M
    requires M' == M[p := TkState(WCARD, false, PENDING, p, FirstChild(T, [], 1), p, NULL, 0)]
                    [T[[]] := M[T[[]]].(child := p)]
    ensures Linked(M', T, P[p := []], p) && Backstop(M', p)
  {
    hide FirstChild;
    var P' := P[p := []];
    forall q | q in P'
      ensures NodeOk(M', T, P', p, q)
    {
      if q != p {
        assert NodeOk(M, T, P, NULL, q);
      }
    }
  }

  lemma WildBfs(M: Store, M': Store, T: Trie, P: Paths, D: Dictionary, p: Ptr)
    requires Named(T, P, NULL) && Plain(M, P, D) && D.Keys <= T.Keys && p !in P && p != NULL
    requires M' == M[p := TkState(WCARD, false, PENDING, p, FirstChild(T, [], 1), p, NULL, 0)]
                    [T[[]] := M[T[[]]].(child := p)]
    ensures Bfs(T, D, p, M', [], {}, [], 1)
  {
    hide FirstChild, Final, Frontier, Clear, Harmless, Barred;
    NothingBarred(T);
    forall v | v in T
      ensures if Done({}, [], 1, v) then Harmless(T, {}) ==> Ready(M', T, D, p, v) else Untouched(M', T, D, v)
    {
      assert v != [] ==> [] < v;
      assert PlainState(D, v, M[T[v]]);
    }
  }

  lemma NothingBarred(T: Trie)
    ensures Barred([], {}) == {} && Frontier(T, [], {}, [], 1) && Clear({}, [])
  {
  }

  lemma WildLoose(M: Store, M': Store, T: Trie, P: Paths, D: Dictionary, p: Ptr)
    requires Named(T, P, NULL) && Plain(M, P, D) && p !in P && p != NULL && forall w | w in D :: 0 < D[w]
    requires M' == M[p := TkState(WCARD, false, PENDING, p, FirstChild(T, [], 1), p, NULL, 0)]
                    [T[[]] := M[T[[]]].(child := p)]
    ensures Loose(M', P[p := []], p)
  {
    hide FirstChild;
    var P' := P[p := []];
    assert M'.Keys == P'.Keys;
    forall q | q in P'
      ensures LooseState(M', P', p, q)
    {
      if q != p {
        assert PlainState(D, P[q], M[q]);
      }
    }
  }

  lemma BackstopAdded(M: Store, M': Store, T: Trie, P: Paths, D: Dictionary, p: Ptr)
    requires Named(T, P, NULL) && Linked(M, T, P, NULL) && Covers(T, D) && Plain(M, P, D) && p !in P && p != NULL && T[[]] in M
    requires M' == M[p := TkState(WCARD, false, PENDING, p, FirstChild(T, [], 1), p, NULL, 0)]
                    [T[[]] := M[T[[]]].(child := p)]
    ensures Sound(T, P[p := []], D, p, M') && Bfs(T, D, p, M', [], {}, [], 1) && Loose(M', P[p := []], p)
  {
    hide FirstChild, Linked, Backstop, Plain, Bfs, Loose;
    WildNamed(T, P, p);
    WildLinked(M, M', T, P, p);
    WildBfs(M, M', T, P, D, p);
    WildLoose(M, M', T, P, D, p);
  }

  /** The default transition of the initial state. */
  method AddBackstop(tree: Tree) returns (trans: Ptr, ntrans: Ptr)
    requires tree.Building()
    modifies tree`store, tree`next, tree`paths, tree`wild
    ensures Walking(tree) && Bfs(tree.trie, tree.dict, tree.wild, tree.store, [], {}, [], 1)
    ensures Loose(tree.store, tree.paths, tree.wild)
    ensures trans == FirstChild(tree.trie, [], 1) && ntrans == tree.wild && tree.link == tree.trie[[]]
    ensures tree.link in tree.store && tree.store[tree.link].child == tree.wild
  {
    hide Tree.Building, Named, FirstChild, Linked, Covers, Plain, Bfs, Loose, Sound;
    ghost var M, T, P, D := tree.store, tree.trie, tree.paths, tree.dict;
    RootChild(tree);
    trans := tree.store[tree.link].child;
    ntrans := tree.TkNode(WCARD, PENDING);
    tree.store := tree.store[ntrans := tree.store[ntrans].(sdepth := 0, fail := ntrans, child := ntrans, sibling := trans)];
    tree.store := tree.store[tree.link := tree.store[tree.link].(child := ntrans)];
    BackstopAdded(M, tree.store, T, P, D, ntrans);
    tree.paths, tree.wild := P[ntrans := []], ntrans;
  }

  lemma RootChild(tree: Tree)
    requires tree.Building()
    ensures Named(tree.trie, tree.paths, NULL) && Linked(tree.store, tree.trie, tree.paths, NULL)
    ensures Covers(tree.trie, tree.dict) && Plain(tree.store, tree.paths, tree.dict)
    ensures tree.link in tree.store && tree.link == tree.trie[[]] && tree.store[tree.link].child == FirstChild(tree.trie, [], 1)
    ensures tree.dict.Keys <= tree.trie.Keys && tree.next !in tree.paths && tree.next != NULL
  {
    assert NodeOk(tree.store, tree.trie, tree.paths, NULL, tree.link);
  }

  lemma FirstLevelLabels(K: set<Label>, D: Dictionary, c: Letter)
    requires [] !in D
    ensures FailLabel(K, Ext([], c)) == []
    ensures Token(D, Ext([], c)) == if Ext([], c) in D then Ext([], c) else []
  {
    assert Ext([], c)[1..] == [];
    assert LongestSuffix(D.Keys, []) == [];
  }

  /** One round of the loop over the states of depth 1. */
  method VisitFirst(tree: Tree, queue: Queue<Ptr>, trans: Ptr, ntrans: Ptr, ghost qs: seq<Label>, ghost lost: set<Label>,
                    ghost lo: int, ghost c: Letter)
    returns (ghost qs': seq<Label>, ghost lost': set<Label>)
    requires InWalk(tree, queue, qs, lost, [], lo) && lo <= c && Absent(tree.trie, [], lo, c) && lo < 255
    requires Ext([], c) in tree.trie && trans == tree.trie[Ext([], c)] && ntrans == tree.wild
    modifies tree`store, queue, queue.buffer
    ensures InWalk(tree, queue, qs', lost', [], c as int + 1)
    ensures |qs| < queue.Capacity() ==> qs' == qs + [Ext([], c)] && lost' == lost
    ensures |qs| >= queue.Capacity() ==> qs' == qs && lost' == lost + {Ext([], c)}
    ensures SameShape(old(tree.store), tree.store)
  {
    hide Sound, Frontier, Progress, Ready, Untouched, ReadyTo, Absent, WorkLeft, Loose, Queued, Harmless, Clear, Barred, Exact;
    ghost var M, u := tree.store, Ext([], c);
    SoundNames(tree);
    ChildUntouched(tree.store, tree.trie, tree.dict, tree.wild, qs, lost, [], lo, c);
    SetFirst(tree, trans, ntrans, c);
    qs', lost' := Enqueue(tree, queue, trans, qs, lost, u);
    assert Barring(qs, lost, u, qs', lost');
    ExactStep(tree.trie, qs, lost, [], lo, c, queue.Capacity(), qs', lost');
    BfsStep(M, tree.store, tree.trie, tree.paths, tree.dict, tree.wild, qs, lost, [], lo, c, qs', lost');
  }

  method SetFirst(tree: Tree, trans: Ptr, ntrans: Ptr, ghost c: Letter)
    requires Walking(tree) && Loose(tree.store, tree.paths, tree.wild)
    requires ntrans == tree.wild && Ext([], c) in tree.trie && trans == tree.trie[Ext([], c)]
    requires Untouched(tree.store, tree.trie, tree.dict, Ext([], c))
    modifies tree`store
    ensures Walking(tree) && Touched(old(tree.store), tree.store, trans) && Loose(tree.store, tree.paths, tree.wild)
    ensures IsReady(tree, Ext([], c))
  {
    hide Sound, FailLabel, Token, LongestSuffix, Untouched, Loose, Touched, SvalueOf;
    ghost var M, T, P, D, wild, u := tree.store, tree.trie, tree.paths, tree.dict, tree.wild, Ext([], c);
    WalkDomains(T, P, D, wild, M);
    UntouchedState(M, T, P, D, wild, u);
    KeySvalue(T, P, D, wild, M, u);
    FirstLevelLabels(T.Keys, D, c);
    tree.store := tree.store[trans := tree.store[trans].(fail := ntrans, sdepth := 1)];
    if tree.store[trans].sval > 0 {
      tree.store := tree.store[trans := tree.store[trans].(rstate := trans)];
    }
    TouchedNot(M, trans);
    TouchedAgain(M, M, trans, tree.store[trans]);
    assert tree.store == M[trans := tree.store[trans]];
    TouchedSound(M, tree.store, T, P, D, wild, u);
    LooseStep(M, P, wild, trans, tree.store[trans]);
    ReadyNow(tree.store, T, D, wild, u);
  }

  lemma KeySvalue(T: Trie, P: Paths, D: Dictionary, wild: Ptr, M: Store, u: Label)
    requires Sound(T, P, D, wild, M)
    ensures [] !in D && (SvalueOf(D, u) > 0 <==> u in D)
  {
    hide Linked, Named;
  }

  /** The letters before c on which the initial state has a transition. */
  ghost function Smaller(T: Trie, c: int): set<Label> {
    set u | u in T && |u| == 1 && u[0] < c
  }

  lemma SmallerNone(T: Trie)
    ensures Smaller(T, 1) == {}
  {
  }

  lemma SmallerNext(T: Trie, lo: int, c: Letter)
    requires lo <= c && Absent(T, [], lo, c) && Ext([], c) in T
    ensures Smaller(T, c) == Smaller(T, lo) && Smaller(T, c as int + 1) == Smaller(T, c) + {Ext([], c)}
    ensures |Smaller(T, c as int + 1)| == |Smaller(T, c)| + 1
  {
    forall u: Label | |u| == 1
      ensures u == Ext([], u[0])
    {
    }
    assert Smaller(T, c) == Smaller(T, lo);
    assert Smaller(T, c as int + 1) == Smaller(T, c) + {Ext([], c)};
    assert Ext([], c)[0] == c;
  }

  /** The labels of one letter that come when the queue is full are lost. */
  ghost predicate FirstLost(T: Trie, lost: set<Label>, bound: int, capacity: nat) {
    forall c: Letter | c < bound && Ext([], c) in T && |Smaller(T, c)| >= capacity :: Ext([], c) in lost
  }

  lemma FirstLostNext(T: Trie, lost: set<Label>, lo: int, capacity: nat, c: Letter, lost': set<Label>)
    requires FirstLost(T, lost, lo, capacity) && lo <= c && Absent(T, [], lo, c) && lost <= lost'
    requires |Smaller(T, c)| >= capacity ==> Ext([], c) in lost'
    ensures FirstLost(T, lost', c as int + 1, capacity)
  {
  }

  /** The loop over the states of depth 1; there is one because a keyword was entered. */
  method VisitFirstLevel(tree: Tree, queue: Queue<Ptr>, first: Ptr, ntrans: Ptr) returns (ghost qs: seq<Label>, ghost lost: set<Label>)
    requires InWalk(tree, queue, [], {}, [], 1) && ntrans == tree.wild
    requires first == FirstChild(tree.trie, [], 1) && tree.dict != map[]
    modifies tree`store, queue, queue.buffer
    ensures InWalk(tree, queue, qs, lost, [], 255) && FirstLost(tree.trie, lost, 255, queue.Capacity())
  {
    hide Walking, InWalk, FirstChild, Absent, FirstLost, Smaller, SameShape;
    qs, lost := [], {};
    ghost var lo: nat := 1;
    var trans := first;
    WalkFacts(tree, queue, qs, lost, [], 1);
    SomeFirstChild(tree);
    SmallerNone(tree.trie);
    NoneLost(tree.trie, queue.Capacity());
    while true
      invariant 1 <= lo <= 254 && InWalk(tree, queue, qs, lost, [], lo)
      invariant trans == FirstChild(tree.trie, [], lo) && trans != NULL && ntrans == tree.wild
      invariant |qs| == if |Smaller(tree.trie, lo)| < queue.Capacity() then |Smaller(tree.trie, lo)| else queue.Capacity()
      invariant FirstLost(tree.trie, lost, lo, queue.Capacity())
      decreases 255 - lo
    {
      WalkFacts(tree, queue, qs, lost, [], lo);
      NextChild(tree, [], lo, trans);
      ghost var c, was := Last(tree.paths[trans]), lost;
      SmallerNext(tree.trie, lo, c);
      qs, lost := VisitFirst(tree, queue, trans, ntrans, qs, lost, lo, c);
      FirstLostNext(tree.trie, was, lo, queue.Capacity(), c, lost);
      lo := c as int + 1;
      WalkFacts(tree, queue, qs, lost, [], lo);
      SiblingOf(tree, [], c);
      trans := tree.store[trans].sibling;
      if trans == NULL {
        break;
      }
      NextChild(tree, [], lo, trans);
    }
    NextChild(tree, [], lo, trans);
    FirstLostAll(tree.trie, lost, lo, queue.Capacity());
    EndOfChildren(tree, queue, qs, lost, [], lo);
  }

  lemma NoneLost(T: Trie, capacity: nat)
    ensures FirstLost(T, {}, 1, capacity)
  {
  }

  lemma FirstLostAll(T: Trie, lost: set<Label>, lo: int, capacity: nat)
    requires FirstLost(T, lost, lo, capacity) && Absent(T, [], lo, 255)
    ensures FirstLost(T, lost, 255, capacity)
  {
  }

  lemma SomeFirstChild(tree: Tree)
    requires Walking(tree) && tree.dict != map[]
    ensures FirstChild(tree.trie, [], 1) != NULL
  {
    var k :| k in tree.dict;
    assert k[..1] == Ext([], k[0]);
    PrefixInClosed(tree.trie.Keys, k, 1);
    FirstChildIs(tree.trie, tree.paths, tree.wild, [], 1);
  }

  // ----- tkcompile

  ghost predicate AllReady(M: Store, T: Trie, D: Dictionary, wild: Ptr)
    requires [] in T && D.Keys <= T.Keys
  {
    forall v {:trigger Ready(M, T, D, wild, v)} | v in T && v != [] :: Ready(M, T, D, wild, v)
  }

  /** What lies below a lost label has kept the state it was entered with. */
  ghost predicate LostUntouched(M: Store, T: Trie, D: Dictionary, lost: set<Label>) {
    forall v, k {:trigger v[..k], Untouched(M, T, D, v)} | v in T && 1 <= k < |v| && v[..k] in lost :: Untouched(M, T, D, v)
  }

  lemma Dequeue(tree: Tree, items: seq<Ptr>, p: Ptr, rest: seq<Ptr>, qs: seq<Label>, lost: set<Label>, cur: Label)
    requires Walking(tree) && Bfs(tree.trie, tree.dict, tree.wild, tree.store, qs, lost, cur, 255)
    requires Queued(tree.trie, items, qs) && items == [p] + rest
    ensures qs != [] && Queued(tree.trie, rest, qs[1..])
    ensures qs[0] != [] && qs[0] in tree.trie && p == tree.trie[qs[0]]
    ensures p in tree.store && tree.store[p].cval != WCARD && tree.store[p].child == FirstChild(tree.trie, qs[0], 1)
    ensures Bfs(tree.trie, tree.dict, tree.wild, tree.store, qs[1..], lost, qs[0], 1)
    ensures WorkLeft(tree.trie, qs[1..], lost, qs[0], 1) < WorkLeft(tree.trie, qs, lost, cur, 255)
  {
    hide FirstChild, Frontier, Progress, WorkLeft, Barred, Clear, Harmless, Covers, Backstop;
    InTrie(tree.trie, qs, lost, cur);
    BfsStart(tree.store, tree.trie, tree.dict, tree.wild, qs, lost, cur);
    assert p == items[0];
    assert NodeOk(tree.store, tree.trie, tree.paths, tree.wild, p);
    forall i | 0 <= i < |rest|
      ensures rest[i] == items[i + 1] && qs[1..][i] == qs[i + 1]
    {
    }
  }

  lemma WalkOver(M: Store, T: Trie, D: Dictionary, wild: Ptr, lost: set<Label>, cur: Label)
    requires Bfs(T, D, wild, M, [], lost, cur, 255)
    ensures Harmless(T, lost) ==> AllReady(M, T, D, wild)
    ensures LostUntouched(M, T, D, lost)
  {
    hide Frontier, Clear, Final, PlainState;
    assert Barred([], lost) == lost;
    if Harmless(T, lost) {
      forall v | v in T && v != []
        ensures Ready(M, T, D, wild, v)
      {
        assert Done(lost, cur, 255, v);
      }
    }
    forall v, k | v in T && 1 <= k < |v| && v[..k] in lost
      ensures Untouched(M, T, D, v)
    {
      assert !Done(lost, cur, 255, v);
    }
  }

  /** The outer loop of tkcompile. */
  method Walk(tree: Tree, queue: Queue<Ptr>, ghost qs0: seq<Label>, ghost lost0: set<Label>)
    returns (ghost lost: set<Label>, crash: bool)
    requires InWalk(tree, queue, qs0, lost0, [], 255)
    modifies tree`store, queue, queue.buffer
    ensures lost0 <= lost && (lost == {} <==> NeverFull(tree.trie, queue.Capacity()))
    ensures crash ==> Crashed(tree.trie, lost)
    ensures !crash ==> Walking(tree) && LostUntouched(tree.store, tree.trie, tree.dict, lost)
    ensures !crash && Harmless(tree.trie, lost) ==> AllReady(tree.store, tree.trie, tree.dict, tree.wild)
  {
    hide Walking, Bfs, Loose, Queued, WorkLeft, FirstChild, AllReady, LostUntouched, Crashed, Harmless, Exact, NeverFull, PrefixClosed;
    ghost var qs, cur: Label := qs0, [];
    lost, crash := lost0, false;
    while true
      invariant InWalk(tree, queue, qs, lost, cur, 255) && lost0 <= lost
      decreases WorkLeft(tree.trie, qs, lost, cur, 255)
    {
      ghost var items := queue.Contents();
      TrieOf(tree, queue, qs, lost, cur);
      var s, trans := queue.QRemove();
      if s != Success {
        break;
      }
      Dequeue(tree, items, trans, queue.Contents(), qs, lost, cur);
      ExactNext(tree.trie, qs, lost, cur, queue.Capacity());
      if tree.store[trans].cval != WCARD {
        cur := qs[0];
        qs, lost, crash := VisitChildren(tree, queue, trans, qs[1..], lost, cur);
        if crash {
          LostSome(tree.trie, lost);
          return;
        }
      }
    }
    EmptyQueue(tree.trie, qs);
    ExactOver(tree.trie, lost, cur, queue.Capacity());
    WalkOver(tree.store, tree.trie, tree.dict, tree.wild, lost, cur);
  }

  lemma TrieOf(tree: Tree, queue: Queue<Ptr>, qs: seq<Label>, lost: set<Label>, cur: Label)
    requires InWalk(tree, queue, qs, lost, cur, 255)
    ensures PrefixClosed(tree.trie.Keys) && cur in tree.trie
  {
  }

  lemma LostSome(T: Trie, lost: set<Label>)
    requires Crashed(T, lost)
    ensures lost != {}
  {
  }

  lemma EmptyQueue(T: Trie, qs: seq<Label>)
    requires Queued(T, [], qs)
    ensures qs == []
  {
  }

  /** A compiled machine: every state but the two initial ones has the failure state of the
      longest proper suffix of its label, the output flag says whether a keyword ends at its
      label, and the receiving state is that of the longest such keyword. */
  ghost predicate Compiled(tree: Tree)
    reads tree
  {
    tree.compiled && Finished(tree.trie, tree.paths, tree.dict, tree.wild, tree.store, tree.link)
  }

  ghost predicate Finished(T: Trie, P: Paths, D: Dictionary, wild: Ptr, M: Store, link: Ptr) {
    Sound(T, P, D, wild, M) && AllReady(M, T, D, wild) && link == T[[]]
  }

  /** What qcreate makes of the count: a queue for that many states, or of a negative count whatever
      room it finds (none if negative). */
  function RoomFor(nkey: int, found: int): int {
    if nkey >= 0 then nkey else found
  }

  /** tkcompile.  It fails exactly if the short count of the keyword entries is 0 (there were none,
      or a multiple of 65536), or qcreate finds no room.  `lost` are the labels that found no room in
      the queue: there are none exactly if never more wait in breadth-first order than it holds, and
      room for as many as there are keywords is enough.  The machine is complete exactly if nothing
      lies below a lost label.  Otherwise the states below one have no failure state, or tkcompile
      has followed one that is missing, which is a crash. */
  method TkCompile(tree: Tree, found: int) returns (s: Status, crash: bool, ghost lost: set<Label>)
    requires !tree.compiled ==> tree.Building()
    modifies tree`store, tree`next, tree`paths, tree`wild, tree`compiled
    ensures s == if old(tree.compiled) then Fatal
                 else if tree.entries % 0x1_0000 == 0 || RoomFor(tree.nkey, found) < 0 then Failure else Success
    ensures s != Success ==> unchanged(tree) && !crash
    ensures s == Success ==> RoomFor(tree.nkey, found) >= 0 && (lost == {} <==> NeverFull(tree.trie, RoomFor(tree.nkey, found)))
    ensures s == Success && |tree.dict| <= RoomFor(tree.nkey, found) ==> lost == {} && !crash && Compiled(tree)
    ensures s == Success ==> FirstLost(tree.trie, lost, 255, RoomFor(tree.nkey, found))
    ensures s == Success && !crash ==> (Compiled(tree) <==> Harmless(tree.trie, lost))
    ensures s == Success && !crash ==> tree.compiled && LostUntouched(tree.store, tree.trie, tree.dict, lost)
    ensures crash ==> Crashed(tree.trie, lost)
  {
    hide Tree.Goto, Short, Sound, AllReady, LostUntouched, Crashed, Harmless, FirstLost, NeverFull;
    lost, crash := {}, false;
    if tree.compiled {
      return Fatal, crash, lost;
    }
    ShortIsZero(tree.entries);
    var room := RoomFor(tree.nkey, found);
    if tree.nkey == 0 || room < 0 {
      return Failure, crash, lost;
    }
    Enough(tree, room);
    crash, lost := ComputeFailures(tree, room);
    s := Success;
    NothingLost(tree.trie);
    if !crash {
      tree.compiled := true;
      CompleteOrNot(tree, lost);
    }
  }

  lemma NothingLost(T: Trie)
    ensures Harmless(T, {}) && !Crashed(T, {})
  {
  }

  lemma ShortIsZero(n: nat)
    ensures Short(n) == 0 <==> n % 0x1_0000 == 0
    ensures n <= 0x7fff ==> Short(n) == n
  {
  }

  /** A state that was never reached is not ready. */
  lemma UntouchedIsNotReady(M: Store, T: Trie, D: Dictionary, wild: Ptr, v: Label)
    requires [] in T && D.Keys <= T.Keys && wild != NULL && NULL !in T.Values && Untouched(M, T, D, v) && v != []
    ensures !Ready(M, T, D, wild, v)
  {
    hide FailLabel, Token;
    FailLabelShorter(T.Keys, v);
    var f := FailLabel(T.Keys, v);
    assert f != [] ==> T[f] in T.Values;
  }

  lemma CompleteOrNot(tree: Tree, lost: set<Label>)
    requires tree.compiled && Walking(tree) && tree.link == tree.trie[[]]
    requires LostUntouched(tree.store, tree.trie, tree.dict, lost)
    requires Harmless(tree.trie, lost) ==> AllReady(tree.store, tree.trie, tree.dict, tree.wild)
    ensures Compiled(tree) <==> Harmless(tree.trie, lost)
  {
    hide Linked, Ready, Untouched;
    if !Harmless(tree.trie, lost) {
      var v, k :| v in tree.trie && 1 <= k < |v| && v[..k] in lost;
      forall q | q in tree.trie.Values
        ensures q != NULL
      {
        var x :| x in tree.trie && tree.trie[x] == q;
      }
      UntouchedIsNotReady(tree.store, tree.trie, tree.dict, tree.wild, v);
    }
  }

  lemma Enough(tree: Tree, room: nat)
    requires tree.Building()
    ensures |tree.dict| <= room ==> NeverFull(tree.trie, room)
  {
    hide NeverFull, Linked, Plain;
    if |tree.dict| <= room {
      KeywordsSuffice(tree.trie, tree.dict, room);
    }
  }

  /** With a queue for `room` states. */
  method ComputeFailures(tree: Tree, room: nat) returns (crash: bool, ghost lost: set<Label>)
    requires tree.Building() && tree.dict != map[]
    modifies tree`store, tree`next, tree`paths, tree`wild
    ensures (lost == {} <==> NeverFull(tree.trie, room)) && FirstLost(tree.trie, lost, 255, room)
    ensures crash ==> Crashed(tree.trie, lost)
    ensures !crash ==> Walking(tree) && tree.link == tree.trie[[]] && LostUntouched(tree.store, tree.trie, tree.dict, lost)
    ensures !crash && Harmless(tree.trie, lost) ==> AllReady(tree.store, tree.trie, tree.dict, tree.wild)
  {
    hide Tree.Building, Sound, Bfs, Loose, FirstChild, AllReady, LostUntouched, Crashed, Harmless, FirstLost, Queued, Exact, NeverFull;
    var queue := new Queue<Ptr>(room);
    QueuedNone(tree.trie);
    var first, ntrans := AddBackstop(tree);
    ExactStart(tree.trie, room);
    ghost var qs, lost0 := VisitFirstLevel(tree, queue, first, ntrans);
    lost, crash := Walk(tree, queue, qs, lost0);
    FirstLostMore(tree.trie, lost0, lost, room);
  }

  lemma QueuedNone(T: Trie)
    ensures Queued(T, [], [])
  {
  }

  lemma FirstLostMore(T: Trie, lost: set<Label>, lost': set<Label>, capacity: nat)
    requires FirstLost(T, lost, 255, capacity) && lost <= lost'
    ensures FirstLost(T, lost', 255, capacity)
  {
  }
}
