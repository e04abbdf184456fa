/** The goto tree of src/auto/token.c: keyword entry and goto transitions. */
module PatternTrie {
  import opened Labels
  import opened RingQueue

  const NUL := 0
  const WCARD := 255
  const PENDING := -1
  const LOOKAHEAD := 120

  /** Arguments of type short. */
  type CShort = x: int | -0x8000 <= x < 0x8000

  /** A C short. */
  function Short(x: int): (s: int)
    ensures -0x8000 <= s < 0x8000
    ensures -0x8000 <= x < 0x8000 ==> s == x
  {
    (x + 0x8000) % 0x1_0000 - 0x8000
  }

  lemma ShortOfShort(x: int, y: int)
    ensures Short(Short(x) + y) == Short(x + y)
  {
    var q := (x + 0x8000) / 0x1_0000;
    assert Short(x) == x - 0x1_0000 * q;
    assert (x - 0x1_0000 * q + y + 0x8000) % 0x1_0000 == (x + y + 0x8000) % 0x1_0000;
  }

  /** Addresses of states.  NULL is no address. */
  type Ptr = nat

  const NULL: Ptr := 0

  /** struct tkstate.  The output flag is the SF_OUTPUT bit of sflags. */
  datatype TkState = TkState(
    cval: int, output: bool, sval: int,
    child: Ptr, sibling: Ptr, fail: Ptr, rstate: Ptr, sdepth: int)

  /** The states allocated so far, by address. */
  type Store = map<Ptr, TkState>

  /** The state of each label, and the label of each state. */
  type Trie = map<Label, Ptr>
  type Paths = map<Ptr, Label>

  /** One state per label; after tkcompile the WCARD state is a second one for the empty
      label. */
  ghost predicate Named(T: Trie, P: Paths, wild: Ptr) {
    && PrefixClosed(T.Keys)
    && NULL !in P
    && (forall w {:trigger T[w]} | w in T :: T[w] in P && T[w] != wild && P[T[w]] == w)
    && (forall p {:trigger P[p]} | p in P :: P[p] in T && (p == wild || p == T[P[p]]))
    && (wild != NULL ==> wild in P && P[wild] == [])
  }

  /** The child of state w on the least letter from lo on. */
  function FirstChild(T: Trie, w: Label, lo: nat): Ptr
    requires 1 <= lo
    decreases 255 - lo
  {
    if lo > 254 then NULL
    else if Ext(w, lo) in T then T[Ext(w, lo)]
    else FirstChild(T, w, lo + 1)
  }

  /** No letter from lo up to but not including hi extends w. */
  ghost predicate Absent(T: Trie, w: Label, lo: int, hi: int) {
    forall c: Letter | lo <= c < hi :: Ext(w, c) !in T
  }

  lemma {:induction false} FirstChildIs(T: Trie, P: Paths, wild: Ptr, w: Label, lo: nat)
    requires 1 <= lo && Named(T, P, wild)
    ensures var p := FirstChild(T, w, lo);
      if p == NULL then Absent(T, w, lo, 255)
      else p in P && p != wild && P[p] != [] && P[p] in T && Parent(P[p]) == w && lo <= Last(P[p]) && Absent(T, w, lo, Last(P[p]))
    decreases 255 - lo
  {
    if lo <= 254 && Ext(w, lo) !in T {
      FirstChildIs(T, P, wild, w, lo + 1);
    }
  }

  lemma {:induction false} FirstChildSkips(T: Trie, w: Label, lo: nat, hi: nat)
    requires 1 <= lo <= hi && Absent(T, w, lo, hi)
    ensures FirstChild(T, w, lo) == FirstChild(T, w, hi)
    decreases hi - lo
  {
    if lo < hi && lo <= 254 {
      assert Ext(w, lo) !in T;
      FirstChildSkips(T, w, lo + 1, hi);
    } else if lo < hi {
      assert FirstChild(T, w, hi) == NULL;
    }
  }

  /** What the character and the child and sibling pointers of a state must be.  The children
      of a state form a list in strictly increasing order of their letters.  After tkcompile
      the list of the initial state starts with the WCARD state, which shares that list. */
  ghost predicate NodeOk(M: Store, T: Trie, P: Paths, wild: Ptr, p: Ptr)
    requires p in M && p in P
  {
    var w := P[p];
    && M[p].cval == (if p == wild then WCARD else if w == [] then NUL else Last(w))
    && M[p].child == (if w == [] && wild != NULL then wild else FirstChild(T, w, 1))
    && M[p].sibling == (if p == wild then FirstChild(T, [], 1)
                        else if w == [] then NULL
                        else FirstChild(T, Parent(w), Last(w) as int + 1))
  }

  /** The store spells out exactly T. */
  ghost predicate Linked(M: Store, T: Trie, P: Paths, wild: Ptr) {
    && M.Keys == P.Keys
    && forall p {:trigger NodeOk(M, T, P, wild, p)} | p in P :: NodeOk(M, T, P, wild, p)
  }

  /** The keywords lie in the tree, and every state lies on the path of some keyword. */
  ghost predicate Covers(T: Trie, D: Dictionary) {
    && [] !in D && D.Keys <= T.Keys
    && (forall w {:trigger D[w]} | w in D :: 0 < D[w])
    && (forall w {:trigger Extends(D, w)} | w in T && w != [] :: Extends(D, w))
  }

  /** So the tree is determined by the dictionary: its labels are the prefixes of keywords. */
  lemma TrieIsPrefixes(T: Trie, D: Dictionary, w: Label)
    requires PrefixClosed(T.Keys) && Covers(T, D)
    ensures w in T <==> w == [] || Extends(D, w)
  {
    if Extends(D, w) {
      var k :| k in D && w <= k;
      PrefixInClosed(T.Keys, k, |w|);
      assert k[..|w|] == w;
    }
    assert w in T && w != [] ==> Extends(D, w);
  }

  ghost function SvalueOf(D: Dictionary, w: Label): int {
    if w in D then D[w] else PENDING
  }

  ghost predicate PlainState(D: Dictionary, v: Label, t: TkState) {
    t.sval == SvalueOf(D, v) && (t.output <==> v in D) && t.fail == NULL && t.rstate == NULL
  }

  /** Each state carries the svalue entered for its label.  Before tkcompile it has no failure
      state and no receiving state, and the output flag marks exactly the keywords. */
  ghost predicate Plain(M: Store, P: Paths, D: Dictionary) {
    && M.Keys == P.Keys
    && forall p {:trigger M[p]} | p in P :: PlainState(D, P[p], M[p])
  }

  /** p is the last child of w before the letter c, or NULL if there is none. */
  ghost predicate Precedes(T: Trie, P: Paths, w: Label, c: Letter, p: Ptr) {
    if p == NULL then Absent(T, w, 1, c)
    else p in P && P[p] != [] && P[p] in T && T[P[p]] == p && Parent(P[p]) == w && Last(P[p]) < c
         && Absent(T, w, Last(P[p]) as int + 1, c)
  }

  // ----- attaching the rest of a keyword

  /** T' adds to T the labels below w on the path to full, at consecutive addresses. */
  ghost predicate Grafted(T: Trie, T': Trie, w: Label, full: Label, base: Ptr) {
    && PrefixClosed(T.Keys) && w in T && w < full && Ext(w, full[|w|]) !in T
    && (forall v {:trigger v in T'} :: v in T' <==> v in T || (w < v && v <= full))
    && (forall v {:trigger T'[v]} | v in T' ::
          T'[v] == if v in T then T[v] else base + |v| - |w| - 1)
  }

  lemma PrefixExt(w: Label, full: Label, v: Label, c: Letter)
    ensures w < Ext(v, c) && Ext(v, c) <= full <==> w <= v && v < full && c == full[|v|]
  {
    if w < Ext(v, c) && Ext(v, c) <= full {
      assert Ext(v, c)[..|v|] == v;
      assert Ext(v, c)[|v|] == c;
      assert w == Ext(v, c)[..|w|] == v[..|w|];
    }
    if w <= v && v < full && c == full[|v|] {
      assert w == v[..|w|] == Ext(v, c)[..|w|];
      assert Ext(v, c) == full[..|v| + 1];
    }
  }

  /** None of the added labels was there, nor any label above one. */
  lemma GraftNew(T: Trie, T': Trie, w: Label, full: Label, base: Ptr, v: Label)
    requires Grafted(T, T', w, full, base) && w < v && v <= full
    ensures v !in T && v in T' && T'[v] == base + |v| - |w| - 1
  {
    assert v[..|w| + 1] == full[..|w| + 1] == Ext(w, full[|w|]);
    if v in T {
      PrefixInClosed(T.Keys, v, |w| + 1);
    }
  }

  lemma GraftExt(T: Trie, T': Trie, w: Label, full: Label, base: Ptr, v: Label, c: Letter)
    requires Grafted(T, T', w, full, base) && v in T'
    ensures Ext(v, c) in T' <==> Ext(v, c) in T || (w <= v && v < full && c == full[|v|])
    ensures w < v && v <= full ==> Ext(v, c) !in T
    ensures v in T && v != w ==> (Ext(v, c) in T' <==> Ext(v, c) in T)
  {
    PrefixExt(w, full, v, c);
    if w <= v && v <= full && v != w {
      GraftNew(T, T', w, full, base, v);
      assert Parent(Ext(v, c)) == v;
    }
  }

  lemma {:induction false} GraftChildOld(T: Trie, T': Trie, w: Label, full: Label, base: Ptr, v: Label, lo: nat)
    requires Grafted(T, T', w, full, base) && v in T && 1 <= lo
    requires v != w || lo > full[|w|]
    ensures FirstChild(T', v, lo) == FirstChild(T, v, lo)
    decreases 255 - lo
  {
    if lo <= 254 {
      GraftExt(T, T', w, full, base, v, lo);
      GraftChildOld(T, T', w, full, base, v, lo + 1);
    }
  }

  /** In the list of w the new state stands where its letter belongs. */
  lemma {:induction false} GraftChildHere(T: Trie, T': Trie, w: Label, full: Label, base: Ptr, lo: nat)
    requires Grafted(T, T', w, full, base) && 1 <= lo <= full[|w|]
    ensures Absent(T, w, lo, full[|w|]) ==> FirstChild(T', w, lo) == base
    ensures !Absent(T, w, lo, full[|w|]) ==> FirstChild(T', w, lo) == FirstChild(T, w, lo)
    decreases 255 - lo
  {
    GraftExt(T, T', w, full, base, w, lo);
    if lo == full[|w|] {
      assert w < Ext(w, lo) && Ext(w, lo) <= full by {
        PrefixExt(w, full, w, lo);
      }
    } else if Ext(w, lo) !in T {
      GraftChildHere(T, T', w, full, base, lo + 1);
    }
  }

  lemma {:induction false} GraftChildNew(T: Trie, T': Trie, w: Label, full: Label, base: Ptr, v: Label, lo: nat)
    requires Grafted(T, T', w, full, base) && w < v && v <= full && 1 <= lo
    ensures FirstChild(T', v, lo) == if v == full || lo > full[|v|] then NULL else base + |v| - |w|
    decreases 255 - lo
  {
    if lo <= 254 {
      GraftNew(T, T', w, full, base, v);
      GraftExt(T, T', w, full, base, v, lo);
      if v != full && lo == full[|v|] {
        PrefixExt(w, full, v, lo);
      }
      GraftChildNew(T, T', w, full, base, v, lo + 1);
    }
  }

  /** Below w the sibling of every added state but the first is NULL. */
  lemma GraftSiblingNew(T: Trie, T': Trie, w: Label, full: Label, base: Ptr, v: Label)
    requires Grafted(T, T', w, full, base) && w < v && v <= full && |v| > |w| + 1
    ensures FirstChild(T', Parent(v), Last(v) as int + 1) == NULL
  {
    ExtOfParent(v);
    PrefixExt(w, full, Parent(v), Last(v));
    GraftChildNew(T, T', w, full, base, Parent(v), Last(v) as int + 1);
  }

  ghost function GraftTrie(T: Trie, w: Label, full: Label, base: Ptr): Trie
    decreases |full|
  {
    if |full| <= |w| then T
    else GraftTrie(T, w, Parent(full), base)[full := base + |full| - |w| - 1]
  }

  ghost function GraftPaths(P: Paths, w: Label, full: Label, base: Ptr): Paths
    decreases |full|
  {
    if |full| <= |w| then P
    else GraftPaths(P, w, Parent(full), base)[base + |full| - |w| - 1 := full]
  }

  lemma {:induction false} GraftTrieGrafts(T: Trie, w: Label, full: Label, base: Ptr)
    requires PrefixClosed(T.Keys) && w in T && w < full && Ext(w, full[|w|]) !in T
    ensures Grafted(T, GraftTrie(T, w, full, base), w, full, base)
    decreases |full|
  {
    var up := Parent(full);
    var T' := GraftTrie(T, w, up, base);
    assert full[..|w| + 1] == Ext(w, full[|w|]);
    if full in T {
      PrefixInClosed(T.Keys, full, |w| + 1);
    }
    if |up| == |w| {
      assert T' == T && up == w;
    } else {
      assert w == full[..|w|] == up[..|w|];
      GraftTrieGrafts(T, w, up, base);
    }
    forall v
      ensures v in GraftTrie(T, w, full, base) <==> v in T || (w < v && v <= full)
    {
      if v <= up {
        assert v == up[..|v|] == full[..|v|];
      }
      if v <= full && |v| == |full| {
        assert v == full;
      }
    }
  }

  lemma {:induction false} GraftPathsAre(P: Paths, w: Label, full: Label, base: Ptr, p: Ptr)
    requires w <= full && forall q | q in P :: q < base
    ensures p in GraftPaths(P, w, full, base) <==> p in P || base <= p < base + |full| - |w|
    ensures p in P ==> GraftPaths(P, w, full, base)[p] == P[p]
    ensures base <= p < base + |full| - |w| ==>
              GraftPaths(P, w, full, base)[p] == full[..|w| + 1 + p - base]
    decreases |full|
  {
    if |full| > |w| {
      var up := Parent(full);
      assert w == full[..|w|] == up[..|w|];
      GraftPathsAre(P, w, up, base, p);
    }
  }

  /** The state made for the k-th character of cstr. */
  function ChainState(cstr: Label, sv: int, base: Ptr, k: nat, sibling: Ptr): TkState
    requires k < |cstr|
  {
    var end := k + 1 == |cstr|;
    TkState(cstr[k], end, if end then sv else PENDING, if end then NULL else base + k + 1, sibling, NULL, NULL, 0)
  }

  /** A chain under construction: the states of the first n characters, the last of them without
      a child. */
  ghost predicate Chained(M: Store, M': Store, cstr: Label, base: Ptr, n: nat)
    requires n <= |cstr|
  {
    && (forall p :: p in M' <==> p in M || base <= p < base + n)
    && (forall p {:trigger M'[p]} | p in M :: M'[p] == M[p])
    && (forall p {:trigger M'[p]} | base <= p < base + n ::
          M'[p] == TkState(cstr[p - base], false, PENDING, if p == base + n - 1 then NULL else p + 1, NULL, NULL, NULL, 0))
  }

  lemma ChainNothing(M: Store, cstr: Label, base: Ptr)
    ensures Chained(M, M, cstr, base, 0)
  {
  }

  lemma ChainMore(M: Store, M': Store, cstr: Label, base: Ptr, n: nat)
    requires n < |cstr| && 0 < base && (forall p | p in M :: p < base) && Chained(M, M', cstr, base, n)
    ensures var next := M'[base + n := TkState(cstr[n], false, PENDING, NULL, NULL, NULL, NULL, 0)];
      if n == 0 then Chained(M, next, cstr, base, 1)
      else base + n - 1 in next && Chained(M, next[base + n - 1 := next[base + n - 1].(child := base + n)], cstr, base, n + 1)
  {
  }

  /** The svalue on the last state ends the chain. */
  lemma ChainEnd(M: Store, M': Store, cstr: Label, base: Ptr, sv: int)
    requires cstr != [] && (forall p | p in M :: p < base) && Chained(M, M', cstr, base, |cstr|)
    ensures var last := base + |cstr| - 1;
      && last in M'
      && (var end := M'[last := M'[last].(output := true, sval := sv)];
          && (forall p :: p in end <==> p in M || base <= p < base + |cstr|)
          && (forall p {:trigger end[p]} | p in M :: end[p] == M[p])
          && (forall p {:trigger end[p]} | base <= p < base + |cstr| :: end[p] == ChainState(cstr, sv, base, p - base, NULL)))
  {
  }

  /** What tkenter leaves in the store when it attaches the end of a keyword below w, after
      the child pred of w or in front of its children. */
  ghost predicate Spliced(M: Store, M': Store, T: Trie, w: Label, full: Label, base: Ptr, pred: Ptr, sv: int)
    requires w in T && T[w] in M && w < full && (pred != NULL ==> pred in M)
  {
    var n := |full| - |w|;
    && (forall p :: p in M' <==> p in M || base <= p < base + n)
    && (forall p {:trigger M'[p]} | base <= p < base + n ::
          M'[p] == ChainState(full[|w|..], sv, base, p - base,
                     if p > base then NULL else if pred == NULL then M[T[w]].child else M[pred].sibling))
    && (forall p {:trigger M'[p]} | p in M && !(base <= p < base + n) ::
          M'[p] == if pred == NULL && p == T[w] then M[p].(child := base)
                   else if pred != NULL && p == pred then M[p].(sibling := base)
                   else M[p])
  }

  /** The chain that tklist has made, put in front of the children of w or behind pred. */
  lemma ListSpliced(M: Store, L: Store, T: Trie, w: Label, full: Label, base: Ptr, pred: Ptr, sv: int)
    requires w in T && T[w] in M && w < full && (pred != NULL ==> pred in M) && forall p | p in M :: p < base
    requires forall p :: p in L <==> p in M || base <= p < base + |full| - |w|
    requires forall p {:trigger L[p]} | p in M :: L[p] == M[p]
    requires forall p {:trigger L[p]} | base <= p < base + |full| - |w| :: L[p] == ChainState(full[|w|..], sv, base, p - base, NULL)
    ensures base in L
    ensures pred == NULL ==>
              Spliced(M, L[base := L[base].(sibling := L[T[w]].child)][T[w] := L[T[w]].(child := base)], T, w, full, base, pred, sv)
    ensures pred != NULL ==>
              Spliced(M, L[pred := L[pred].(sibling := base)][base := L[base].(sibling := L[pred].sibling)], T, w, full, base, pred, sv)
  {
    assert base in L;
    if pred == NULL {
      var M' := L[base := L[base].(sibling := L[T[w]].child)][T[w] := L[T[w]].(child := base)];
      SplicedFront(M, L, M', T, w, full, base, sv);
    } else {
      var M' := L[pred := L[pred].(sibling := base)][base := L[base].(sibling := L[pred].sibling)];
      SplicedBehind(M, L, M', T, w, full, base, pred, sv);
    }
  }

  lemma SplicedFront(M: Store, L: Store, M': Store, T: Trie, w: Label, full: Label, base: Ptr, sv: int)
    requires w in T && T[w] in M && w < full && forall p | p in M :: p < base
    requires forall p :: p in L <==> p in M || base <= p < base + |full| - |w|
    requires forall p {:trigger L[p]} | p in M :: L[p] == M[p]
    requires forall p {:trigger L[p]} | base <= p < base + |full| - |w| :: L[p] == ChainState(full[|w|..], sv, base, p - base, NULL)
    requires base in L && M' == L[base := L[base].(sibling := L[T[w]].child)][T[w] := L[T[w]].(child := base)]
    ensures Spliced(M, M', T, w, full, base, NULL, sv)
  {
  }

  lemma SplicedBehind(M: Store, L: Store, M': Store, T: Trie, w: Label, full: Label, base: Ptr, pred: Ptr, sv: int)
    requires w in T && T[w] in M && w < full && pred != NULL && pred in M && forall p | p in M :: p < base
    requires forall p :: p in L <==> p in M || base <= p < base + |full| - |w|
    requires forall p {:trigger L[p]} | p in M :: L[p] == M[p]
    requires forall p {:trigger L[p]} | base <= p < base + |full| - |w| :: L[p] == ChainState(full[|w|..], sv, base, p - base, NULL)
    requires base in L && M' == L[pred := L[pred].(sibling := base)][base := L[base].(sibling := L[pred].sibling)]
    ensures Spliced(M, M', T, w, full, base, pred, sv)
  {
  }

  lemma ChainLabel(w: Label, full: Label, k: nat)
    requires w < full && k < |full| - |w|
    ensures var v := full[..|w| + 1 + k];
      && w < v && v <= full && v != [] && Last(v) == full[|w|..][k]
      && (v == full <==> k + 1 == |full| - |w|)
      && (k == 0 ==> v == Ext(w, full[|w|]) && Parent(v) == w && Last(v) == full[|w|])
  {
    var v := full[..|w| + 1 + k];
    assert w == full[..|w|] == v[..|w|];
  }

  lemma GraftNamed(T: Trie, P: Paths, w: Label, full: Label, base: Ptr)
    requires Named(T, P, NULL) && w in T && w < full && Ext(w, full[|w|]) !in T
    requires 0 < base && forall p | p in P :: p < base
    ensures Named(GraftTrie(T, w, full, base), GraftPaths(P, w, full, base), NULL)
  {
    GraftTrieGrafts(T, w, full, base);
    var T', P' := GraftTrie(T, w, full, base), GraftPaths(P, w, full, base);
    forall p: Ptr
      ensures p in P' <==> p in P || base <= p < base + |full| - |w|
      ensures p in P ==> P'[p] == P[p]
      ensures base <= p < base + |full| - |w| ==> P'[p] == full[..|w| + 1 + p - base]
    {
      GraftPathsAre(P, w, full, base, p);
    }
    forall v {:trigger Parent(v)} | v in T' && v != []
      ensures Parent(v) in T'
    {
      if v !in T {
        ExtOfParent(v);
        PrefixExt(w, full, Parent(v), Last(v));
        assert Parent(v) == w || (w < Parent(v) && Parent(v) <= full);
      }
    }
    forall v | v in T'
      ensures T'[v] in P' && P'[T'[v]] == v
    {
      if v !in T {
        assert v == full[..|v|];
      }
    }
    forall p | p in P'
      ensures P'[p] in T' && T'[P'[p]] == p
    {
      if base <= p {
        ChainLabel(w, full, p - base);
        GraftNew(T, T', w, full, base, full[..|w| + 1 + p - base]);
      }
    }
  }

  /** In the list of w only the predecessor of the new state changes its sibling. */
  lemma GraftSiblingHere(T: Trie, T': Trie, P: Paths, w: Label, full: Label, base: Ptr, pred: Ptr, v: Label)
    requires Named(T, P, NULL) && Grafted(T, T', w, full, base) && Precedes(T, P, w, full[|w|], pred)
    requires v in T && v != [] && Parent(v) == w
    ensures FirstChild(T', w, Last(v) as int + 1) ==
            if pred != NULL && T[v] == pred then base else FirstChild(T, w, Last(v) as int + 1)
  {
    var lo, c := Last(v) as int + 1, full[|w|];
    ExtOfParent(v);
    if lo > c {
      GraftChildOld(T, T', w, full, base, w, lo);
    } else {
      GraftChildHere(T, T', w, full, base, lo);
      assert !Absent(T, w, 1, c);
      ExtOfParent(P[pred]);
    }
  }

  lemma GraftSiblingOld(T: Trie, T': Trie, P: Paths, w: Label, full: Label, base: Ptr, pred: Ptr, v: Label)
    requires Named(T, P, NULL) && Grafted(T, T', w, full, base) && Precedes(T, P, w, full[|w|], pred)
    requires v in T && v != []
    ensures FirstChild(T', Parent(v), Last(v) as int + 1) ==
            if pred != NULL && T[v] == pred then base else FirstChild(T, Parent(v), Last(v) as int + 1)
  {
    if Parent(v) == w {
      GraftSiblingHere(T, T', P, w, full, base, pred, v);
    } else {
      GraftChildOld(T, T', w, full, base, Parent(v), Last(v) as int + 1);
    }
  }

  /** Only the state of w may get another first child, and only the predecessor another sibling. */
  lemma OldPointers(T: Trie, T': Trie, P: Paths, w: Label, full: Label, base: Ptr, pred: Ptr, v: Label)
    requires Named(T, P, NULL) && Grafted(T, T', w, full, base) && Precedes(T, P, w, full[|w|], pred) && v in T
    requires w in T && w < full
    ensures FirstChild(T', v, 1) == if pred == NULL && T[v] == T[w] then base else FirstChild(T, v, 1)
    ensures v != [] ==> FirstChild(T', Parent(v), Last(v) as int + 1) ==
                        if pred != NULL && T[v] == pred then base else FirstChild(T, Parent(v), Last(v) as int + 1)
  {
    hide FirstChild, Grafted, Precedes, Absent, PrefixClosed;
    assert P[T[v]] == v && P[T[w]] == w;
    if v == w {
      GraftChildHere(T, T', w, full, base, 1);
      PrecedesNone(T, P, w, full[|w|], pred);
    } else {
      GraftChildOld(T, T', w, full, base, v, 1);
    }
    if v != [] {
      GraftSiblingOld(T, T', P, w, full, base, pred, v);
    }
  }

  lemma PrecedesNone(T: Trie, P: Paths, w: Label, c: Letter, pred: Ptr)
    requires Precedes(T, P, w, c, pred)
    ensures pred == NULL <==> Absent(T, w, 1, c)
  {
    if pred != NULL {
      ExtOfParent(P[pred]);
    }
  }

  lemma OldStateOk(M: Store, M': Store, T: Trie, T': Trie, P: Paths, P': Paths, w: Label, full: Label, base: Ptr, pred: Ptr, sv: int, p: Ptr)
    requires w in T && T[w] in M && w < full && (pred != NULL ==> pred in M)
    requires Spliced(M, M', T, w, full, base, pred, sv) && p in M && p in P && p in P' && P'[p] == P[p] && NULL != p < base
    requires pred != NULL && p == pred ==> P[p] != []
    requires NodeOk(M, T, P, NULL, p)
    requires FirstChild(T', P[p], 1) == if pred == NULL && p == T[w] then base else FirstChild(T, P[p], 1)
    requires P[p] != [] ==> FirstChild(T', Parent(P[p]), Last(P[p]) as int + 1) ==
                            if pred != NULL && p == pred then base else FirstChild(T, Parent(P[p]), Last(P[p]) as int + 1)
    ensures p in M' && NodeOk(M', T', P', NULL, p)
  {
    hide FirstChild, ChainState;
  }

  lemma SplicedOldState(M: Store, M': Store, T: Trie, P: Paths, w: Label, full: Label, base: Ptr, pred: Ptr, sv: int, p: Ptr)
    requires Named(T, P, NULL) && Linked(M, T, P, NULL) && w in T && w < full && Ext(w, full[|w|]) !in T
    requires 0 < base && forall q | q in P :: q < base
    requires Precedes(T, P, w, full[|w|], pred) && Spliced(M, M', T, w, full, base, pred, sv)
    requires p in P
    ensures p in M' && p in GraftPaths(P, w, full, base)
    ensures NodeOk(M', GraftTrie(T, w, full, base), GraftPaths(P, w, full, base), NULL, p)
  {
    hide FirstChild, GraftTrie, GraftPaths, Spliced, NodeOk, Grafted, PrefixClosed;
    GraftTrieGrafts(T, w, full, base);
    GraftPathsAre(P, w, full, base, p);
    assert NodeOk(M, T, P, NULL, p) && P[p] in T && T[P[p]] == p;
    OldPointers(T, GraftTrie(T, w, full, base), P, w, full, base, pred, P[p]);
    OldStateOk(M, M', T, GraftTrie(T, w, full, base), P, GraftPaths(P, w, full, base), w, full, base, pred, sv, p);
  }

  /** The first added state takes over the rest of the list from its predecessor. */
  lemma HeadSibling(M: Store, T: Trie, T': Trie, P: Paths, w: Label, full: Label, base: Ptr, pred: Ptr)
    requires Named(T, P, NULL) && Linked(M, T, P, NULL) && Grafted(T, T', w, full, base)
    requires Precedes(T, P, w, full[|w|], pred)
    ensures T[w] in M && (pred != NULL ==> pred in M)
    ensures FirstChild(T', w, full[|w|] as int + 1) == if pred == NULL then M[T[w]].child else M[pred].sibling
  {
    hide FirstChild;
    var c := full[|w|];
    GraftChildOld(T, T', w, full, base, w, c as int + 1);
    if pred == NULL {
      assert NodeOk(M, T, P, NULL, T[w]);
      FirstChildSkips(T, w, 1, c as int + 1);
    } else {
      assert NodeOk(M, T, P, NULL, pred);
      FirstChildSkips(T, w, Last(P[pred]) as int + 1, c as int + 1);
    }
  }

  /** The pointers of the added state at p. */
  lemma NewPointers(M: Store, T: Trie, T': Trie, P: Paths, w: Label, full: Label, base: Ptr, pred: Ptr, p: Ptr, v: Label)
    requires Named(T, P, NULL) && Linked(M, T, P, NULL) && Grafted(T, T', w, full, base)
    requires Precedes(T, P, w, full[|w|], pred) && base <= p < base + |full| - |w|
    requires v == full[..|w| + 1 + p - base]
    ensures T[w] in M && (pred != NULL ==> pred in M) && v != []
    ensures FirstChild(T', v, 1) == if p - base + 1 == |full| - |w| then NULL else p + 1
    ensures FirstChild(T', Parent(v), Last(v) as int + 1) ==
              if p > base then NULL else if pred == NULL then M[T[w]].child else M[pred].sibling
  {
    ChainLabel(w, full, p - base);
    GraftChildNew(T, T', w, full, base, v, 1);
    HeadSibling(M, T, T', P, w, full, base, pred);
    if p > base {
      GraftSiblingNew(T, T', w, full, base, v);
    }
  }

  /** An added state is as it must be once its pointers are. */
  lemma SplicedNewState(M: Store, M': Store, T: Trie, T': Trie, P': Paths, w: Label, full: Label, base: Ptr, pred: Ptr, sv: int, p: Ptr)
    requires w in T && T[w] in M && w < full && (pred != NULL ==> pred in M)
    requires Spliced(M, M', T, w, full, base, pred, sv)
    requires 0 < base <= p < base + |full| - |w| && p in P' && P'[p] == full[..|w| + 1 + p - base]
    requires FirstChild(T', P'[p], 1) == if p - base + 1 == |full| - |w| then NULL else p + 1
    requires P'[p] != []
    requires FirstChild(T', Parent(P'[p]), Last(P'[p]) as int + 1) ==
               if p > base then NULL else if pred == NULL then M[T[w]].child else M[pred].sibling
    ensures p in M' && NodeOk(M', T', P', NULL, p)
  {
    ChainLabel(w, full, p - base);
    assert M'[p].cval == Last(P'[p]);
  }

  lemma SplicedState(M: Store, M': Store, T: Trie, P: Paths, w: Label, full: Label, base: Ptr, pred: Ptr, sv: int, p: Ptr)
    requires Named(T, P, NULL) && Linked(M, T, P, NULL) && w in T && w < full && Ext(w, full[|w|]) !in T
    requires 0 < base && forall q | q in P :: q < base
    requires Precedes(T, P, w, full[|w|], pred) && Spliced(M, M', T, w, full, base, pred, sv)
    requires p in GraftPaths(P, w, full, base)
    ensures p in M' && NodeOk(M', GraftTrie(T, w, full, base), GraftPaths(P, w, full, base), NULL, p)
  {
    var T', P' := GraftTrie(T, w, full, base), GraftPaths(P, w, full, base);
    GraftPathsAre(P, w, full, base, p);
    if p in P {
      SplicedOldState(M, M', T, P, w, full, base, pred, sv, p);
    } else {
      GraftTrieGrafts(T, w, full, base);
      NewPointers(M, T, T', P, w, full, base, pred, p, P'[p]);
      SplicedNewState(M, M', T, T', P', w, full, base, pred, sv, p);
    }
  }

  lemma CoversMore(T: Trie, T': Trie, D: Dictionary, key: Label, sv: int)
    requires Covers(T, D) && key != [] && sv > 0
    requires forall v {:trigger v in T'} | v in T' :: v in T || v <= key
    requires T.Keys <= T'.Keys && key in T'
    ensures Covers(T', D[key := sv])
  {
    var D' := D[key := sv];
    forall v | v in T' && v != []
      ensures Extends(D', v)
    {
      if v in T {
        assert Extends(D, v);
        var k :| k in D && v <= k;
        assert k in D';
      } else {
        assert key in D' && v <= key;
      }
    }
  }

  lemma SplicedLinked(M: Store, M': Store, T: Trie, P: Paths, w: Label, full: Label, base: Ptr, pred: Ptr, sv: int)
    requires Named(T, P, NULL) && Linked(M, T, P, NULL) && w in T && w < full && Ext(w, full[|w|]) !in T
    requires 0 < base && forall q | q in P :: q < base
    requires Precedes(T, P, w, full[|w|], pred) && Spliced(M, M', T, w, full, base, pred, sv)
    ensures Linked(M', GraftTrie(T, w, full, base), GraftPaths(P, w, full, base), NULL)
  {
    hide FirstChild, GraftTrie, GraftPaths, NodeOk, Spliced, PrefixClosed, Absent;
    var T', P' := GraftTrie(T, w, full, base), GraftPaths(P, w, full, base);
    SplicedKeys(M, M', T, P, w, full, base, pred, sv);
    forall p | p in P'
      ensures NodeOk(M', T', P', NULL, p)
    {
      SplicedState(M, M', T, P, w, full, base, pred, sv, p);
    }
    AllNodesOk(M', T', P', NULL);
  }

  lemma AllNodesOk(M: Store, T: Trie, P: Paths, wild: Ptr)
    requires M.Keys == P.Keys && forall p {:trigger NodeOk(M, T, P, wild, p)} | p in P :: NodeOk(M, T, P, wild, p)
    ensures Linked(M, T, P, wild)
  {
    hide NodeOk;
  }

  /** Attaching the end of a keyword gives the goto tree of the larger dictionary. */
  lemma SplicedGoto(M: Store, M': Store, T: Trie, P: Paths, D: Dictionary, w: Label, full: Label, base: Ptr, pred: Ptr, sv: int)
    requires Named(T, P, NULL) && Linked(M, T, P, NULL) && Covers(T, D) && Plain(M, P, D)
    requires w in T && w < full && Ext(w, full[|w|]) !in T && sv > 0
    requires 0 < base && forall q | q in P :: q < base
    requires Precedes(T, P, w, full[|w|], pred) && Spliced(M, M', T, w, full, base, pred, sv)
    ensures full !in D
    ensures var T', P' := GraftTrie(T, w, full, base), GraftPaths(P, w, full, base);
      && Named(T', P', NULL) && Linked(M', T', P', NULL)
      && Covers(T', D[full := sv]) && Plain(M', P', D[full := sv])
      && T'[[]] == T[[]] && forall p | p in P' :: p < base + |full| - |w|
  {
    hide Linked, Spliced, GraftTrie, GraftPaths, Extends;
    var T', P' := GraftTrie(T, w, full, base), GraftPaths(P, w, full, base);
    SplicedLinked(M, M', T, P, w, full, base, pred, sv);
    SplicedPlain(M, M', T, P, D, w, full, base, pred, sv);
    GraftTrieGrafts(T, w, full, base);
    GraftNamed(T, P, w, full, base);
    GraftNew(T, T', w, full, base, full);
    CoversMore(T, T', D, full, sv);
    forall p: Ptr
      ensures p in P' <==> p in P || base <= p < base + |full| - |w|
    {
      GraftPathsAre(P, w, full, base, p);
    }
  }

  lemma ChainStatePlain(D: Dictionary, w: Label, full: Label, sv: int, base: Ptr, k: nat, sibling: Ptr, v: Label)
    requires w < full && k < |full| - |w| && v == full[..|w| + 1 + k] && v !in D
    ensures PlainState(D[full := sv], v, ChainState(full[|w|..], sv, base, k, sibling))
  {
    if k + 1 == |full| - |w| {
      assert v == full;
    }
  }

  lemma SplicedPlain(M: Store, M': Store, T: Trie, P: Paths, D: Dictionary, w: Label, full: Label, base: Ptr, pred: Ptr, sv: int)
    requires Named(T, P, NULL) && M.Keys == P.Keys && D.Keys <= T.Keys && Plain(M, P, D)
    requires w in T && w < full && Ext(w, full[|w|]) !in T
    requires 0 < base && forall q | q in P :: q < base
    requires (pred != NULL ==> pred in M) && Spliced(M, M', T, w, full, base, pred, sv)
    ensures full !in D && Plain(M', GraftPaths(P, w, full, base), D[full := sv])
  {
    hide GraftTrie, GraftPaths, PlainState, Spliced, Grafted, PrefixClosed;
    var T', P' := GraftTrie(T, w, full, base), GraftPaths(P, w, full, base);
    GraftTrieGrafts(T, w, full, base);
    GraftNew(T, T', w, full, base, full);
    SplicedKeys(M, M', T, P, w, full, base, pred, sv);
    forall p | p in P'
      ensures PlainState(D[full := sv], P'[p], M'[p])
    {
      GraftPathsAre(P, w, full, base, p);
      if p in P {
        assert P[p] in T && PlainState(D, P[p], M[p]);
        OldStatePlain(M, M', T, D, w, full, base, pred, sv, p, P[p]);
      } else {
        ChainLabel(w, full, p - base);
        GraftNew(T, T', w, full, base, full[..|w| + 1 + p - base]);
        NewStatePlain(M, M', T, D, w, full, base, pred, sv, p);
      }
    }
  }

  lemma SplicedKeys(M: Store, M': Store, T: Trie, P: Paths, w: Label, full: Label, base: Ptr, pred: Ptr, sv: int)
    requires M.Keys == P.Keys && w in T && T[w] in M && w < full && (pred != NULL ==> pred in M)
    requires (forall q | q in P :: q < base) && Spliced(M, M', T, w, full, base, pred, sv)
    ensures M'.Keys == GraftPaths(P, w, full, base).Keys
  {
    hide GraftPaths, ChainState;
    forall p: Ptr
      ensures p in GraftPaths(P, w, full, base) <==> p in M'
    {
      GraftPathsAre(P, w, full, base, p);
    }
  }

  lemma OldStatePlain(M: Store, M': Store, T: Trie, D: Dictionary, w: Label, full: Label, base: Ptr, pred: Ptr, sv: int, p: Ptr, v: Label)
    requires w in T && T[w] in M && w < full && (pred != NULL ==> pred in M)
    requires Spliced(M, M', T, w, full, base, pred, sv) && p in M && p < base
    requires v != full && PlainState(D, v, M[p])
    ensures p in M' && PlainState(D[full := sv], v, M'[p])
  {
    hide ChainState;
  }

  lemma NewStatePlain(M: Store, M': Store, T: Trie, D: Dictionary, w: Label, full: Label, base: Ptr, pred: Ptr, sv: int, p: Ptr)
    requires w in T && T[w] in M && w < full && (pred != NULL ==> pred in M)
    requires Spliced(M, M', T, w, full, base, pred, sv) && base <= p < base + |full| - |w|
    requires full[..|w| + 1 + p - base] !in D
    ensures p in M' && PlainState(D[full := sv], full[..|w| + 1 + p - base], M'[p])
  {
    hide ChainState, PlainState;
    ChainStatePlain(D, w, full, sv, base, p - base,
                    if p > base then NULL else if pred == NULL then M[T[w]].child else M[pred].sibling,
                    full[..|w| + 1 + p - base]);
  }

  /** Marking an inner state as the end of a keyword. */
  lemma MarkLinked(M: Store, M': Store, T: Trie, P: Paths, p: Ptr, sv: int)
    requires Linked(M, T, P, NULL) && p in M && M' == M[p := M[p].(output := true, sval := sv)]
    ensures Linked(M', T, P, NULL)
  {
    hide NodeOk;
    forall q | q in P
      ensures NodeOk(M', T, P, NULL, q)
    {
      MarkNode(M, M', T, P, q);
    }
  }

  lemma MarkNode(M: Store, M': Store, T: Trie, P: Paths, q: Ptr)
    requires q in M && q in M' && q in P && NodeOk(M, T, P, NULL, q)
    requires M'[q].cval == M[q].cval && M'[q].child == M[q].child && M'[q].sibling == M[q].sibling
    ensures NodeOk(M', T, P, NULL, q)
  {
    hide FirstChild;
  }

  lemma MarkPlain(M: Store, M': Store, T: Trie, P: Paths, D: Dictionary, p: Ptr, key: Label, sv: int)
    requires Named(T, P, NULL) && Plain(M, P, D)
    requires key in T && p == T[key] && p in M && M' == M[p := M[p].(output := true, sval := sv)]
    ensures Plain(M', P, D[key := sv])
  {
    forall q | q in P
      ensures PlainState(D[key := sv], P[q], M'[q])
    {
      assert PlainState(D, P[q], M[q]);
    }
  }

  lemma RootOnly(M: Store, T: Trie, P: Paths)
    requires T == map[[] := 1] && P == map[1 := []]
    requires M == map[1 := TkState(NUL, false, PENDING, NULL, NULL, NULL, NULL, 0)]
    ensures Named(T, P, NULL) && Linked(M, T, P, NULL) && Covers(T, map[]) && Plain(M, P, map[])
  {
    hide FirstChild;
    assert T.Keys == {[]} && P.Keys == {1};
    assert Named(T, P, NULL);
    assert Absent(T, [], 1, 255);
    FirstChildSkips(T, [], 1, 255);
    assert FirstChild(T, [], 255) == NULL by {
      NoChildFrom255(T, []);
    }
    assert NodeOk(M, T, P, NULL, 1);
    assert PlainState(map[], [], M[1]);
  }

  lemma NoChildFrom255(T: Trie, w: Label)
    ensures FirstChild(T, w, 255) == NULL
  {
  }

  /** Where the child list of a state starts, and what the WCARD state is. */
  lemma ListStart(M: Store, T: Trie, P: Paths, wild: Ptr, p: Ptr)
    requires Named(T, P, wild) && Linked(M, T, P, wild) && p in P
    ensures p in M && P[p] in T && M[p].child == if P[p] == [] && wild != NULL then wild else FirstChild(T, P[p], 1)
    ensures wild != NULL ==> wild in M && M[wild].cval == WCARD && M[wild].sibling == FirstChild(T, [], 1)
  {
    hide FirstChild;
    assert NodeOk(M, T, P, wild, p);
    assert wild != NULL ==> NodeOk(M, T, P, wild, wild);
  }

  /** What a step along a child list finds. */
  lemma ListNext(M: Store, T: Trie, P: Paths, wild: Ptr, w: Label, lo: nat, p: Ptr)
    requires Named(T, P, wild) && Linked(M, T, P, wild) && 1 <= lo && p == FirstChild(T, w, lo)
    ensures p == NULL ==> Absent(T, w, lo, 255)
    ensures p != NULL ==>
              && p in M && p in P && P[p] != [] && p != wild
              && var c := Last(P[p]);
                && P[p] == Ext(w, c) && Ext(w, c) in T && T[Ext(w, c)] == p
                && lo <= c && Absent(T, w, lo, c)
                && M[p].cval == c && M[p].sibling == FirstChild(T, w, c as int + 1)
  {
    hide FirstChild;
    FirstChildIs(T, P, wild, w, lo);
    if p != NULL {
      ExtOfParent(P[p]);
      assert NodeOk(M, T, P, wild, p);
    }
  }

  lemma NoneBetween(T: Trie, w: Label, lo: int)
    ensures Absent(T, w, lo, lo)
  {
  }

  lemma NotThere(T: Trie, w: Label, lo: int, c: Letter, hi: int)
    requires lo <= c < hi && Absent(T, w, lo, hi)
    ensures Ext(w, c) !in T && Absent(T, w, lo, c)
  {
  }

  /** The state a search for c stops at. */
  lemma LastBefore(T: Trie, P: Paths, wild: Ptr, w: Label, lo: nat, c: Letter, p: Ptr)
    requires Named(T, P, wild) && Absent(T, w, lo, c) && 1 <= lo <= c
    requires if lo == 1 then p == NULL
             else p in P && p != NULL && lo <= 255 && P[p] == Ext(w, lo - 1) && Ext(w, lo - 1) in T && T[Ext(w, lo - 1)] == p
    ensures Precedes(T, P, w, c, p)
  {
  }

  /** TKhead.  The magic key is reduced to the flag `compiled`, tflags to its TF_FOUND bit,
      and the global TKfail is kept with the machine.  The states live in `store`; malloc
      hands out `next`. */
  class Tree {
    var nkey: int
    var compiled: bool
    var found: bool
    var link: Ptr
    var cstate: Ptr
    var ostate: Ptr
    var odepth: int
    var tkfail: int
    var store: Store
    var next: Ptr
    const cqueue: Queue?<Letter>
    ghost var trie: Trie
    ghost var paths: Paths
    ghost var wild: Ptr
    ghost var dict: Dictionary
    ghost var entries: nat   // calls that passed the empty-key test

    /** The machine is a goto tree for dict. */
    ghost predicate Goto()
      reads this
    {
      && Named(trie, paths, NULL) && Linked(store, trie, paths, NULL)
      && Covers(trie, dict) && Plain(store, paths, dict)
      && 0 < next && (forall p | p in paths :: p < next)
      && link == trie[[]]
    }

    /** A machine under construction. */
    ghost predicate Building()
      reads this
    {
      && !compiled && wild == NULL && Goto() && cstate == link && ostate == NULL
      && nkey == Short(entries) && |dict| <= entries && (entries > 0 ==> dict != map[])
    }

    // tkcreate, and tkpcreate when parsing
    constructor (parsing: bool)
      ensures Building() && dict == map[] && entries == 0 && !found
      ensures cqueue != null <==> parsing
      ensures cqueue != null ==>
                fresh(cqueue) && fresh(cqueue.buffer) && cqueue.Valid() && cqueue.Contents() == [] && cqueue.Capacity() == LOOKAHEAD
    {
      nkey, compiled, found, tkfail := 0, false, false, 0;
      if parsing {
        var q := new Queue<Letter>(LOOKAHEAD);
        cqueue := q;
      } else {
        cqueue := null;
      }
      store, next := map[1 := TkState(NUL, false, PENDING, NULL, NULL, NULL, NULL, 0)], 2;
      link, cstate, ostate, odepth := 1, 1, NULL, 0;
      trie, paths, wild, dict, entries := map[[] := 1], map[1 := []], NULL, map[], 0;
      new;
      RootOnly(store, trie, paths);
    }

    /** tkgoto: the transition of state tr on cv.  On failure the second result is the
        sibling after which a state for cv would be inserted, NULL at the front. */
    method TkGoto(tr: Ptr, cv: Letter) returns (ok: bool, p: Ptr)
      requires Named(trie, paths, wild) && Linked(store, trie, paths, wild) && tr in paths
      ensures var w := paths[tr];
        if Ext(w, cv) in trie then ok && p == trie[Ext(w, cv)]
        else if w == [] && wild != NULL then ok && p == wild
        else !ok && Precedes(trie, paths, w, cv, p)
    {
      hide Named, Linked, FirstChild, Absent;
      ghost var w := paths[tr];
      ghost var lo: nat := 1;
      ListStart(store, trie, paths, wild, tr);
      var q := store[tr].child;
      var twild := NULL;
      p := NULL;
      NoneBetween(trie, w, lo);
      if w != [] || wild == NULL {
        ListNext(store, trie, paths, wild, w, lo, q);
      }
      while q != NULL
        invariant 1 <= lo <= cv && Absent(trie, w, lo, lo)
        invariant if q != NULL && q == wild then w == [] && lo == 1 && twild == NULL && p == NULL
                  else q == FirstChild(trie, w, lo) && twild == (if w == [] then wild else NULL)
        invariant if lo == 1 then p == twild
                  else p in paths && p != wild && p != NULL && paths[p] == Ext(w, lo - 1)
                       && Ext(w, lo - 1) in trie && trie[Ext(w, lo - 1)] == p
        decreases q != NULL && q == wild, cv - lo
      {
        if q != wild {
          ListNext(store, trie, paths, wild, w, lo, q);
        }
        if store[q].cval == cv {
          return true, q;
        } else if store[q].cval == WCARD {
          twild := q;
        } else if store[q].cval > cv {
          break;
        }
        p := q;
        if q != wild {
          lo := store[q].cval + 1;
          NoneBetween(trie, w, lo);
        }
        q := store[q].sibling;
        ListNext(store, trie, paths, wild, w, lo, q);
      }
      ListNext(store, trie, paths, wild, w, lo, q);
      NotThere(trie, w, lo, cv, if q == NULL then 255 else store[q].cval);
      if twild != NULL {
        return true, twild;
      }
      LastBefore(trie, paths, wild, w, lo, cv, p);
      return false, p;
    }

    // tknode
    method TkNode(cv: int, sv: int) returns (p: Ptr)
      modifies this`store, this`next
      ensures p == old(next) && next == p + 1
      ensures store == old(store)[p := TkState(cv, false, sv, NULL, NULL, NULL, NULL, 0)]
    {
      p := next;
      store := store[p := TkState(cv, false, sv, NULL, NULL, NULL, NULL, 0)];
      next := next + 1;
    }

    /** tklist: a vertical chain of new states for cstr, the svalue on the last one.  plp is
        NULL while it stands for the dummy state before the chain. */
    method TkList(cstr: Label, sv: int) returns (head: Ptr)
      requires cstr != [] && 0 < next && forall p | p in store :: p < next
      modifies this`store, this`next
      ensures head == old(next) && next == head + |cstr|
      ensures forall p :: p in store <==> p in old(store) || head <= p < next
      ensures forall p {:trigger store[p]} | p in old(store) :: store[p] == old(store)[p]
      ensures forall p {:trigger store[p]} | head <= p < next :: store[p] == ChainState(cstr, sv, head, p - head, NULL)
    {
      hide Chained;
      var plp := NULL;
      head := NULL;
      ghost var base := next;
      ChainNothing(store, cstr, base);
      var i := 0;
      while i < |cstr|
        invariant 0 <= i <= |cstr| && next == base + i
        invariant if i == 0 then plp == NULL else head == base && plp == next - 1 && plp in store
        invariant Chained(old(store), store, cstr, base, i)
      {
        ChainMore(old(store), store, cstr, base, i);
        var node := TkNode(cstr[i], PENDING);
        if plp == NULL {
          head := node;
        } else {
          store := store[plp := store[plp].(child := node)];
        }
        plp := node;
        i := i + 1;
      }
      ChainEnd(old(store), store, cstr, base, sv);
      store := store[plp := store[plp].(output := true, sval := sv)];
    }

    /** The loop of tkenter: as far down the tree as the key leads. */
    method Descend(key: Label) returns (trans: Ptr, ntrans: Ptr, i: nat)
      requires Goto() && wild == NULL
      ensures i <= |key| && key[..i] in trie && trans == trie[key[..i]] && store.Keys == paths.Keys
      ensures trans in store && (store[trans].output <==> key[..i] in dict)
      ensures i < |key| && ntrans != NULL ==> ntrans in store
      ensures i < |key| ==> Ext(key[..i], key[i]) !in trie && Precedes(trie, paths, key[..i], key[i], ntrans)
    {
      ntrans, trans, i := link, link, 0;
      while i < |key|
        invariant 0 <= i <= |key|
        invariant key[..i] in trie && trans == ntrans == trie[key[..i]]
      {
        var ok;
        ok, ntrans := TkGoto(ntrans, key[i]);
        assert Ext(key[..i], key[i]) == key[..i + 1];
        if !ok {
          return;
        }
        i := i + 1;
        trans := ntrans;
      }
    }

    /** The two branches of tkenter that attach a new chain, at the front of the child list
        of trans or after its child ntrans. */
    method Attach(trans: Ptr, ntrans: Ptr, key: Label, i: nat, svalue: int)
      requires Goto() && wild == NULL && svalue > 0 && store.Keys == paths.Keys
      requires trans in store && (ntrans != NULL ==> ntrans in store)
      requires i < |key| && key[..i] in trie && trans == trie[key[..i]]
      requires Ext(key[..i], key[i]) !in trie && Precedes(trie, paths, key[..i], key[i], ntrans)
      modifies this`store, this`next, this`trie, this`paths, this`dict
      ensures Goto() && trie[[]] == old(trie)[[]]
      ensures key !in old(dict) && dict == old(dict)[key := svalue]
    {
      hide Named, Linked, Covers, Plain, Precedes, Spliced, GraftTrie, GraftPaths;
      ghost var w, M := key[..i], store;
      assert w < key;
      var head := Splice(trans, ntrans, key, i, svalue);
      SplicedGoto(M, store, trie, paths, dict, w, key, head, ntrans, svalue);
      trie, paths, dict := GraftTrie(trie, w, key, head), GraftPaths(paths, w, key, head), dict[key := svalue];
    }

    method Splice(trans: Ptr, ntrans: Ptr, key: Label, i: nat, svalue: int) returns (head: Ptr)
      requires i < |key| && key[..i] in trie && trans == trie[key[..i]] && key[..i] < key
      requires 0 < next && forall p | p in store :: p < next
      requires trans in store && (ntrans != NULL ==> ntrans in store)
      modifies this`store, this`next
      ensures head == old(next) && next == head + |key| - i
      ensures Spliced(old(store), store, trie, key[..i], key, head, ntrans, svalue)
    {
      hide Spliced, ChainState;
      head := TkList(key[i..], svalue);
      ListSpliced(old(store), store, trie, key[..i], key, head, ntrans, svalue);
      if ntrans == NULL {
        store := store[head := store[head].(sibling := store[trans].child)];
        store := store[trans := store[trans].(child := head)];
      } else {
        var trans' := store[ntrans].sibling;
        store := store[ntrans := store[ntrans].(sibling := head)];
        store := store[head := store[head].(sibling := trans')];
      }
    }

    /** The last branch of tkenter: the key is a proper prefix of an earlier one. */
    method Mark(trans: Ptr, key: Label, svalue: int)
      requires Goto() && key in trie && trans == trie[key] && trans in store && key != [] && svalue > 0
      modifies this`store, this`dict
      ensures Goto() && dict == old(dict)[key := svalue]
    {
      hide Named, Linked, Covers, Plain;
      ghost var M := store;
      CoversMore(trie, trie, dict, key, svalue);
      store := store[trans := store[trans].(output := true, sval := svalue)];
      MarkLinked(M, store, trie, paths, trans, svalue);
      MarkPlain(M, store, trie, paths, dict, trans, key, svalue);
      dict := dict[key := svalue];
    }

    /** tkenter.  A keyword is entered iff it is nonempty and new; otherwise the map from
        keywords to svalues is unchanged. */
    method TkEnter(key: Label, svalue: CShort) returns (s: Status)
      requires !compiled ==> Building()
      modifies this`nkey, this`store, this`next, this`trie, this`paths, this`dict, this`entries
      ensures s == if compiled || svalue <= 0 then Fatal
                   else if key == [] || key in old(dict) then Failure else Success
      ensures dict == if s == Success then old(dict)[key := svalue] else old(dict)
      ensures s != Success ==> store == old(store) && trie == old(trie) && paths == old(paths)
      ensures entries == old(entries) + if s == Fatal || key == [] then 0 else 1
      ensures !compiled ==> Building()
    {
      hide Named, Linked, Covers, Plain, Precedes, Short;
      if compiled {
        return Fatal;
      }
      if svalue <= 0 {
        return Fatal;
      }
      if key == [] {
        return Failure;
      }
      ShortOfShort(entries, 1);
      nkey, entries := Short(nkey + 1), entries + 1;
      s := Insert(key, svalue);
    }

    /** tkenter once the key is known not to be empty. */
    method Insert(key: Label, svalue: int) returns (s: Status)
      requires Goto() && wild == NULL && key != [] && svalue > 0
      modifies this`store, this`next, this`trie, this`paths, this`dict
      ensures Goto() && trie[[]] == old(trie)[[]] && |dict| <= |old(dict)| + 1
      ensures s == if key in old(dict) then Failure else Success
      ensures dict == if s == Success then old(dict)[key := svalue] else old(dict)
      ensures s != Success ==> store == old(store) && trie == old(trie) && paths == old(paths)
    {
      hide Named, Linked, Covers, Plain, Precedes;
      assert dict[key := svalue].Keys == dict.Keys + {key};
      var trans, ntrans, i := Descend(key);
      if i < |key| {
        Attach(trans, ntrans, key, i, svalue);
        return Success;
      }
      assert key[..i] == key;
      if store[trans].output {
        return Failure;
      }
      Mark(trans, key, svalue);
      return Success;
    }
  }
}
