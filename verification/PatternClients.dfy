/** The programs src/auto/ttestm.c and src/auto/ttestp.c: keywords are entered one after the other,
    the machine is compiled, and a text is read after a reset.  What they report is stated in
    terms of the list of keywords and the text alone.  The sizes of their buffers are left out; the
    number of a keyword is a short. */
module PatternClients {
  import opened Labels
  import opened RingQueue
  import opened Occurrences
  import opened PatternTrie
  import opened PatternFrontier
  import opened PatternBreadth
  import opened PatternCompile
  import opened PatternMatch
  import opened PatternParse

  /** The keywords that could be entered, each with the number of its line; an empty line and a
      repeated keyword are refused. */
  function KeyMap(keys: seq<Label>): (D: Dictionary)
    ensures [] !in D
  {
    if keys == [] then map[]
    else
      var D, k := KeyMap(keys[..|keys| - 1]), keys[|keys| - 1];
      if k == [] || k in D then D else D[k := |keys|]
  }

  /** Every keyword carries the number of the line it first stands on. */
  lemma {:induction false} KeyMapIs(keys: seq<Label>, k: Label)
    ensures k in KeyMap(keys) <==> k != [] && k in keys
    ensures k in KeyMap(keys) ==>
              var n := KeyMap(keys)[k]; 1 <= n <= |keys| && keys[n - 1] == k && k !in keys[..n - 1]
    decreases |keys|
  {
    if keys != [] {
      var front := keys[..|keys| - 1];
      KeyMapIs(front, k);
      assert keys == front + [keys[|keys| - 1]];
      if k in KeyMap(front) {
        var n := KeyMap(front)[k];
        assert front[..n - 1] == keys[..n - 1];
      }
    }
  }

  /** The loop that enters the keywords. */
  method EnterAll(tree: Tree, keys: seq<Label>)
    requires tree.Building() && tree.dict == map[] && tree.entries == 0 && |keys| <= 0x7fff
    modifies tree`nkey, tree`store, tree`next, tree`trie, tree`paths, tree`dict, tree`entries
    ensures tree.Building() && tree.dict == KeyMap(keys) && tree.entries <= |keys|
  {
    hide Tree.Building;
    NotCompiled(tree);
    var sval := 0;
    assert keys[..0] == [];
    while sval < |keys|
      invariant 0 <= sval <= |keys| && tree.Building() && !tree.compiled
      invariant tree.dict == KeyMap(keys[..sval]) && tree.entries <= sval
    {
      assert keys[..sval + 1][..sval] == keys[..sval];
      var s := tree.TkEnter(keys[sval], sval + 1);
      sval := sval + 1;
    }
    assert keys[..sval] == keys;
  }

  lemma NotCompiled(tree: Tree)
    requires tree.Building()
    ensures !tree.compiled
  {
  }

  lemma CompiledFlag(tree: Tree)
    requires Compiled(tree)
    ensures tree.compiled
  {
  }

  /** Up to 32767 entries the count has not wrapped, and there is room for every keyword. */
  lemma EnoughRoom(tree: Tree)
    requires tree.Building() && tree.entries <= 0x7fff
    ensures tree.nkey == tree.entries && |tree.dict| <= tree.nkey
    ensures tree.entries == 0 <==> tree.dict == map[]
  {
    assert |tree.dict| == 0 ==> tree.dict == map[];
  }

  /** Entering, compiling and resetting; the machine cannot be compiled if there is no keyword. */
  method MachineFor(keys: seq<Label>, parsing: bool) returns (compiled: bool, tree: Tree)
    requires |keys| <= 0x7fff
    ensures fresh(tree) && (tree.cqueue != null <==> parsing)
    ensures tree.cqueue != null ==> fresh(tree.cqueue) && fresh(tree.cqueue.buffer)
    ensures tree.dict == KeyMap(keys) && (compiled <==> KeyMap(keys) != map[])
    ensures compiled ==> Running(tree) && Current(tree) == [] && tree.ostate == NULL && Pending(tree) == [] && !tree.found
    ensures compiled && tree.cqueue != null ==>
              tree.cqueue.Valid() && tree.cqueue.Contents() == [] && tree.cqueue.Capacity() == LOOKAHEAD
  {
    hide Tree.Building, Compiled, KeyMap, Report, Token, Harmless, FirstLost, LostUntouched, NeverFull, Crashed;
    tree := new Tree(parsing);
    EnterAll(tree, keys);
    EnoughRoom(tree);
    var s, crash;
    ghost var lost;
    s, crash, lost := TkCompile(tree, -1);
    compiled := s == Success;
    if compiled {
      CompiledFlag(tree);
      var r := TkReset(tree);
    }
  }

  /** ttestm.c on one text: at each position exactly the keywords ending there are reported, the
      longest first, with as many failure moves as there are suffixes given up, no more than characters. */
  method MatchKeys(keys: seq<Label>, text: Label) returns (compiled: bool, reports: seq<seq<int>>, ghost total: nat)
    requires |keys| <= 0x7fff
    ensures compiled <==> KeyMap(keys) != map[]
    ensures compiled ==> |reports| == |text| && total == Moves(Prefixes(KeyMap(keys)), text) <= |text|
    ensures compiled ==> forall i | 0 <= i < |text| :: reports[i] == Report(KeyMap(keys), text[..i + 1])
  {
    hide Finished, KeyMap, Report, Prefixes;
    reports, total := [], 0;
    var tree;
    compiled, tree := MachineFor(keys, false);
    if compiled {
      KeysArePrefixes(tree);
      reports, total := MatchText(tree, text);
    }
  }

  /** The label a text leads to. */
  ghost function LabelOf(D: Dictionary, text: Label): Label {
    LongestSuffix(Prefixes(D), text)
  }

  /** A report made on the character n of a text: the leftmost longest keyword occurrence of the
      text before that character.  It is the one of the whole text, however it goes on, exactly
      if it starts before the label that character leads to. */
  ghost predicate Found(D: Dictionary, text: Label, n: nat, sv: int, i: int, j: int)
    requires n < |text|
  {
    && LeftmostLongest(D, text[..n], i, j) && sv == D[text[..n][i..j]]
    && (ForGood(D, text[..n + 1], i, j) <==> i < n + 1 - |LabelOf(D, text[..n + 1])|)
  }

  /** What a parser for D does on a text up to its first report, which comes on the first
      character that is not quiet.  If nothing is reported, no keyword occurs before the label the
      text leads to.  The program ends if a label fills the lookahead queue. */
  ghost predicate Outcome(D: Dictionary, text: Label, r: Reply, n: nat) {
    && n <= |text|
    && (forall m | 0 <= m < n :: Quiet(D, Prefixes(D), text[..m], text[m]))
    && (n == |text| ==> r == Sval(PENDING) && Confined(D, text, LabelOf(D, text)))
    && (n < |text| && r == Exit ==> Full(LabelOf(D, text[..n])))
    && (n < |text| && r != Exit ==>
          !Quiet(D, Prefixes(D), text[..n], text[n]) && exists i, j :: Found(D, text, n, r.value, i, j))
  }

  /** ttestp.c on one text, up to the first report. */
  method ParseKeys(keys: seq<Label>, text: Label) returns (compiled: bool, r: Reply, n: nat)
    requires |keys| <= 0x7fff
    ensures compiled <==> KeyMap(keys) != map[]
    ensures compiled ==> Outcome(KeyMap(keys), text, r, n)
  {
    hide Finished, KeyMap, Outcome, FirstReport, Quiet, Confined, Full, LongestSuffix;
    r, n := Exit, 0;
    var tree;
    compiled, tree := MachineFor(keys, true);
    if compiled {
      ResetParses(tree);
      KeysArePrefixes(tree);
      r, n := ParseText(tree, text);
      if n < |text| && r != Exit {
        FoundInText(tree, text, n, r.value);
      }
      assert Outcome(tree.dict, text, r, n) by {
        IsOutcome(tree, text, r, n);
      }
    }
  }

  lemma FoundInText(tree: Tree, text: Label, n: nat, sv: int)
    requires n < |text| && FirstReport(tree, text[..n], text[n], sv) && tree.trie.Keys == Prefixes(tree.dict)
    ensures exists i, j :: Found(tree.dict, text, n, sv, i, j)
  {
    hide Reported, LeftmostLongest, ForGood, LongestSuffix;
    var i, j :| ReportedAt(tree, text[..n], text[n], sv, i, j);
    assert Ext(text[..n], text[n]) == text[..n + 1];
    assert LeftmostLongest(tree.dict, text[..n], i, j);
    assert Found(tree.dict, text, n, sv, i, j);
  }

  lemma IsOutcome(tree: Tree, text: Label, r: Reply, n: nat)
    requires tree.trie.Keys == Prefixes(tree.dict) && n <= |text|
    requires forall m | 0 <= m < n :: Quiet(tree.dict, tree.trie.Keys, text[..m], text[m])
    requires n == |text| ==> r == Sval(PENDING) && Confined(tree.dict, text, After(tree, text))
    requires n < |text| && r == Exit ==> Full(After(tree, text[..n]))
    requires n < |text| && r != Exit ==>
               !Quiet(tree.dict, tree.trie.Keys, text[..n], text[n]) && exists i, j :: Found(tree.dict, text, n, r.value, i, j)
    ensures Outcome(tree.dict, text, r, n)
  {
    hide Quiet, Confined, Full, LongestSuffix, Found;
  }

  // ----- a report that is not the leftmost one

  lemma ThreeKeys()
    ensures KeyMap([ABCDE, C, BCF]) == map[ABCDE := 1, C := 2, BCF := 3]
  {
    var keys: seq<Label> := [ABCDE, C, BCF];
    assert keys[..2] == [ABCDE, C] && keys[..2][..1] == [ABCDE] && keys[..2][..1][..0] == [];
    assert KeyMap(keys[..2][..1]) == map[ABCDE := 1];
    assert KeyMap(keys[..2]) == map[ABCDE := 1, C := 2];
  }

  /** Nothing is reported as long as the text spells the beginning of a keyword. */
  lemma QuietInKey(D: Dictionary, k: Label, m: nat)
    requires k in D && m < |k|
    ensures Quiet(D, Prefixes(D), k[..m], k[m])
  {
    assert k[..m] <= k && Ext(k[..m], k[m]) == k[..m + 1] <= k;
    assert Extends(D, k[..m]) && Extends(D, k[..m + 1]);
  }

  lemma AbcQuiet(D: Dictionary, m: nat)
    requires ABCDE in D && m < 3
    ensures Quiet(D, Prefixes(D), ABCF[..m], ABCF[m])
  {
    QuietInKey(D, ABCDE, m);
    assert ABCF[..m] == ABCDE[..m];
  }

  lemma LeftmostIsUnique(D: Dictionary, text: Label, i: int, j: int, i': int, j': int)
    requires LeftmostLongest(D, text, i, j) && LeftmostLongest(D, text, i', j')
    ensures i == i' && j == j'
  {
  }

  lemma NotFull(D: Dictionary, text: Label)
    requires |text| < LOOKAHEAD
    ensures !Full(LabelOf(D, text))
  {
    LongestSuffixIsLongest(Prefixes(D), text, []);
  }

  /** At abc the letter f is not quiet, and c is the only keyword. */
  lemma AbcThenF(D: Dictionary)
    requires D.Keys == {ABCDE, C, BCF}
    ensures !Quiet(D, Prefixes(D), ABCF[..3], ABCF[3])
    ensures LeftmostLongest(D, ABCF[..3], 2, 3) && !LeftmostLongest(D, ABCF, 2, 3) && ABCF[..3][2..3] == C
  {
    hide Prefixes, LongestSuffix;
    NotForGood(D);
    OnlyC(D);
    assert ABCF[..3] == ABC;
    assert Occurs(D, ABC, 2, 3);
  }

  /** What the outcome on abcf must be. */
  lemma AbcfOutcome(D: Dictionary, r: Reply, n: nat)
    requires D.Keys == {ABCDE, C, BCF} && Outcome(D, ABCF, r, n)
    ensures r == Sval(D[C]) && n == 3 && !LeftmostLongest(D, ABCF, 2, 3)
  {
    hide Quiet, LeftmostLongest, ForGood, Full, LongestSuffix, Prefixes, LabelOf, Confined;
    if n < 3 {
      AbcQuiet(D, n);
    }
    if n < |ABCF| {
      NotFull(D, ABCF[..n]);
    }
    AbcThenF(D);
    assert n == 3;
    var i, j :| Found(D, ABCF, 3, r.value, i, j);
    LeftmostIsUnique(D, ABCF[..3], i, j, 2, 3);
  }

  /** A run on the text abcf: c is reported, although bcf occurs before it. */
  method ParseAbcf() returns (r: Reply, n: nat)
    ensures r == Sval(2) && n == 3
    ensures !LeftmostLongest(map[ABCDE := 1, C := 2, BCF := 3], ABCF, 2, 3)
  {
    hide LeftmostLongest, Outcome, KeyMap;
    ThreeKeys();
    var compiled;
    compiled, r, n := ParseKeys([ABCDE, C, BCF], ABCF);
    AbcfOutcome(map[ABCDE := 1, C := 2, BCF := 3], r, n);
  }

  // ----- counts that wrap

  const A: Label := [97]
  const B: Label := [98]
  const BC: Label := [98, 99]

  /** Entering one keyword over and over only counts. */
  method EnterAgain(tree: Tree, key: Label, svalue: CShort, n: nat)
    requires tree.Building() && key in tree.dict && svalue > 0
    modifies tree`nkey, tree`store, tree`next, tree`trie, tree`paths, tree`dict, tree`entries
    ensures tree.Building() && tree.dict == old(tree.dict) && tree.entries == old(tree.entries) + n
  {
    hide Tree.Building;
    NotCompiled(tree);
    NoEmptyKey(tree);
    var i := 0;
    while i < n
      invariant 0 <= i <= n && tree.Building() && !tree.compiled
      invariant tree.dict == old(tree.dict) && tree.entries == old(tree.entries) + i
    {
      var s := tree.TkEnter(key, svalue);
      i := i + 1;
    }
  }

  lemma NoEmptyKey(tree: Tree)
    requires tree.Building()
    ensures [] !in tree.dict
  {
  }

  lemma CountIs(tree: Tree)
    requires tree.Building()
    ensures tree.nkey == Short(tree.entries)
  {
  }

  /** The count of keywords is a short: after 65536 entries of the same keyword it is 0, and
      tkcompile takes the machine for one without keywords. */
  method CountWraps() returns (tree: Tree, s: Status)
    ensures tree.dict == map[A := 1] && s == Failure
  {
    hide Tree.Building, Compiled, Harmless, FirstLost, LostUntouched, Crashed, NeverFull, Short;
    tree := new Tree(false);
    NotCompiled(tree);
    s := tree.TkEnter(A, 1);
    EnterAgain(tree, A, 1, 0xffff);
    CountIs(tree);
    ShortIsZero(0x1_0000);
    var crash;
    ghost var lost;
    s, crash, lost := TkCompile(tree, -1);
  }

  /** After 65537 entries the count is 1, whatever the keywords.  With a, b and bc the label b finds
      no room in the queue: tkcompile succeeds, and the state of bc has no failure state and no
      receiving state, both of which tknext would follow. */
  method CountTooLow() returns (tree: Tree, s: Status, crash: bool)
    ensures tree.dict == map[A := 1, B := 2, BC := 3] && s == Success && !crash && tree.compiled && !Compiled(tree)
    ensures BC in tree.trie && tree.trie[BC] in tree.store
    ensures var t := tree.store[tree.trie[BC]]; t.sval == 3 && t.output && t.fail == NULL && t.rstate == NULL
  {
    hide Tree.Building, Compiled, Harmless, FirstLost, LostUntouched, Crashed, Untouched, Extends, NeverFull, Short;
    tree := EnterThree();
    EnterAgain(tree, A, 1, 0xfffe);
    CountIs(tree);
    ShortIsOne();
    NotCompiled(tree);
    TrieOfKeys(tree);
    ghost var lost;
    s, crash, lost := TkCompile(tree, -1);
    BIsLost(tree.trie, tree.dict, lost);
    BcIsMissed(tree.store, tree.trie, tree.dict, lost, crash);
    BcState(tree.store, tree.trie, tree.dict);
  }

  lemma ShortIsOne()
    ensures Short(0x1_0001) == 1
  {
  }

  method EnterThree() returns (tree: Tree)
    ensures fresh(tree) && tree.Building() && tree.dict == map[A := 1, B := 2, BC := 3] && tree.entries == 3
  {
    hide Tree.Building;
    tree := new Tree(false);
    NotCompiled(tree);
    var s := tree.TkEnter(A, 1);
    s := tree.TkEnter(B, 2);
    s := tree.TkEnter(BC, 3);
  }

  lemma BcState(M: Store, T: Trie, D: Dictionary)
    requires D == map[A := 1, B := 2, BC := 3] && Untouched(M, T, D, BC)
    ensures BC in T && T[BC] in M
    ensures var t := M[T[BC]]; t.sval == 3 && t.output && t.fail == NULL && t.rstate == NULL
  {
  }

  lemma TrieOfKeys(tree: Tree)
    requires tree.Building()
    ensures forall w :: w in tree.trie <==> w == [] || Extends(tree.dict, w)
  {
    forall w
      ensures w in tree.trie <==> w == [] || Extends(tree.dict, w)
    {
      TrieIsPrefixes(tree.trie, tree.dict, w);
    }
  }

  lemma BIsLost(T: Trie, D: Dictionary, lost: set<Label>)
    requires D == map[A := 1, B := 2, BC := 3] && forall w :: w in T <==> w == [] || Extends(D, w)
    requires FirstLost(T, lost, 255, 1)
    ensures A in T && B in T && BC in T && B in lost
    ensures forall w | w in T && |w| >= 2 :: w == BC
  {
    assert A in D && A <= A && B in D && B <= B && BC in D && BC <= BC;
    assert Extends(D, A) && Extends(D, B) && Extends(D, BC);
    assert A in Smaller(T, 98);
    assert {A} <= Smaller(T, 98);
    SubsetCard({A}, Smaller(T, 98));
    assert Ext([], 98) == B;
    forall w | w in T && |w| >= 2
      ensures w == BC
    {
      assert Extends(D, w);
      var k :| k in D && w <= k;
      assert |A| == 1 && |B| == 1 && k == BC;
      assert w == BC[..|w|];
    }
  }

  lemma BcIsMissed(M: Store, T: Trie, D: Dictionary, lost: set<Label>, crash: bool)
    requires D == map[A := 1, B := 2, BC := 3] && BC in T && B in lost && forall w | w in T && |w| >= 2 :: w == BC
    requires crash ==> Crashed(T, lost)
    requires !crash ==> LostUntouched(M, T, D, lost)
    ensures !crash && !Harmless(T, lost) && Untouched(M, T, D, BC)
  {
    assert BC[..1] == B;
    forall u
      ensures !CrashAt(T, lost, u)
    {
      assert u in T && |u| >= 2 ==> u[..1] == B;
    }
  }
}
