/** AddAnalysis of src/anal/checkgenwds.c: the list of analyses of one word, without
    equivalent ones, and the counters of the session. */
module Analyses {
  import opened ByteStrings
  import GenerBlocks

  type Dialect = bv16

  /** What equiv_anal compares. */
  datatype Key = Key(
    lemma_: Bytes, aug1: Bytes, preverb: Bytes, workword: Bytes, endstring: Bytes, forminfo: nat, reiAlpha: bool,
    stemtype: nat)

  datatype Analysis = Analysis(key: Key, dialect: Dialect, crasis: Bytes)

  /** A form offered to AddAnalysis: what it would be stored as, and whether one of the tests
      before the search for duplicates refuses it; those tests are not part of this model. */
  datatype Form = Form(analysis: Analysis, refused: bool)

  const INT_MAX := 0x7fff_ffff

  // equiv_anal
  predicate Equivalent(a: Analysis, b: Analysis) {
    && a.key.lemma_ == b.key.lemma_
    && a.key.aug1 == b.key.aug1 && a.key.preverb == b.key.preverb && a.key.workword == b.key.workword
    && a.key.endstring == b.key.endstring && a.key.forminfo == b.key.forminfo
    && a.key.reiAlpha == b.key.reiAlpha && a.key.stemtype == b.key.stemtype
  }

  function Or(a: Dialect, b: Dialect): Dialect { a | b }

  /** merge_anal_dialects: an analysis good in every dialect stays so. */
  function Merged(a: Analysis, b: Analysis): Analysis {
    if a.dialect != 0 then a.(dialect := Or(a.dialect, b.dialect)) else a
  }

  // ----- the list of a word

  ghost predicate Distinct(as_: seq<Analysis>) {
    forall i, j | 0 <= i < j < |as_| :: as_[i].key != as_[j].key
  }

  function Keys(as_: seq<Analysis>): seq<Key> {
    seq(|as_|, i requires 0 <= i < |as_| => as_[i].key)
  }

  /** One more accepted analysis: merged into the equivalent one, or added. */
  function Entered(as_: seq<Analysis>, a: Analysis): seq<Analysis> {
    if a.key in Keys(as_) then MergedAt(as_, a) else as_ + [a]
  }

  function MergedAt(as_: seq<Analysis>, a: Analysis): (r: seq<Analysis>)
    ensures |r| == |as_|
  {
    seq(|as_|, i requires 0 <= i < |as_| => if as_[i].key == a.key then Merged(as_[i], a) else as_[i])
  }

  /** The list after some accepted analyses, one after the other. */
  function Collected(ls: seq<Analysis>): seq<Analysis> {
    if ls == [] then [] else Entered(Collected(ls[..|ls| - 1]), ls[|ls| - 1])
  }

  /** The dialects of all analyses with a key; none if the first of them had none. */
  function DialectsOf(ls: seq<Analysis>, key: Key): Dialect {
    if ls == [] then 0
    else
      var front, a := ls[..|ls| - 1], ls[|ls| - 1];
      if a.key != key then DialectsOf(front, key)
      else if key !in Keys(front) then a.dialect
      else if DialectsOf(front, key) != 0 then Or(DialectsOf(front, key), a.dialect)
      else 0
  }

  lemma KeysFront(ls: seq<Analysis>)
    requires ls != []
    ensures Keys(ls)[..|ls| - 1] == Keys(ls[..|ls| - 1]) && Keys(ls)[|ls| - 1] == ls[|ls| - 1].key
  {
  }

  lemma KeysMerged(as_: seq<Analysis>, a: Analysis)
    ensures Keys(MergedAt(as_, a)) == Keys(as_)
  {
  }

  lemma KeysAdded(as_: seq<Analysis>, a: Analysis)
    ensures Keys(as_ + [a]) == Keys(as_) + [a.key]
  {
  }

  /** The list holds each key once, in the order of first appearance, with the dialects of all
      its analyses. */
  lemma {:induction false} CollectedIs(ls: seq<Analysis>)
    ensures Keys(Collected(ls)) == GenerBlocks.Dedup(Keys(ls))
    ensures Distinct(Collected(ls))
    ensures forall i {:trigger Collected(ls)[i]} | 0 <= i < |Collected(ls)| ::
              Collected(ls)[i].dialect == DialectsOf(ls, Collected(ls)[i].key)
    decreases |ls|
  {
    if ls != [] {
      var front, a := ls[..|ls| - 1], ls[|ls| - 1];
      CollectedIs(front);
      var as_ := Collected(front);
      KeysFront(ls);
      KeysMerged(as_, a);
      KeysAdded(as_, a);
      GenerBlocks.DedupKeeps(Keys(front));
      assert forall i | 0 <= i < |as_| :: Keys(as_)[i] == as_[i].key;
      assert a.key in Keys(as_) <==> a.key in Keys(front);
      DistinctFromKeys(Collected(ls), Keys(ls));
    }
  }

  ghost function And(a: Dialect, b: Dialect): Dialect { a & b }

  /** The dialects d hold one of the dialects m. */
  ghost predicate Shares(d: Dialect, m: Dialect) {
    And(d, m) != 0
  }

  lemma AndOfOr(a: Dialect, b: Dialect, m: Dialect)
    ensures And(Or(a, b), m) == Or(And(a, m), And(b, m))
  {
  }

  lemma OrOfNothing(a: Dialect, b: Dialect)
    ensures Or(a, b) == 0 <==> a == 0 && b == 0
  {
  }

  /** A dialect bit of either stays. */
  lemma OrBits(a: Dialect, b: Dialect, m: Dialect)
    ensures Shares(Or(a, b), m) <==> Shares(a, m) || Shares(b, m)
    ensures Or(a, b) == 0 ==> a == 0
  {
    hide And, Or;
    AndOfOr(a, b, m);
    OrOfNothing(And(a, m), And(b, m));
    OrOfNothing(a, b);
  }

  /** Some analysis with the key has one of the dialects m. */
  ghost predicate Has(ls: seq<Analysis>, key: Key, m: Dialect) {
    exists j :: 0 <= j < |ls| && ls[j].key == key && Shares(ls[j].dialect, m)
  }

  lemma HasMore(ls: seq<Analysis>, key: Key, m: Dialect)
    requires ls != []
    ensures var front, a := ls[..|ls| - 1], ls[|ls| - 1];
      Has(ls, key, m) <==> Has(front, key, m) || (a.key == key && Shares(a.dialect, m))
  {
    hide Shares;
    var front := ls[..|ls| - 1];
    if j :| 0 <= j < |front| && front[j].key == key && Shares(front[j].dialect, m) {
      assert ls[j] == front[j];
    }
  }

  /** f is the first analysis with the key. */
  ghost predicate FirstWith(ls: seq<Analysis>, key: Key, f: nat) {
    f < |ls| && ls[f].key == key && forall j | 0 <= j < f :: ls[j].key != key
  }

  /** The dialects of a key are those of all its analyses; but if the first of them is good in
      every dialect, so is the entry. */
  lemma {:induction false} DialectBits(ls: seq<Analysis>, key: Key, f: nat, m: Dialect)
    requires FirstWith(ls, key, f)
    ensures DialectsOf(ls, key) == 0 <==> ls[f].dialect == 0
    ensures ls[f].dialect != 0 ==> (Shares(DialectsOf(ls, key), m) <==> Has(ls, key, m))
    decreases |ls|
  {
    hide Or, Has, Shares;
    var n := |ls| - 1;
    var front, a := ls[..n], ls[n];
    HasMore(ls, key, m);
    KeysFront(ls);
    if f < n {
      DialectBits(front, key, f, m);
      assert Keys(front)[f] == key;
      OrBits(DialectsOf(front, key), a.dialect, m);
    } else {
      FirstSeen(front, key, m);
    }
  }

  lemma FirstSeen(ls: seq<Analysis>, key: Key, m: Dialect)
    requires forall j | 0 <= j < |ls| :: ls[j].key != key
    ensures key !in Keys(ls) && !Has(ls, key, m)
  {
    hide Shares;
  }

  /** So the list shows, for every key, the dialects of all its analyses. */
  lemma CollectedDialects(ls: seq<Analysis>, i: nat, f: nat, m: Dialect)
    requires i < |Collected(ls)| && FirstWith(ls, Collected(ls)[i].key, f)
    ensures ls[f].dialect == 0 ==> Collected(ls)[i].dialect == 0
    ensures ls[f].dialect != 0 ==> (Shares(Collected(ls)[i].dialect, m) <==> Has(ls, Collected(ls)[i].key, m))
  {
    hide Has, Collected, Shares;
    CollectedIs(ls);
    DialectBits(ls, Collected(ls)[i].key, f, m);
  }

  lemma DistinctFromKeys(as_: seq<Analysis>, ks: seq<Key>)
    requires Keys(as_) == GenerBlocks.Dedup(ks)
    ensures Distinct(as_)
  {
    GenerBlocks.DedupKeeps(ks);
    assert forall i | 0 <= i < |as_| :: Keys(as_)[i] == as_[i].key;
  }

  function Lemmas(as_: seq<Analysis>): set<Bytes> {
    set a | a in as_ :: a.key.lemma_
  }

  lemma LemmasMerged(as_: seq<Analysis>, a: Analysis)
    ensures Lemmas(MergedAt(as_, a)) == Lemmas(as_)
  {
    var m := MergedAt(as_, a);
    forall x
      ensures x in Lemmas(m) <==> x in Lemmas(as_)
    {
      if x in Lemmas(m) {
        var i :| 0 <= i < |m| && m[i].key.lemma_ == x;
        assert as_[i] in as_ && as_[i].key.lemma_ == x;
      }
      if x in Lemmas(as_) {
        var i :| 0 <= i < |as_| && as_[i].key.lemma_ == x;
        assert m[i] in m && m[i].key.lemma_ == x;
      }
    }
  }

  lemma LemmasAdded(as_: seq<Analysis>, a: Analysis)
    ensures Lemmas(as_ + [a]) == Lemmas(as_) + {a.key.lemma_}
    ensures |Lemmas(as_ + [a])| == |Lemmas(as_)| + if a.key.lemma_ in Lemmas(as_) then 0 else 1
  {
    var r := as_ + [a];
    assert forall x | x in as_ :: x in r;
    assert r[|as_|] == a;
    assert forall x | x in r :: x in as_ || x == a;
    assert Lemmas(r) == Lemmas(as_) + {a.key.lemma_};
    if a.key.lemma_ in Lemmas(as_) {
      assert Lemmas(r) == Lemmas(as_);
    }
  }

  // ----- the place of the next analysis

  /** The list of a word, and the crasis that stands in the place for the next analysis. */
  datatype State = State(list: seq<Analysis>, slot: Bytes)

  /** An analysis put there: a form without crasis leaves the one it finds. */
  function Placed(a: Analysis, slot: Bytes): Analysis {
    if a.crasis != [] then a else a.(crasis := slot)
  }

  function Step(st: State, f: Form): State {
    var a := Placed(f.analysis, st.slot);
    if f.refused then State(st.list, a.crasis)
    else if a.key in Keys(st.list) then State(MergedAt(st.list, a), a.crasis)
    else State(st.list + [a], [])
  }

  function Run(forms: seq<Form>): State {
    if forms == [] then State([], []) else Step(Run(forms[..|forms| - 1]), forms[|forms| - 1])
  }

  function Accepted(forms: seq<Form>): seq<Analysis> {
    if forms == [] then []
    else Accepted(forms[..|forms| - 1]) + if forms[|forms| - 1].refused then [] else [Bare(forms[|forms| - 1].analysis)]
  }

  function Bare(a: Analysis): Analysis {
    a.(crasis := [])
  }

  function AllBare(as_: seq<Analysis>): seq<Analysis> {
    seq(|as_|, i requires 0 <= i < |as_| => Bare(as_[i]))
  }

  /** But for the crasis, the list after any run is the one of the accepted analyses. */
  lemma {:induction false} RunIsCollected(forms: seq<Form>)
    ensures AllBare(Run(forms).list) == Collected(Accepted(forms))
    decreases |forms|
  {
    if forms != [] {
      var front, f := forms[..|forms| - 1], forms[|forms| - 1];
      RunIsCollected(front);
      if !f.refused {
        var st := Run(front);
        var a := Placed(f.analysis, st.slot);
        EnteredBare(st.list, a);
        assert Bare(a) == Bare(f.analysis);
        assert Accepted(forms) == Accepted(front) + [Bare(a)];
        assert Accepted(forms)[..|Accepted(forms)| - 1] == Accepted(front);
        assert Collected(Accepted(forms)) == Entered(Collected(Accepted(front)), Bare(a));
      } else {
        assert Accepted(forms) == Accepted(front);
      }
    }
  }

  lemma EnteredBare(as_: seq<Analysis>, a: Analysis)
    ensures AllBare(if a.key in Keys(as_) then MergedAt(as_, a) else as_ + [a]) == Entered(AllBare(as_), Bare(a))
  {
    assert Keys(AllBare(as_)) == Keys(as_);
  }

  // ----- the crasis of an analysis

  /** The form is neither refused nor merged into an earlier one. */
  ghost predicate Stored(forms: seq<Form>, i: nat)
    requires i < |forms|
  {
    !forms[i].refused && forms[i].analysis.key !in Keys(Run(forms[..i]).list)
  }

  /** Form k and those after it are not stored. */
  ghost predicate NoneStoredFrom(forms: seq<Form>, k: nat) {
    forall j: nat | k <= j < |forms| :: !Stored(forms, j)
  }

  /** No form offered since the last one that was stored carries a crasis. */
  ghost predicate CleanSince(forms: seq<Form>) {
    forall k: nat {:trigger forms[k]} | k < |forms| && NoneStoredFrom(forms, k) :: forms[k].analysis.crasis == []
  }

  lemma StoredFront(forms: seq<Form>, i: nat)
    requires i < |forms| - 1
    ensures Stored(forms, i) <==> Stored(forms[..|forms| - 1], i)
  {
    assert forms[..|forms| - 1][..i] == forms[..i];
  }

  /** The place for the next analysis is clean exactly then. */
  lemma {:induction false} SlotIsClean(forms: seq<Form>)
    ensures Run(forms).slot == [] <==> CleanSince(forms)
    decreases |forms|
  {
    hide MergedAt, Keys;
    if forms != [] {
      var n := |forms| - 1;
      var front, f := forms[..n], forms[n];
      SlotIsClean(front);
      CleanMore(forms);
      RunUnfold(forms);
      assert forms[..n] == front;
    }
  }

  lemma NoneStoredMore(forms: seq<Form>, k: nat)
    requires k < |forms|
    ensures var n := |forms| - 1;
      NoneStoredFrom(forms, k) <==> !Stored(forms, n) && NoneStoredFrom(forms[..n], k)
  {
    hide Stored;
    var n := |forms| - 1;
    forall j: nat | j < n
      ensures Stored(forms, j) <==> Stored(forms[..n], j)
    {
      StoredFront(forms, j);
    }
  }

  lemma CleanMore(forms: seq<Form>)
    requires forms != []
    ensures var n := |forms| - 1;
      CleanSince(forms) <==> Stored(forms, n) || (CleanSince(forms[..n]) && forms[n].analysis.crasis == [])
  {
    hide Stored, NoneStoredFrom;
    var n := |forms| - 1;
    var front := forms[..n];
    assert NoneStoredFrom(front, n) by {
      NoneStoredLast(front);
    }
    forall k: nat | k < |forms|
      ensures NoneStoredFrom(forms, k) <==> !Stored(forms, n) && NoneStoredFrom(front, k)
      ensures k < n ==> forms[k] == front[k]
    {
      NoneStoredMore(forms, k);
    }
    assert CleanSince(forms) && !Stored(forms, n) ==> forms[n].analysis.crasis == [];
    assert CleanSince(forms) && !Stored(forms, n) ==> CleanSince(front) by {
      assert forall k: nat | k < n :: front[k] == forms[k];
    }
  }

  lemma NoneStoredLast(forms: seq<Form>)
    ensures NoneStoredFrom(forms, |forms|)
  {
  }

  lemma RunUnfold(forms: seq<Form>)
    requires forms != []
    ensures Run(forms) == Step(Run(forms[..|forms| - 1]), forms[|forms| - 1])
  {
  }

  /** What is stored keeps its place and its crasis. */
  lemma {:induction false} StoredStays(forms: seq<Form>, n: nat, p: nat)
    requires n <= |forms| && p < |Run(forms[..n]).list|
    ensures p < |Run(forms).list| && Run(forms).list[p].crasis == Run(forms[..n]).list[p].crasis
    decreases |forms|
  {
    if n == |forms| {
      assert forms[..n] == forms;
    } else {
      assert forms[..|forms| - 1][..n] == forms[..n];
      StoredStays(forms[..|forms| - 1], n, p);
    }
  }

  /** The place of a stored form in the list of any later run. */
  ghost function PlaceOf(forms: seq<Form>, i: nat): nat
    requires i < |forms|
  {
    |Run(forms[..i]).list|
  }

  /** In any run a stored analysis has the crasis of its own form exactly if that form has one,
      or none of the forms offered since the analysis before it was stored has one. */
  lemma CrasisKept(forms: seq<Form>, i: nat)
    requires i < |forms| && Stored(forms, i)
    ensures PlaceOf(forms, i) < |Run(forms).list|
    ensures Run(forms).list[PlaceOf(forms, i)].crasis == forms[i].analysis.crasis <==>
            forms[i].analysis.crasis != [] || CleanSince(forms[..i])
  {
    SlotIsClean(forms[..i]);
    assert forms[..i + 1][..i] == forms[..i];
    RunUnfold(forms[..i + 1]);
    StoredStays(forms, i + 1, PlaceOf(forms, i));
  }

  /** The place need not be clean: after a form with a crasis that is refused, or merged into one
      stored before, a form without crasis is stored with the crasis of the other. */
  lemma StaleCrasis(a: Analysis, b: Analysis)
    requires a.crasis != [] && b.crasis == []
    ensures Run([Form(a, true), Form(b, false)]).list == [b.(crasis := a.crasis)]
    ensures a.key != b.key ==>
              Run([Form(a, false), Form(a, false), Form(b, false)]).list == [Merged(a, a), b.(crasis := a.crasis)]
  {
    var forms := [Form(a, true), Form(b, false)];
    assert forms[..1] == [Form(a, true)] && forms[..1][..0] == [];
    assert Run(forms[..1]) == State([], a.crasis);
    var twice := [Form(a, false), Form(a, false), Form(b, false)];
    assert twice[..1] == [Form(a, false)] && twice[..1][..0] == [];
    assert twice[..2] == [Form(a, false), Form(a, false)] && twice[..2][..1] == twice[..1];
    assert Run(twice[..1]) == State([a], []);
    assert Keys([a])[0] == a.key;
    assert MergedAt([a], a) == [Merged(a, a)];
    assert Run(twice[..2]) == State([Merged(a, a)], a.crasis);
  }

  // ----- the program

  /** The counters of a session. */
  class Session {
    var totalAnalyses: nat
    var totalLemmas: nat

    constructor ()
      ensures totalAnalyses == 0 && totalLemmas == 0
    {
      totalAnalyses, totalLemmas := 0, 0;
    }
  }

  class Word {
    var analyses: array<Analysis>
    var totanal: nat

    ghost predicate Valid()
      reads this, analyses
    {
      && totanal <= analyses.Length <= INT_MAX && analyses.Length >= 4
      && Distinct(analyses[..totanal])
      && forall i | totanal < i < analyses.Length :: analyses[i].crasis == []
    }

    ghost function Contents(): State
      requires totanal <= analyses.Length
      reads this, analyses
    {
      State(analyses[..totanal], if totanal < analyses.Length then analyses[totanal].crasis else [])
    }

    // CreatGkAnal(4): calloc
    constructor ()
      ensures Valid() && fresh(analyses) && Contents() == State([], [])
    {
      totanal := 0;
      analyses := new Analysis[4](i => Analysis(Key([], [], [], [], [], 0, false, 0), 0, []));
    }

    /** Doubling the array; what it held stays. */
    method Grow() returns (ok: bool)
      requires Valid()
      modifies this`analyses
      ensures Valid() && (analyses == old(analyses) || fresh(analyses))
      ensures Contents() == old(Contents())
      ensures ok ==> totanal < analyses.Length
      ensures !ok ==> totanal > INT_MAX / 2
    {
      if totanal < analyses.Length {
        return true;
      }
      var capacity := analyses.Length;
      if capacity > INT_MAX / 2 {
        return false;
      }
      var grown := new Analysis[capacity * 2](i => Analysis(Key([], [], [], [], [], 0, false, 0), 0, []));
      forall i | 0 <= i < capacity {
        grown[i] := analyses[i];
      }
      assert grown[..totanal] == analyses[..totanal];
      analyses := grown;
      ok := true;
    }

    /** The search for an equivalent analysis, and for another of the same lemma. */
    method Find(a: Analysis) returns (found: bool, at: nat, newlem: nat)
      requires Valid()
      ensures found <==> a.key in Keys(analyses[..totanal])
      ensures found ==> at < totanal && analyses[at].key == a.key
      ensures !found ==> newlem == if a.key.lemma_ in Lemmas(analyses[..totanal]) then 0 else 1
    {
      ghost var as_ := analyses[..totanal];
      assert forall i | 0 <= i < totanal :: Keys(as_)[i] == analyses[i].key;
      newlem, at := 1, 0;
      while at < totanal
        invariant 0 <= at <= totanal
        invariant forall i | 0 <= i < at :: analyses[i].key != a.key
        invariant newlem == if exists i :: 0 <= i < at && analyses[i].key.lemma_ == a.key.lemma_ then 0 else 1
      {
        if Equivalent(a, analyses[at]) {
          return true, at, newlem;
        }
        if a.key.lemma_ == analyses[at].key.lemma_ {
          newlem := 0;
        }
        at := at + 1;
      }
      found := false;
      if exists i :: 0 <= i < at && analyses[i].key.lemma_ == a.key.lemma_ {
        var i :| 0 <= i < at && analyses[i].key.lemma_ == a.key.lemma_;
        assert as_[i] in as_;
      }
    }

    /** AddAnalysis. */
    method AddAnalysis(form: Form, session: Session) returns (added: bool)
      requires Valid()
      modifies this, analyses, session
      ensures Valid() && (analyses == old(analyses) || fresh(analyses))
      ensures old(totanal) <= INT_MAX / 2 ==> Contents() == Step(old(Contents()), form)
      ensures totanal == old(totanal) + if added then 1 else 0
      ensures session.totalAnalyses == old(session.totalAnalyses) + if added then 1 else 0
      ensures session.totalLemmas - old(session.totalLemmas)
           == |Lemmas(analyses[..totanal])| - |Lemmas(old(analyses[..totanal]))|
    {
      hide Lemmas, Merged, Distinct;
      added := Grow();
      if !added {
        return;
      }
      if form.refused {
        Refuse(form.analysis);
        added := false;
      } else {
        added := Take(Placed(form.analysis, analyses[totanal].crasis), session);
      }
    }

    /** A form that one of the tests refuses has its crasis in the place already. */
    method Refuse(a: Analysis)
      requires Valid() && totanal < analyses.Length
      modifies analyses
      ensures Valid() && Contents() == State(old(analyses[..totanal]), Placed(a, old(analyses[totanal].crasis)).crasis)
    {
      if a.crasis != [] {
        analyses[totanal] := analyses[totanal].(crasis := a.crasis);
      }
      assert analyses[..totanal] == old(analyses[..totanal]);
    }

    /** The end of AddAnalysis, for an analysis in its place. */
    method Take(a: Analysis, session: Session) returns (added: bool)
      requires Valid() && totanal < analyses.Length
      modifies this`totanal, analyses, session
      ensures Valid()
      ensures Contents() ==
        var list := old(analyses[..totanal]);
        if a.key in Keys(list) then State(MergedAt(list, a), a.crasis) else State(list + [a], [])
      ensures totanal == old(totanal) + if added then 1 else 0
      ensures session.totalAnalyses == old(session.totalAnalyses) + if added then 1 else 0
      ensures session.totalLemmas - old(session.totalLemmas)
           == |Lemmas(analyses[..totanal])| - |Lemmas(old(analyses[..totanal]))|
    {
      hide Lemmas, Merged;
      ghost var list := analyses[..totanal];
      analyses[totanal] := a;
      assert analyses[..totanal] == list;
      var found, at, newlem := Find(a);
      if found {
        Merge(at, a);
        LemmasMerged(list, a);
        return false;
      }
      LemmasAdded(list, a);
      assert analyses[..totanal + 1] == list + [a];
      Appended(list, a);
      totanal := totanal + 1;
      session.totalAnalyses := session.totalAnalyses + 1;
      session.totalLemmas := session.totalLemmas + newlem;
      added := true;
    }

    /** merge_anal_dialects on the analysis that was found. */
    method Merge(at: nat, a: Analysis)
      requires Valid() && at < totanal && analyses[at].key == a.key
      modifies analyses
      ensures Valid() && analyses[..totanal] == MergedAt(old(analyses[..totanal]), a)
      ensures forall i | totanal <= i < analyses.Length :: analyses[i] == old(analyses[i])
    {
      hide Merged;
      ghost var as_ := analyses[..totanal];
      forall i | 0 <= i < totanal && as_[i].key == a.key
        ensures i == at
      {
        assert as_[at].key == a.key;
      }
      analyses[at] := Merged(analyses[at], a);
      MergedKey(as_[at], a);
      assert analyses[..totanal] == MergedAt(as_, a);
    }
  }

  lemma MergedKey(a: Analysis, b: Analysis)
    ensures Merged(a, b).key == a.key
  {
  }

  lemma Appended(as_: seq<Analysis>, a: Analysis)
    requires Distinct(as_) && a.key !in Keys(as_)
    ensures Distinct(as_ + [a])
  {
    assert forall i | 0 <= i < |as_| :: Keys(as_)[i] == as_[i].key;
  }

  /** Every run of AddAnalysis on a new word: as long as the counts fit an int, the list holds
      each analysis once, with the dialects of all its equivalents, and the session has counted
      exactly the analyses and the lemmas of the list. */
  method AddAll(forms: seq<Form>) returns (list: seq<Analysis>, totalAnalyses: nat, totalLemmas: nat)
    requires |forms| <= INT_MAX / 2
    ensures list == Run(forms).list && AllBare(list) == Collected(Accepted(forms))
    ensures totalAnalyses == |list| && totalLemmas == |Lemmas(list)|
  {
    hide Lemmas, Step;
    var word := new Word();
    var session := new Session();
    NoLemmas();
    var i := 0;
    assert forms[..0] == [];
    while i < |forms|
      invariant 0 <= i <= |forms| && fresh(word) && fresh(word.analyses) && fresh(session)
      invariant word.Valid() && word.Contents() == Run(forms[..i]) && word.totanal <= i
      invariant session.totalAnalyses == word.totanal && session.totalLemmas == |Lemmas(word.Contents().list)|
    {
      assert forms[..i + 1][..i] == forms[..i];
      var added := word.AddAnalysis(forms[i], session);
      i := i + 1;
    }
    assert forms[..i] == forms;
    RunIsCollected(forms);
    list, totalAnalyses, totalLemmas := word.analyses[..word.totanal], session.totalAnalyses, session.totalLemmas;
  }

  lemma NoLemmas()
    ensures |Lemmas([])| == 0
  {
  }
}
