/** The spelling retries of src/anal/checkstring.c: checkstring3, checkstring4 and checkapostr
    rewrite the word in place and call one another on it.  They end for every word in every
    language, and they give the word back. */
module CheckString {
  import opened Spelling

  datatype Language = GREEK | LATIN | ITALIAN

  /** An ending to split off, and whether only some stem types may stand before it. */
  datatype Enclitic = Enclitic(ending: Word, stemtype: bool)

  const GREEK_SUFF := [Enclitic("per", true)]

  const LATIN_SUFF := [
    Enclitic("que", false), Enclitic("cumque", false), Enclitic("cunque", false), Enclitic("ne", false),
    Enclitic("ve", false), Enclitic("ue", false), Enclitic("libet", false), Enclitic("vis", false),
    Enclitic("piam", false), Enclitic("dem", false), Enclitic("dum", false), Enclitic("met", true)]

  const ITALIAN_SUFF := [
    Enclitic("glie", true), Enclitic("gli", true), Enclitic("mi", true), Enclitic("me", true), Enclitic("ci", true),
    Enclitic("ce", true), Enclitic("ti", true), Enclitic("te", true), Enclitic("vi", true), Enclitic("ve", true),
    Enclitic("lo", true), Enclitic("li", true), Enclitic("la", true), Enclitic("le", true), Enclitic("loro", true),
    Enclitic("ne", true), Enclitic("si", true), Enclitic("se", true)]

  /** A word the recursion may meet.  Only the vowel ai, put in place of the apostrophe of a
      word that fills its buffer, makes one too long for it. */
  predicate Fits(w: Word) {
    w != "" && (|w| < MAXWORDSIZE || (|w| == MAXWORDSIZE && w[MAXWORDSIZE - 2..] == "ai"))
  }

  predicate HasApostr(w: Word) {
    w != "" && w[|w| - 1] == '\''
  }

  // ----- small letters

  ghost function FirstLowered(s: Word): (r: Word)
    requires s != ""
    ensures |r| == |s|
  {
    s[0 := if (s[0] == 'v' || s[0] == 'V') && |s| > 1 && IsAlpha(s[1]) then 'u' else ToLower(s[0])]
  }

  /** A v becomes u unless a small vowel follows. */
  ghost function AllLowered(s: Word): (r: Word)
    ensures |r| == |s|
  {
    seq(|s|, i requires 0 <= i < |s| =>
      if (s[i] == 'v' || s[i] == 'V') && i + 1 < |s| && s[i + 1] !in "aeiou" then 'u' else ToLower(s[i]))
  }

  lemma HasLetter(s: Word, k: nat, low: Word)
    requires Uncapitalised(s, k, low)
    ensures k < |s| && IsAlpha(s[k]) && !IsAlpha(s[0])
  {
  }

  lemma LowFits(s: Word, r: Word)
    requires Fits(s) && (r == s || exists k: nat :: Uncapitalised(s, k, r))
    ensures Fits(r)
  {
  }

  lemma OneLowered(s: Word, k: nat, low: Word, k': nat, low': Word)
    requires Uncapitalised(s, k, low) && Uncapitalised(s, k', low')
    ensures low == low'
  {
    assert k == k';
  }

  lemma LowerFits(s: Word)
    requires Fits(s)
    ensures Fits(FirstLowered(s)) && Fits(AllLowered(s)) && Fits(AllLowered(FirstLowered(s)))
    ensures var all := AllLowered(FirstLowered(s)); all != "" && Fits(all[0 := ToUpper(all[0])])
  {
    if |s| == MAXWORDSIZE {
      assert s[MAXWORDSIZE - 2] == s[MAXWORDSIZE - 2..][0] == 'a' && s[MAXWORDSIZE - 1] == s[MAXWORDSIZE - 2..][1] == 'i';
    }
  }

  lemma NotEmpty(w: Word)
    requires Fits(w)
    ensures w != "" && Fit(w) != "" && Fits(Fit(w))
  {
  }

  /** What is small of VIRVM. */
  lemma VirvmLowered()
    ensures FirstLowered("VIRVM") == "uIRVM" && AllLowered("uIRVM") == "uirum" && "uirum"[0 := ToUpper('u')] == "Uirum"
  {
    assert "uIRVM"[3] == 'V';
  }

  // ----- Latin consonants

  /** An i before a vowel inside a word. */
  ghost predicate TakesJ(s: Word, i: int) {
    0 <= i < |s| - 2 && s[i] == 'i' && s[i + 1] in "aeiou"
  }

  /** The word left behind by the retries with j: that of the last one. */
  ghost function JLast(word: Word, n: nat, base: Word): Word
    requires n <= |word|
  {
    if n == 0 then base else if TakesJ(word, n - 1) then word[n - 1 := 'j'] else JLast(word, n - 1, base)
  }

  ghost function JLeft(s: Word, left: Word): Word {
    if s != "" && s[0] == 'I' then JLast(s[0 := 'J'], |s|, s[0 := 'J']) else JLast(s, |s|, left)
  }

  /** So the s after ex is not put into expiatus, but into the last spelling tried before. */
  lemma LeftByJ(left: Word)
    ensures JLeft("expiatus", left) == "expjatus"
  {
    var s := "expiatus";
    assert TakesJ(s, 3) && !TakesJ(s, 4) && !TakesJ(s, 5) && !TakesJ(s, 6) && !TakesJ(s, 7);
    assert JLast(s, 4, left) == s[3 := 'j'] == "expjatus";
    assert JLast(s, 8, left) == JLast(s, 7, left) == JLast(s, 6, left) == JLast(s, 5, left) == JLast(s, 4, left);
  }

  lemma FairlyShrinks(was: Word, now: Word)
    requires HardenedBy(was, now)
    ensures Hardened(was, now) && AtMost(now, was) && (was != now ==> Smaller(now, was))
  {
    HardenedShrinks(was, now);
  }

  lemma OneHardening(s: Word, a: Word, b: Word)
    requires Hardened(s, a) && Hardened(s, b)
    requires forall i | 0 <= i < |a| :: a[i] != 'u' && a[i] != 'U'
    requires forall i | 0 <= i < |b| :: b[i] != 'u' && b[i] != 'U'
    ensures a == b
  {
  }

  lemma WordAndFit(w: Word)
    requires Fits(w)
    ensures AtMost(w, w) && AtMost(Fit(w), w) && w != "" && Fit(w) != "" && Fits(Fit(w)) && |Fit(w)| < MAXWORDSIZE && Fit(Fit(w)) == Fit(w)
    ensures |w| < MAXWORDSIZE ==> Fit(w) == w
  {
    FitAtMost(w);
  }

  lemma {:induction false} JLastOf(word: Word, n: nat, a: Word, b: Word)
    requires n <= |word|
    ensures JLast(word, n, a) == JLast(word, n, b) || (JLast(word, n, a) == a && JLast(word, n, b) == b)
  {
    if n > 0 {
      JLastOf(word, n - 1, a, b);
    }
  }

  lemma JLeftOf(s: Word, a: Word, b: Word)
    ensures JLeft(s, a) == JLeft(s, b) || (JLeft(s, a) == a && JLeft(s, b) == b)
  {
    JLastOf(s, |s|, a, b);
  }

  // ----- enclitics

  /** Some words hold s without each of the first n endings. */
  ghost predicate CutsIn(words: set<Word>, s: Word, enclitics: seq<Enclitic>, n: nat)
    requires n <= |enclitics|
  {
    forall i, stem: Word | 0 <= i < n && Splits(s, stem, enclitics[i].ending) :: stem in words
  }

  lemma CutsMore(was: set<Word>, now: set<Word>, w: Word, enclitics: seq<Enclitic>, i: nat, found: bool, stem: Word)
    requires was <= now && i < |enclitics| && CutsIn(was, w, enclitics, i)
    requires found <==> HasEnd(w, enclitics[i].ending)
    requires found ==> Splits(w, stem, enclitics[i].ending) && stem in now
    ensures CutsIn(now, w, enclitics, i + 1)
  {
    hide Splits;
    forall k, s: Word | 0 <= k < i + 1 && Splits(w, s, enclitics[k].ending)
      ensures s in now
    {
      if k == i {
        assert HasEnd(w, enclitics[i].ending);
        SameStem(w, s, stem, enclitics[i].ending);
      }
    }
  }

  lemma SameStem(w: Word, a: Word, b: Word, ending: Word)
    requires Splits(w, a, ending) && Splits(w, b, ending)
    ensures a == b
  {
    assert |a| == |b|;
    assert a == w[..|a|] == b;
  }

  lemma StemRetries(word: Word, stem: Word, ending: Word, w: Word)
    requires Splits(word, stem, ending) && Smaller(stem, word) && AtMost(word, w) && Fits(word)
    ensures stem != "" && |stem| < MAXWORDSIZE && Smaller(stem, w)
  {
    SmallerAtMost(stem, word, w);
  }

  /** A word that is too long for its buffer has none of the endings. */
  lemma NoneInAi(w: Word)
    requires Fits(w) && |w| == MAXWORDSIZE
    ensures forall i, stem: Word | 0 <= i < |GREEK_SUFF| :: !Splits(w, stem, GREEK_SUFF[i].ending)
    ensures forall i, stem: Word | 0 <= i < |LATIN_SUFF| :: !Splits(w, stem, LATIN_SUFF[i].ending)
    ensures forall i, stem: Word | 0 <= i < |ITALIAN_SUFF| :: !Splits(w, stem, ITALIAN_SUFF[i].ending)
  {
    NotAi(w, GREEK_SUFF);
    NotAi(w, LATIN_SUFF);
    NotAi(w, ITALIAN_SUFF);
  }

  lemma NotAi(w: Word, enclitics: seq<Enclitic>)
    requires Fits(w) && |w| == MAXWORDSIZE
    requires forall i | 0 <= i < |enclitics| :: EndsOtherwise(enclitics[i].ending)
    ensures forall i, stem: Word | 0 <= i < |enclitics| :: !Splits(w, stem, enclitics[i].ending)
  {
    forall i, stem: Word | 0 <= i < |enclitics|
      ensures !Splits(w, stem, enclitics[i].ending)
    {
      var e := enclitics[i].ending;
      var whole := stem + e;
      assert whole[|whole| - 1] == e[|e| - 1] && whole[|whole| - 2] == e[|e| - 2];
      assert w[MAXWORDSIZE - 2] == w[MAXWORDSIZE - 2..][0] == 'a' && w[MAXWORDSIZE - 1] == w[MAXWORDSIZE - 2..][1] == 'i';
    }
  }

  /** Not in ai. */
  predicate EndsOtherwise(e: Word) {
    |e| >= 2 && (e[|e| - 2] != 'a' || e[|e| - 1] != 'i')
  }

  // ----- Latin prodelision

  ghost predicate EndsIn(s: Word, endings: seq<Word>) {
    exists i :: 0 <= i < |endings| && HasEnd(s, endings[i])
  }

  const EST := ["ast", "est", "umst", "amst", "emst", "omst"]
  const UST := ["ust"]
  const IST := ["ist", "ost"]

  /** A word without its last characters if it has one of some endings. */
  ghost function Cut(s: Word, endings: seq<Word>, cut: nat): (r: Word)
    ensures |r| <= |s|
  {
    if EndsIn(s, endings) && cut <= |s| then s[..|s| - cut] else s
  }

  /** What is left of a word after the tests for a prodelided est, each on what the one before
      has left. */
  ghost function WithoutEst(s: Word): Word {
    Cut(Cut(Cut(s, EST, 2), UST, 1), IST, 2)
  }

  /** The word the retries for a final est or n leave behind. */
  ghost predicate EndsLeft(s: Word, left: Word) {
    var x := WithoutEst(s);
    left == x || (HasEnd(x, "n") && left == x[..|x| - 1])
  }

  lemma NotItsEnd(s: Word, ending: Word)
    requires s != "" && ending != "" && ending[|ending| - 1] != s[|s| - 1]
    ensures !HasEnd(s, ending)
  {
    forall stem: Word
      ensures !Splits(s, stem, ending)
    {
      var whole := stem + ending;
      assert whole[|whole| - 1] == ending[|ending| - 1];
    }
  }

  lemma NoEndIn(s: Word, endings: seq<Word>)
    requires s != "" && forall i | 0 <= i < |endings| :: endings[i] != "" && endings[i][|endings[i]| - 1] != s[|s| - 1]
    ensures !EndsIn(s, endings)
  {
    forall i | 0 <= i < |endings|
      ensures !HasEnd(s, endings[i])
    {
      NotItsEnd(s, endings[i]);
    }
  }

  /** A word that is too long for its buffer has none of these endings, nor has its front. */
  lemma LongHasNoEst(w: Word, s: Word)
    requires Fits(w) && |w| == MAXWORDSIZE && (s == w || s == Fit(w))
    ensures !EndsIn(s, EST) && !EndsIn(s, UST) && !EndsIn(s, IST)
  {
    hide EndsIn;
    assert w[MAXWORDSIZE - 2..][0] == 'a' && w[MAXWORDSIZE - 2..][1] == 'i';
    NoEndIn(s, EST);
    NoEndIn(s, UST);
    NoEndIn(s, IST);
  }

  lemma LongHasNoN(w: Word, s: Word)
    requires Fits(w) && |w| == MAXWORDSIZE && (s == w || s == Fit(w))
    ensures !HasEnd(s, "n")
  {
    assert w[MAXWORDSIZE - 2..][0] == 'a' && w[MAXWORDSIZE - 2..][1] == 'i';
    NotItsEnd(s, "n");
  }

  lemma OnlyShortHasApostr(w: Word)
    requires Fits(w)
    ensures HasApostr(w) <==> w[|w| - 1] == '\''
    ensures HasApostr(w) || HasApostr(Fit(w)) ==> |w| < MAXWORDSIZE
  {
  }

  class GkWord {
    var workword: Word
    /** How many analyses have been found; what they are is not part of this model. */
    var totanal: nat
    /** The spellings that have been looked up, and whether a lookup has ever found an analysis. */
    ghost var tried: set<Word>
    ghost var met: bool
    const language: Language
    const strictCase: bool
    /** nsylls, and whether checkaccent finds an accent on the last syllable. */
    const syllables: Word -> nat
    const ultimaAccented: Word -> bool

    constructor (word: Word, language': Language, strict: bool, syllables': Word -> nat, ultimaAccented': Word -> bool)
      ensures workword == Fit(word) && totanal == 0 && tried == {} && !met && Honest()
      ensures language == language' && strictCase == strict && syllables == syllables' && ultimaAccented == ultimaAccented'
    {
      tried, met := {}, false;
      workword, totanal := Fit(word), 0;
      language, strictCase, syllables, ultimaAccented := language', strict, syllables', ultimaAccented';
    }

    /** Lookups are never taken back. */
    ghost predicate Later(was: set<Word>, had: bool)
      reads this`totanal, this`tried, this`met
    {
      Honest() && was <= tried && (had ==> met)
    }

    ghost predicate Honest()
      reads this`totanal, this`met
    {
      totanal > 0 ==> met
    }

    // set_workword
    method SetWorkword(s: Word)
      modifies this`workword
      ensures workword == Fit(s)
    {
      workword := Fit(s);
    }

    /** checkword, checkindecl and checknom look the word up and leave it alone. */
    method CheckWord() returns (rval: int)
      modifies this`totanal, this`tried, this`met
      ensures tried == old(tried) + {workword} && Honest() && (old(met) ==> met)
    {
      rval := *;
      totanal := *;
      tried, met := tried + {workword}, met || totanal > 0;
    }

    method CheckIndecl() returns (rval: int)
      modifies this`totanal, this`tried, this`met
      ensures tried == old(tried) + {workword} && Honest() && (old(met) ==> met)
    {
      rval := *;
      totanal := *;
      tried, met := tried + {workword}, met || totanal > 0;
    }

    method CheckNom() returns (rval: int)
      modifies this`totanal, this`tried, this`met
      ensures tried == old(tried) + {workword} && Honest() && (old(met) ==> met)
    {
      rval := *;
      totanal := *;
      tried, met := tried + {workword}, met || totanal > 0;
    }

    /** The loop that keeps the analyses of an allowed stem type. */
    method KeepAllowed()
      modifies this`totanal
      ensures totanal <= old(totanal)
    {
      var kept, acount := 0, 0;
      while acount < totanal
        invariant 0 <= kept <= acount <= totanal
        modifies {}
      {
        var allowed: bool := *;
        if allowed {
          kept := kept + 1;
        }
        acount := acount + 1;
      }
      totanal := kept;
    }

    /** checkstring4: the word itself and, in Greek, cun for sun and tt for ss. */
    method CheckString4() returns (rval: int)
      requires Fits(workword)
      requires Honest()
      modifies this
      ensures workword == old(workword) || (language == GREEK && workword == Fit(old(workword)))
      ensures Later(old(tried), old(met)) && old(workword) in tried
      ensures rval <= 0 && language == GREEK ==> GreekTried(Fit(old(workword)))
      decreases Count(TAU, workword), 1
    {
      rval := CheckWord();
      if rval > 0 {
        return;
      }
      if language == GREEK {
        rval := TryGreek(rval);
        if rval > 0 {
          return;
        }
      }
      return 0;
    }

    /** The Greek part of checkstring4. */
    method TryGreek(start: int) returns (rval: int)
      requires Fits(workword) && language == GREEK
      requires Honest()
      modifies this
      ensures workword == old(workword) || workword == Fit(old(workword))
      ensures Later(old(tried), old(met)) && (rval <= 0 ==> GreekTried(Fit(old(workword))))
      decreases Count(TAU, workword), 0
    {
      hide FirstPair, Count;
      rval := start;
      var word := Fit(workword);
      var saveword := word;
      FitCount(workword);
      var found;
      found, word := HasCun(word);
      if found {
        workword := Fit(word);
        var indecl := CheckIndecl();
        var nom := CheckNom();
        rval := rval + indecl + nom;
        workword := Fit(saveword);
        if rval > 0 {
          return;
        }
        CunTried(saveword, word);
      }
      word := saveword;
      found, word := HasTt(word);
      if found {
        workword := Fit(word);
        rval := CheckString4();
        workword := Fit(saveword);
        if rval > 0 {
          return;
        }
        TtTried(saveword, word);
      }
      rval := 0;
    }

    lemma CunTried(s: Word, r: Word)
      requires r in tried && exists i :: FirstPair(s, i, 'c', 'u') && r == s[i := 's']
      ensures forall i | FirstPair(s, i, 'c', 'u') :: s[i := 's'] in tried
    {
    }

    lemma TtTried(s: Word, r: Word)
      requires r in tried && exists i :: FirstPair(s, i, 't', 't') && r == s[i := 's'][i + 1 := 's']
      ensures forall i | FirstPair(s, i, 't', 't') :: s[i := 's'][i + 1 := 's'] in tried
    {
    }

    /** The Greek variants of a word have been looked up. */
    ghost predicate GreekTried(s: Word)
      reads this`tried
    {
      && (forall i | FirstPair(s, i, 'c', 'u') :: s[i := 's'] in tried)
      && (forall i | FirstPair(s, i, 't', 't') :: s[i := 's'][i + 1 := 's'] in tried)
    }

    /** So have the spellings with j for i, each of them alone, after a first I. */
    ghost predicate JTried(s: Word)
      reads this`tried
    {
      && (s != "" && s[0] == 'I' ==> s[0 := 'J'] in tried)
      && JsTried(if s != "" && s[0] == 'I' then s[0 := 'J'] else s)
    }

    ghost predicate JsTried(word: Word)
      reads this`tried
    {
      forall a {:trigger TakesJ(word, a)} | 0 <= a < |word| && TakesJ(word, a) :: word[a := 'j'] in tried
    }

    lemma FitCount(w: Word)
      ensures Count(TAU, Fit(w)) <= Count(TAU, w)
    {
      if |w| >= MAXWORDSIZE {
        CountPrefix(TAU, w, MAXWORDSIZE - 1);
      }
    }
  
    /** The spellings of a capitalised word with small letters have been looked up: in Latin and
        Italian with a small first letter, all small, and all small but the first. */
    ghost predicate CapitalsTried(s: Word)
      requires s != ""
      reads this`tried
    {
      if language == GREEK then forall k: nat, low: Word | Uncapitalised(s, k, low) :: low in tried
      else
        var low, all := FirstLowered(s), AllLowered(FirstLowered(s));
        low in tried && all in tried && all[0 := ToUpper(all[0])] in tried
    }

    ghost predicate Capitalised(s: Word)
      requires s != ""
    {
      ('A' <= s[0] <= 'Z' || s[0] == '*') && !strictCase
    }

    /** The retries for a word with a capital in front, all by checkstring4. */
    method TryCapitals(saveword: Word, rval: int) returns (done: bool, rval': int)
      requires Fits(workword) && saveword == Fit(workword)
      requires Honest()
      modifies this
      ensures done ==> workword == saveword && rval' > 0
      ensures !done ==> workword == old(workword) || workword == saveword
      ensures Later(old(tried), old(met))
      ensures !done && Capitalised(old(workword)) ==> CapitalsTried(old(workword))
    {
      hide FirstLowered, AllLowered, Uncapitalised, Fits;
      rval' := rval;
      NotEmpty(workword);
      if (!IsUpper(workword[0]) && workword[0] != '*') || strictCase {
        return false, rval';
      }
      ghost var w := workword;
      workword := FirstLower(workword);
      ghost var low := workword;
      rval' := CheckString4();
      if rval' > 0 {
        SetWorkword(saveword);
        return true, rval';
      }
      if language != GREEK {
        workword := AllLower(workword);
        ghost var all := workword;
        LowerFits(w);
        rval' := CheckString4();
        if rval' > 0 {
          SetWorkword(saveword);
          return true, rval';
        }
        workword := workword[0 := ToUpper(workword[0])];
        rval' := CheckString4();
        if rval' > 0 {
          SetWorkword(saveword);
          return true, rval';
        }
      }
      workword := Fit(saveword);
      return false, rval';
    }

    method FirstLower(s: Word) returns (r: Word)
      requires Fits(s)
      ensures Fits(r)
      ensures language != GREEK ==> r == FirstLowered(s)
      ensures language == GREEK && (IsUpper(s[0]) || s[0] == '*') ==> forall k: nat, low: Word | Uncapitalised(s, k, low) :: r == low
    {
      hide Uncapitalised;
      if language == GREEK {
        r := BetaToLower(s);
        LowFits(s, r);
        if IsUpper(s[0]) || s[0] == '*' {
          forall k: nat, low: Word | Uncapitalised(s, k, low)
            ensures r == low
          {
            HasLetter(s, k, low);
            var k': nat :| Uncapitalised(s, k', r);
            OneLowered(s, k, low, k', r);
          }
        }
      } else {
        r := s[0 := ToLower(s[0])];
        if r[0] == 'v' && |r| > 1 && IsAlpha(r[1]) {
          r := r[0 := 'u'];
        }
        LowerFits(s);
      }
    }

    method AllLower(s: Word) returns (r: Word)
      ensures r == AllLowered(s)
    {
      r := s;
      var idx := 0;
      while idx < |r|
        invariant 0 <= idx <= |r| == |s|
        invariant forall k | idx <= k < |r| :: r[k] == s[k]
        invariant forall k | 0 <= k < idx :: r[k] == AllLowered(s)[k]
      {
        r := r[idx := ToLower(r[idx])];
        if r[idx] == 'v' && idx + 1 < |r| && !LowVowel(r[idx + 1]) {
          r := r[idx := 'u'];
        }
        idx := idx + 1;
      }
    }

    /** set_workword and a recursive call, on a word that is smaller than the word w the
        caller was given. */
    method Retry(candidate: Word, ghost w: Word) returns (rval: int)
      requires candidate != "" && |candidate| < MAXWORDSIZE && Smaller(candidate, w)
      requires Honest()
      modifies this
      ensures workword == candidate && Later(old(tried), old(met)) && candidate in tried
      decreases Apostrophes(w), Size(w), 0, 0
    {
      SetWorkword(candidate);
      rval := CheckString3();
    }

    /** A word that is given up has been tried with small letters and with its elided vowel. */
    ghost predicate SoundsTried(w: Word)
      requires w != ""
      reads this`tried
    {
      && (Capitalised(w) ==> CapitalsTried(w) || (Fit(w) != "" && CapitalsTried(Fit(w))))
      && (w[|w| - 1] == '\'' ==> ElisionTried(w))
    }

    /** And without its enclitic, and with other consonants; s is w as far as it fits the buffer.
        What is tried only if there is no analysis yet is tried unless one has ever been met. */
    ghost predicate ShapesTried(w: Word, s: Word)
      reads this`tried, this`met
    {
      && (met || EncliticsTried(w))
      && (language == LATIN ==> LatinTried(s))
      && (language == ITALIAN ==> met || ItalianTried(s))
    }

    ghost predicate LatinTried(s: Word)
      reads this`tried, this`met
    {
      && EstTried(s) && (met || FinalNTried(WithoutEst(s))) && JTried(s)
      && exists left :: EndsLeft(s, left) && ConsonantsTried(s, left)
    }

    /** What has been tried stays tried. */
    twostate lemma SoundsStay(w: Word)
      requires w != "" && old(tried) <= tried
      ensures old(SoundsTried(w)) ==> SoundsTried(w)
    {
    }

    twostate lemma EncliticsStay(w: Word)
      requires old(tried) <= tried && (old(met) ==> met)
      ensures old(met || EncliticsTried(w)) ==> met || EncliticsTried(w)
    {
      hide Splits;
    }

    twostate lemma EndsStay(s: Word)
      requires old(tried) <= tried && (old(met) ==> met)
      ensures old(EstTried(s) && (met || FinalNTried(WithoutEst(s)))) ==> EstTried(s) && (met || FinalNTried(WithoutEst(s)))
    {
      hide EndsIn, Cut, HasEnd;
    }

    /** checkstring3 ends on every word and gives the word back; it gives up only after every
        spelling. */
    method CheckString3() returns (rval: int)
      requires Fits(workword)
      requires Honest()
      modifies this
      ensures workword == Fit(old(workword))
      ensures Later(old(tried), old(met)) && old(workword) in tried
      ensures rval == 0 ==> SoundsTried(old(workword)) && ShapesTried(old(workword), Fit(old(workword)))
      decreases Apostrophes(workword), Size(workword), 0, 5
    {
      hide ShapesTried, CapitalsTried, ElisionTried, Capitalised, Fits, Smaller, Apostrophes;
      ghost var w := workword;
      var saveword := Fit(workword);
      WordAndFit(w);
      OnlyShortHasApostr(w);
      rval := CheckString4();
      var done;
      done, rval := TryCapitals(saveword, rval);
      if done {
        return;
      }
      FirstOfFit(w);
      label capitals:
      if HasApostr(workword) {
        var found := CheckApostr();
        rval := rval + found;
        if rval != 0 {
          SetWorkword(saveword);
          return;
        }
        CapitalsStay@capitals(w);
        CapitalsStay@capitals(saveword);
      }
      assert SoundsTried(w);
      label sounds:
      rval := TryShapes(saveword, rval, w);
      SoundsStay@sounds(w);
    }

    lemma FirstOfFit(w: Word)
      requires Fits(w)
      ensures w != "" && Fit(w) != "" && (Capitalised(Fit(w)) <==> Capitalised(w))
    {
    }

    twostate lemma CapitalsStay(w: Word)
      requires w != "" && old(tried) <= tried
      ensures old(CapitalsTried(w)) ==> CapitalsTried(w)
    {
      hide FirstLowered, AllLowered, Uncapitalised;
    }

    /** The retries that change the shape of the word. */
    method TryShapes(saveword: Word, rval: int, ghost w: Word) returns (rval': int)
      requires Fits(w) && saveword == Fit(w) && (workword == w || workword == saveword)
      requires Honest()
      modifies this
      ensures Later(old(tried), old(met)) && workword == saveword
      ensures rval' == 0 ==> ShapesTried(w, saveword)
      decreases Apostrophes(w), Size(w), 0, 4
    {
      hide EncliticsTried, LatinTried, ItalianTried, Fits, Smaller, AtMost, Fit, Apostrophes, Size;
      WordAndFit(w);
      var done;
      done, rval' := TryEnclitics(saveword, rval, w);
      if done {
        return;
      }
      label cut:
      if language == LATIN {
        done, rval' := TryLatin(saveword, rval', w);
      } else {
        done, rval' := TryItalian(saveword, rval', w);
      }
      EncliticsStay@cut(w);
      SetWorkword(saveword);
    }

    /** The Latin retries: est and n at the end, then the consonants. */
    method TryLatin(saveword: Word, rval: int, ghost w: Word) returns (done: bool, rval': int)
      requires Fits(w) && saveword == Fit(w) && (workword == w || workword == saveword) && language == LATIN
      requires Honest()
      modifies this
      ensures Later(old(tried), old(met)) && (done ==> rval' != 0 && workword == saveword)
      ensures !done ==> LatinTried(saveword)
      decreases Apostrophes(w), Size(w), 0, 3
    {
      hide EstTried, JTried, EndsLeft, WithoutEst, FinalNTried, ConsonantsTried, Fits, Smaller, AtMost, Fit, Apostrophes, Size;
      WordAndFit(w);
      ghost var s := workword;
      done, rval' := TryLatinEnds(saveword, rval, w);
      if done {
        return;
      }
      ghost var left := workword;
      EndsOfFit(w, s, left);
      label ends:
      done, rval' := TryConsonants(saveword, rval', w);
      if done {
        return;
      }
      EndsStay@ends(saveword);
      LeftOfFit(w, left);
    }

    /** For a word too long for its buffer, as for the part that fits, there is no est to take off. */
    lemma EndsOfFit(w: Word, s: Word, left: Word)
      requires Fits(w) && (s == w || s == Fit(w))
      requires EstTried(s) && (met || FinalNTried(WithoutEst(s))) && EndsLeft(s, left)
      ensures EstTried(Fit(w)) && (met || FinalNTried(WithoutEst(Fit(w))))
      ensures if |w| < MAXWORDSIZE then EndsLeft(Fit(w), left) else left == w || left == Fit(w)
    {
      hide EndsIn, HasEnd;
      if |w| == MAXWORDSIZE {
        LongHasNoEst(w, s);
        LongHasNoEst(w, Fit(w));
        LongHasNoN(w, s);
        LongHasNoN(w, Fit(w));
      }
    }

    lemma LeftOfFit(w: Word, left: Word)
      requires Fits(w) && ConsonantsTried(Fit(w), left)
      requires if |w| < MAXWORDSIZE then EndsLeft(Fit(w), left) else left == w || left == Fit(w)
      ensures exists x :: EndsLeft(Fit(w), x) && ConsonantsTried(Fit(w), x)
    {
      hide EndsIn, HasEnd, HardenedBy;
      var s := Fit(w);
      if |w| == MAXWORDSIZE {
        LongHasNoEst(w, s);
        assert EndsLeft(s, s);
        var r: Word :| HardenedBy(s, r) && (r == s || r in tried) && ExTried(JLeft(s, if r == s then left else r));
        JLeftOf(s, left, s);
        assert ExTried(JLeft(s, if r == s then s else r));
        assert ConsonantsTried(s, s);
      }
    }

    /** The word has been looked up without each enclitic of the language. */
    ghost predicate EncliticsTried(s: Word)
      reads this`tried
    {
      match language
      case GREEK => CutsIn(tried, s, GREEK_SUFF, |GREEK_SUFF|)
      case LATIN => CutsIn(tried, s, LATIN_SUFF, |LATIN_SUFF|)
      case ITALIAN => CutsIn(tried, s, ITALIAN_SUFF, |ITALIAN_SUFF|)
    }

    method TryEnclitics(saveword: Word, rval: int, ghost w: Word) returns (done: bool, rval': int)
      requires Fits(w) && saveword == Fit(w) && (workword == w || workword == saveword)
      requires Honest()
      modifies this
      ensures Later(old(tried), old(met)) && (done ==> rval' != 0)
      ensures done ==> workword == saveword
      ensures !done ==> workword == w || workword == saveword
      ensures !done ==> met || EncliticsTried(w)
      decreases Apostrophes(w), Size(w), 0, 3
    {
      hide Smaller, AtMost, Fits, Splits, HasEnd, CutsIn, EncliticsTried, Apostrophes, Size;
      var enclitics := if language == LATIN then LATIN_SUFF else if language == ITALIAN then ITALIAN_SUFF else GREEK_SUFF;
      done, rval' := TryEndings(enclitics, saveword, rval, w);
      if !done && totanal == 0 {
        EncliticsDone(w, enclitics);
      }
    }

    /** The loop over the enclitics of the language. */
    method TryEndings(enclitics: seq<Enclitic>, saveword: Word, rval: int, ghost w: Word) returns (done: bool, rval': int)
      requires Fits(w) && saveword == Fit(w) && (workword == w || workword == saveword)
      requires Honest()
      modifies this
      ensures Later(old(tried), old(met)) && (done ==> rval' != 0)
      ensures done ==> workword == saveword
      ensures !done ==> workword == w || workword == saveword
      ensures !done && totanal == 0 && |w| < MAXWORDSIZE ==> CutsIn(tried, w, enclitics, |enclitics|)
      decreases Apostrophes(w), Size(w), 0, 2
    {
      hide Smaller, AtMost, Fits, Splits, HasEnd, CutsIn, Apostrophes, Size;
      rval' := rval;
      WordAndFit(w);
      NoCuts(w, enclitics);
      var i := 0;
      while i < |enclitics| && totanal == 0
        invariant 0 <= i <= |enclitics| && (workword == w || workword == saveword) && Later(old(tried), old(met))
        invariant |w| < MAXWORDSIZE ==> CutsIn(tried, w, enclitics, i)
      {
        done, rval' := TryEnding(enclitics, i, saveword, rval', w);
        if done {
          return;
        }
        i := i + 1;
      }
      done := false;
    }

    /** One enclitic: the word without it. */
    method TryEnding(enclitics: seq<Enclitic>, i: nat, saveword: Word, rval: int, ghost w: Word) returns (done: bool, rval': int)
      requires Fits(w) && saveword == Fit(w) && (workword == w || workword == saveword) && i < |enclitics|
      requires Honest()
      modifies this
      ensures Later(old(tried), old(met)) && (done ==> rval' != 0)
      ensures done ==> workword == saveword
      ensures !done ==> workword == w || workword == saveword
      ensures !done && |w| < MAXWORDSIZE && old(CutsIn(tried, w, enclitics, i)) ==> CutsIn(tried, w, enclitics, i + 1)
      decreases Apostrophes(w), Size(w), 0, 1
    {
      hide Smaller, AtMost, Fits, Splits, HasEnd, CutsIn, Apostrophes, Size;
      done, rval' := false, rval;
      ghost var was := tried;
      WordAndFit(w);
      var found, stem := CmpEnd(workword, enclitics[i].ending);
      if found {
        StemRetries(workword, stem, enclitics[i].ending, w);
        var more := Retry(stem, w);
        rval' := rval' + more;
        if enclitics[i].stemtype {
          KeepAllowed();
        }
        SetWorkword(saveword);
        if rval' != 0 {
          return true, rval';
        }
      }
      if |w| < MAXWORDSIZE && CutsIn(was, w, enclitics, i) {
        CutsMore(was, tried, w, enclitics, i, found, stem);
      }
    }

    lemma NoCuts(w: Word, enclitics: seq<Enclitic>)
      ensures CutsIn(tried, w, enclitics, 0)
    {
    }

    lemma EncliticsDone(w: Word, enclitics: seq<Enclitic>)
      requires Fits(w) && (|w| < MAXWORDSIZE ==> CutsIn(tried, w, enclitics, |enclitics|))
      requires enclitics == if language == LATIN then LATIN_SUFF else if language == ITALIAN then ITALIAN_SUFF else GREEK_SUFF
      ensures EncliticsTried(w)
    {
      hide Splits;
      if |w| == MAXWORDSIZE {
        NoneInAi(w);
      }
    }

    /** The retries for a prodelided est have been made on a word. */
    ghost predicate EstTried(s: Word)
      reads this`tried
    {
      var a := Cut(s, EST, 2);
      var b := Cut(a, UST, 1);
      && (EndsIn(s, EST) ==> a in tried)
      && (EndsIn(a, UST) ==> b in tried)
      && (EndsIn(b, IST) && 2 <= |b| ==> b[..|b| - 1] in tried && b[..|b| - 2] in tried)
    }

    /** Latin prodelision and a final n.  A retry that fails leaves its own word behind, and the
        next test looks at that: what is left in the end is the word without its est, and without
        its final n if that was tried. */
    method TryLatinEnds(saveword: Word, rval: int, ghost w: Word) returns (done: bool, rval': int)
      requires Fits(w) && saveword == Fit(w) && (workword == w || workword == saveword)
      requires Honest()
      modifies this
      ensures Later(old(tried), old(met)) && (done ==> rval' != 0)
      ensures done ==> workword == saveword
      ensures !done ==> Fits(workword) && AtMost(workword, w)
      ensures !done ==> EstTried(old(workword)) && (met || FinalNTried(WithoutEst(old(workword))))
      ensures !done ==> EndsLeft(old(workword), workword)
      decreases Apostrophes(w), Size(w), 0, 2
    {
      hide EndsIn, Cut;
      FitAtMost(w);
      ghost var s := workword;
      done, rval' := TryCut(EST, 2, saveword, rval, w);
      if done {
        return;
      }
      ghost var a := workword;
      done, rval' := TryCut(UST, 1, saveword, rval', w);
      if done {
        return;
      }
      ghost var b := workword;
      done, rval' := TryIst(saveword, rval', w);
      if done {
        return;
      }
      if totanal == 0 {
        done, rval' := TryFinalN(saveword, rval', w);
      }
    }

    /** One of the endings is there: try the word without its last characters. */
    method TryCut(endings: seq<Word>, cut: nat, saveword: Word, rval: int, ghost w: Word) returns (done: bool, rval': int)
      requires Fits(w) && saveword == Fit(w) && Fits(workword) && AtMost(workword, w)
      requires 0 < cut && forall i | 0 <= i < |endings| :: |endings[i]| >= cut
      requires Honest()
      modifies this
      ensures Later(old(tried), old(met)) && (done ==> rval' != 0)
      ensures done ==> workword == saveword
      ensures !done ==> Fits(workword) && AtMost(workword, w) && workword == Cut(old(workword), endings, cut)
      ensures !done && EndsIn(old(workword), endings) ==> workword in tried
      decreases Apostrophes(w), Size(w), 0, 1
    {
      rval' := rval;
      var found := AnyEnd(endings, cut);
      if found {
        var candidate := workword[..|workword| - cut];
        CutShrinks(workword, |candidate|);
        SmallerAtMost(candidate, workword, w);
        rval' := Retry(candidate, w);
        if rval' != 0 {
          SetWorkword(saveword);
          return true, rval';
        }
      }
      done := false;
    }

    method AnyEnd(endings: seq<Word>, cut: nat) returns (found: bool)
      requires forall i | 0 <= i < |endings| :: |endings[i]| >= cut
      ensures found <==> EndsIn(workword, endings)
      ensures found ==> |workword| > cut
    {
      var i := 0;
      found := false;
      while i < |endings| && !found
        invariant 0 <= i <= |endings| && (found ==> |workword| > cut && EndsIn(workword, endings))
        invariant !found ==> forall k | 0 <= k < i :: !HasEnd(workword, endings[k])
      {
        var stem;
        found, stem := CmpEnd(workword, endings[i]);
        i := i + 1;
      }
    }

    /** ist and ost: try -is first, then -i. */
    method TryIst(saveword: Word, rval: int, ghost w: Word) returns (done: bool, rval': int)
      requires Fits(w) && saveword == Fit(w) && Fits(workword) && AtMost(workword, w)
      requires Honest()
      modifies this
      ensures Later(old(tried), old(met)) && (done ==> rval' != 0)
      ensures done ==> workword == saveword
      ensures !done ==> Fits(workword) && AtMost(workword, w) && workword == Cut(old(workword), IST, 2)
      ensures !done && EndsIn(old(workword), IST) ==>
                var s := old(workword); |s| > 2 && s[..|s| - 1] in tried && s[..|s| - 2] in tried
      decreases Apostrophes(w), Size(w), 0, 1
    {
      rval' := rval;
      var found := AnyEnd(IST, 2);
      if found {
        ghost var c := workword;
        var n := |workword|;
        var word := workword[..n - 1];
        CutShrinks(c, n - 1);
        CutShrinks(c, n - 2);
        SmallerAtMost(c[..n - 1], c, w);
        SmallerAtMost(c[..n - 2], c, w);
        var workval := Retry(word, w);
        rval' := rval' + workval;
        word := word[..n - 2];
        assert word == c[..n - 2];
        workval := Retry(word, w);
        rval' := rval' + workval;
        if rval' != 0 {
          SetWorkword(saveword);
          return true, rval';
        }
      }
      done := false;
    }

    /** A word with a final n has been looked up with s for it and without it. */
    ghost predicate FinalNTried(s: Word)
      reads this`tried
    {
      HasEnd(s, "n") ==> s[..|s| - 1] in tried && s[|s| - 1 := 's'] in tried
    }

    /** A final n may hide an s, or be all that is left of the enclitic. */
    method TryFinalN(saveword: Word, rval: int, ghost w: Word) returns (done: bool, rval': int)
      requires Fits(w) && saveword == Fit(w) && Fits(workword) && AtMost(workword, w)
      requires Honest()
      modifies this
      ensures Later(old(tried), old(met)) && (done ==> rval' != 0)
      ensures done ==> workword == saveword
      ensures !done ==> Fits(workword) && AtMost(workword, w)
      ensures !done ==> FinalNTried(old(workword))
      ensures !done ==> workword == if HasEnd(old(workword), "n") then old(workword)[..|old(workword)| - 1] else old(workword)
      decreases Apostrophes(w), Size(w), 0, 1
    {
      rval' := rval;
      var found, stem := CmpEnd(workword, "n");
      if found {
        ghost var c := workword;
        var n := |workword|;
        assert c[n - 1] == c[n - 1..][0];
        FinalNShrinks(c);
        CutShrinks(c, n - 1);
        var word := workword[n - 1 := 's'];
        SmallerAtMost(word, c, w);
        SmallerAtMost(c[..n - 1], c, w);
        assert |word| < MAXWORDSIZE;
        var workval := Retry(word, w);
        rval' := rval' + workval;
        word := word[..n - 1];
        assert word == c[..n - 1];
        workval := Retry(word, w);
        rval' := rval' + workval;
        if rval' != 0 {
          SetWorkword(saveword);
          return true, rval';
        }
      }
      done := false;
    }

    /** Every u as v. */
    ghost predicate ItalianTried(s: Word)
      reads this`tried
    {
      forall r: Word | Hardened(s, r) && r != s && (forall i | 0 <= i < |r| :: r[i] != 'u' && r[i] != 'U') :: r in tried
    }

    ghost predicate ExTried(s: Word)
      reads this`tried
    {
      3 <= |s| < MAXWORDSIZE - 1 && s[..2] == "ex" && s[2] in "cpt" ==> s[..2] + "s" + s[2..] in tried
    }

    /** With v for u where u2v puts it; and with an s after ex, but that is done to the word that
        the last retry has left. */
    ghost predicate ConsonantsTried(s: Word, left: Word)
      reads this`tried
    {
      exists r: Word :: HardenedBy(s, r) && (r == s || r in tried) && ExTried(JLeft(s, if r == s then left else r))
    }

    /** u as v, i as j, and the s after ex. */
    method TryConsonants(saveword: Word, rval: int, ghost w: Word) returns (done: bool, rval': int)
      requires Fits(w) && saveword == Fit(w) && Fits(workword) && AtMost(workword, w)
      requires Honest()
      modifies this
      ensures Later(old(tried), old(met)) && (done ==> rval' != 0)
      ensures done ==> workword == saveword
      ensures !done ==> JTried(saveword) && ConsonantsTried(saveword, old(workword))
      decreases Apostrophes(w), Size(w), 0, 2
    {
      hide AtMost, Smaller, Fits, JTried, HardenedBy, ExTried, JLeft;
      ghost var hard;
      done, rval', hard := TryV(saveword, rval, w);
      if done {
        return;
      }
      done, rval' := TryJ(saveword, rval', w);
      if done {
        return;
      }
      label j:
      done, rval' := TryEx(saveword, rval', w);
      JStays@j(saveword);
    }

    twostate lemma JStays(s: Word)
      requires old(tried) <= tried
      ensures old(JTried(s)) ==> JTried(s)
    {
      hide TakesJ;
    }

    /** Every u as v in Italian. */
    method TryItalian(saveword: Word, rval: int, ghost w: Word) returns (done: bool, rval': int)
      requires Fits(w) && saveword == Fit(w)
      requires Honest()
      modifies this
      ensures Later(old(tried), old(met)) && (done ==> rval' != 0)
      ensures done ==> workword == saveword
      ensures !done && language == ITALIAN ==> met || ItalianTried(saveword)
      decreases Apostrophes(w), Size(w), 0, 1
    {
      hide AtMost, Smaller;
      done, rval' := false, rval;
      WordAndFit(w);
      if language != ITALIAN || totanal != 0 {
        return;
      }
      var word, acount := AllU2V(saveword);
      if acount != 0 {
        HardenedShrinks(saveword, word);
        SmallerAtMost(word, saveword, w);
        var more := Retry(word, w);
        rval' := rval' + more;
        if rval' != 0 {
          SetWorkword(saveword);
          return true, rval';
        }
      }
      forall r: Word | Hardened(saveword, r) && (forall i | 0 <= i < |r| :: r[i] != 'u' && r[i] != 'U')
        ensures r == word
      {
        OneHardening(saveword, r, word);
      }
    }

    method TryV(saveword: Word, rval: int, ghost w: Word) returns (done: bool, rval': int, ghost hard: Word)
      requires Fits(w) && saveword == Fit(w) && Fits(workword) && AtMost(workword, w)
      requires Honest()
      modifies this
      ensures Later(old(tried), old(met)) && (done ==> rval' != 0)
      ensures done ==> workword == saveword
      ensures !done ==> Fits(workword) && AtMost(workword, w)
      ensures !done ==> HardenedBy(saveword, hard) && (hard == saveword || hard in tried)
      ensures !done ==> workword == if hard == saveword then old(workword) else hard
      decreases Apostrophes(w), Size(w), 0, 1
    {
      hide AtMost, Smaller, HardenedBy;
      rval' := rval;
      WordAndFit(w);
      var word, nchanges := U2V(saveword);
      hard := word;
      if nchanges != 0 {
        FairlyShrinks(saveword, word);
        SmallerAtMost(word, saveword, w);
        rval' := Retry(word, w);
        if rval' != 0 {
          SetWorkword(saveword);
          return true, rval', hard;
        }
      }
      done := false;
    }

    method TryJ(saveword: Word, rval: int, ghost w: Word) returns (done: bool, rval': int)
      requires Fits(w) && saveword == Fit(w) && Fits(workword) && AtMost(workword, w)
      requires Honest()
      modifies this
      ensures Later(old(tried), old(met)) && (done ==> rval' != 0)
      ensures done ==> workword == saveword
      ensures !done ==> Fits(workword) && AtMost(workword, w)
      ensures !done ==> JTried(saveword) && workword == JLeft(saveword, old(workword))
      decreases Apostrophes(w), Size(w), 0, 1
    {
      hide CanRetryJ, TakesJ, AtMost, Smaller;
      rval' := rval;
      WordAndFit(w);
      var word := saveword;
      if word[0] == 'I' {
        LetterShrinks(word, 0, 'J');
        word := word[0 := 'J'];
        SmallerAtMost(word, saveword, w);
        rval' := Retry(word, w);
        if rval' != 0 {
          SetWorkword(saveword);
          return true, rval';
        }
      }
      ghost var base := workword;
      var a := 0;
      while a < |word|
        invariant 0 <= a <= |word| && word != "" && |word| < MAXWORDSIZE && AtMost(word, w)
        invariant Fits(workword) && AtMost(workword, w) && Later(old(tried), old(met))
        invariant word == (if saveword[0] == 'I' then saveword[0 := 'J'] else saveword) && (saveword[0] == 'I' ==> word in tried)
        invariant forall k | 0 <= k < a && TakesJ(word, k) :: word[k := 'j'] in tried
        invariant workword == JLast(word, a, base)
      {
        TakesJIs(word, a);
        if CanRetryJ(word, a) {
          JShrinks(word, a, w);
          rval' := Retry(word[a := 'j'], w);
          if rval' != 0 {
            SetWorkword(saveword);
            return true, rval';
          }
        }
        a := a + 1;
      }
      done := false;
    }

    lemma TakesJIs(word: Word, a: nat)
      requires a < |word|
      ensures CanRetryJ(word, a) <==> TakesJ(word, a)
    {
    }

    lemma JShrinks(word: Word, a: nat, w: Word)
      requires a < |word| && CanRetryJ(word, a) && AtMost(word, w)
      ensures Smaller(word[a := 'j'], w) && AtMost(word[a := 'j'], w)
    {
      LetterShrinks(word, a, 'j');
      SmallerAtMost(word[a := 'j'], word, w);
    }

    method TryEx(saveword: Word, rval: int, ghost w: Word) returns (done: bool, rval': int)
      requires Fits(w) && saveword == Fit(w) && Fits(workword) && AtMost(workword, w)
      requires Honest()
      modifies this
      ensures Later(old(tried), old(met)) && (done ==> rval' != 0)
      ensures done ==> workword == saveword
      ensures !done ==> ExTried(old(workword))
      decreases Apostrophes(w), Size(w), 0, 1
    {
      rval' := rval;
      if |workword| >= 2 && workword[..2] == "ex" && |workword| < MAXWORDSIZE {
        var word, expanded := ExpandEx(workword);
        if expanded {
          SmallerAtMost(word, workword, w);
          rval' := Retry(word, w);
          if rval' != 0 {
            SetWorkword(saveword);
            return true, rval';
          }
        }
      }
      done := false;
    }

    // ----- checkapostr

    // add_apostrvowel
    method AddApostrVowel(p: nat, vow: Word)
      requires p <= |workword| < MAXWORDSIZE && p < MAXWORDSIZE - 1 && vow in ["a", "i", "o", "e", "ai"]
      modifies this`workword
      ensures workword == WithVowel(old(workword)[..p], vow)
    {
      workword := workword[..p] + vow;
      if |workword| >= MAXWORDSIZE {
        return;
      }
      var candidate := workword;
      if Count(ACCENT, workword) == 0 {
        if |candidate| + 1 >= MAXWORDSIZE {
          return;
        }
        candidate := candidate + "/";
      }
      if vow[0] == 'u' || vow[0] == 'i' || vow[0] == 'a' {
        if |candidate| + 1 >= MAXWORDSIZE {
          return;
        }
        candidate := candidate + "^";
      }
      workword := Fit(candidate);
    }

    /** One elided vowel: put it back, try, restore. */
    method TryVowel(p: nat, vow: Word, saveword: Word, ghost w: Word) returns (curval: int)
      requires HasApostr(w) && |w| < MAXWORDSIZE && workword == saveword == w && p == |w| - 1
      requires vow in ["a", "i", "o", "e", "ai"]
      requires Honest()
      modifies this
      ensures workword == saveword
      ensures Later(old(tried), old(met)) && WithVowel(w[..p], vow) in tried
      decreases Apostrophes(w), 0, 0, 0
    {
      AddApostrVowel(p, vow);
      VowelRestored(w, vow);
      curval := CheckString3();
      SetWorkword(saveword);
    }

    /** checkaccent: an accent it reports on the last syllable is a character of the word. */
    method CheckAccent() returns (onUltima: bool)
      ensures onUltima <==> ultimaAccented(workword) && Count(ACCENT, workword) > 0
    {
      onUltima := ultimaAccented(workword) && Count(ACCENT, workword) > 0;
    }

    method NSylls() returns (n: nat)
      ensures n == syllables(workword)
    {
      n := syllables(workword);
    }

    /** The word with each elided vowel has been looked up; a word without a syllable has lost an e. */
    ghost predicate VowelsTried(front: Word, sylls: nat)
      reads this`tried
    {
      && WithVowel(front, "e") in tried
      && (sylls >= 1 ==> WithVowel(front, "a") in tried && WithVowel(front, "i") in tried
                         && WithVowel(front, "o") in tried && WithVowel(front, "ai") in tried)
    }

    /** Both for the word and with a smooth consonant for an aspirate before the apostrophe: p for
        f, k for x, t for q, and kt for xq. */
    ghost predicate ElisionTried(s: Word)
      reads this`tried
    {
      var n := |s| - 1;
      n >= 0 ==>
        && VowelsTried(s[..n], syllables(s))
        && (n >= 1 && s[n - 1] == 'f' ==> VowelsTried(s[..n - 1] + "p", syllables(s[..n - 1] + "p'")))
        && (n >= 1 && s[n - 1] == 'x' ==> VowelsTried(s[..n - 1] + "k", syllables(s[..n - 1] + "k'")))
        && (n >= 2 && s[n - 1] == 'q' && s[n - 2] == 'x' ==>
              VowelsTried(s[..n - 2] + "kt", syllables(s[..n - 2] + "kt'")))
        && (n >= 1 && s[n - 1] == 'q' && (n == 1 || s[n - 2] != 'x') ==>
              VowelsTried(s[..n - 1] + "t", syllables(s[..n - 1] + "t'")))
    }

    /** a)f' is the elided a)po of a smooth word: a)pe and the others are tried. */
    lemma ElidedApo()
      requires ElisionTried("a)f'") && syllables("a)p'") == 1
      ensures "a)pe/" in tried && "a)pa/^" in tried && "a)pi/^" in tried && "a)po/" in tried && "a)pai/^" in tried
    {
      hide WithVowel;
      var s := "a)f'";
      assert s[..2] + "p" == "a)p" && s[..2] + "p'" == "a)p'";
      VowelSpelled("a)p");
      assert "a)p" + "e/" == "a)pe/" && "a)p" + "a/^" == "a)pa/^" && "a)p" + "i/^" == "a)pi/^";
      assert "a)p" + "o/" == "a)po/" && "a)p" + "ai/^" == "a)pai/^";
    }

    /** The aspirate before the apostrophe made smooth. */
    method TrySmooth(saveword: Word) returns (found: int)
      requires workword == saveword && HasApostr(saveword) && 2 <= |saveword| < MAXWORDSIZE && ROUGH(saveword[|saveword| - 2])
      requires Honest()
      modifies this
      ensures workword == saveword
      ensures Later(old(tried), old(met)) && ElisionTried(Smooth(saveword))
      decreases Apostrophes(workword), 0, Count(ACCENT, workword) + Count(ROUGH, workword), 0
    {
      hide Count, Apostrophes, Smooth, ElisionTried;
      RoughShrinks(workword);
      workword := Smooth(workword);
      found := CheckApostr();
      workword := Fit(saveword);
    }

    /** An accent on the last syllable may be there for the lost vowel. */
    method TryBare() returns (found: int)
      requires HasApostr(workword) && |workword| < MAXWORDSIZE && Count(ACCENT, workword) > 0
      requires Honest()
      modifies this
      ensures Later(old(tried), old(met)) && ElisionTried(WithoutAccents(old(workword)))
      decreases Apostrophes(workword), 0, Count(ACCENT, workword) + Count(ROUGH, workword), 0
    {
      hide Count, Apostrophes, WithoutAccents, ElisionTried;
      var bare := StripAcc(workword);
      BareShrinks(workword);
      workword := bare;
      found := CheckApostr();
    }

    lemma SmoothTried(s: Word)
      requires HasApostr(s) && |s| >= 2 && ROUGH(s[|s| - 2]) && ElisionTried(Smooth(s)) && VowelsTried(s[..|s| - 1], syllables(s))
      ensures ElisionTried(s)
    {
      hide VowelsTried;
      var n, r := |s| - 1, Smooth(s);
      assert s[n] == '\'' && VowelsTried(r[..n], syllables(r));
      if s[n - 1] == 'f' {
        assert r == s[..n - 1] + "p'" && r[..n] == s[..n - 1] + "p";
      } else if s[n - 1] == 'x' {
        assert r == s[..n - 1] + "k'" && r[..n] == s[..n - 1] + "k";
      } else if n >= 2 && s[n - 2] == 'x' {
        assert r == s[..n - 2] + "kt'" && r[..n] == s[..n - 2] + "kt";
      } else {
        assert r == s[..n - 1] + "t'" && r[..n] == s[..n - 1] + "t";
      }
    }

    /** checkapostr */
    method CheckApostr() returns (rval: int)
      requires workword != "" && |workword| < MAXWORDSIZE
      requires Honest()
      modifies this
      ensures workword == old(workword)
      ensures Later(old(tried), old(met))
      ensures workword[|workword| - 1] == '\'' ==> ElisionTried(workword)
      ensures workword[|workword| - 1] == '\'' && rval == 0 && ultimaAccented(workword) && Count(ACCENT, workword) > 0 ==>
                ElisionTried(WithoutAccents(workword))
      decreases Apostrophes(workword), 0, Count(ACCENT, workword) + Count(ROUGH, workword), 2
    {
      hide Count, WithVowel, Smooth, WithoutAccents, ElisionTried;
      ghost var w := workword;
      var saveword := workword;
      rval := 0;
      var p := |workword| - 1;
      if workword[p] != '\'' {
        return 0;
      }
      if p > 0 && ROUGH(workword[p - 1]) {
        rval := TrySmooth(saveword);
      }
      label smooth:
      rval := TryVowels(p, saveword, rval, w);
      if p > 0 && ROUGH(w[p - 1]) {
        ElisionStays@smooth(Smooth(w));
      }
      ElisionDone(w);
      label vowels:
      if rval == 0 {
        var onUltima := CheckAccent();
        if onUltima {
          rval := TryBare();
        }
        workword := Fit(saveword);
        ElisionStays@vowels(w);
      }
    }

    twostate lemma ElisionStays(s: Word)
      requires old(tried) <= tried
      ensures old(ElisionTried(s)) ==> ElisionTried(s)
    {
      hide WithVowel;
    }

    lemma ElisionDone(s: Word)
      requires HasApostr(s) && VowelsTried(s[..|s| - 1], syllables(s))
      requires |s| >= 2 && ROUGH(s[|s| - 2]) ==> ElisionTried(Smooth(s))
      ensures ElisionTried(s)
    {
      hide VowelsTried, Smooth;
      if |s| >= 2 && ROUGH(s[|s| - 2]) {
        SmoothTried(s);
      }
    }

    /** The elided vowels in turn. */
    method TryVowels(p: nat, saveword: Word, start: int, ghost w: Word) returns (rval: int)
      requires HasApostr(w) && |w| < MAXWORDSIZE && workword == saveword == w && p == |w| - 1
      requires Honest()
      modifies this
      ensures workword == saveword
      ensures Later(old(tried), old(met)) && VowelsTried(w[..p], syllables(w))
      decreases Apostrophes(w), 0, 0, 1
    {
      hide WithVowel;
      rval := start;
      var sylls := NSylls();
      var found;
      if sylls >= 1 {
        found := TryVowel(p, "a", saveword, w);
        rval := rval + found;
        found := TryVowel(p, "i", saveword, w);
        rval := rval + found;
        found := TryVowel(p, "o", saveword, w);
        rval := rval + found;
      }
      found := TryVowel(p, "e", saveword, w);
      rval := rval + found;
      if sylls >= 1 {
        found := TryVowel(p, "ai", saveword, w);
        rval := rval + found;
      }
    }
  }

  /** An elided vowel in place of the apostrophe: a word without an accent gets one, and u, i
      and a their quantity mark, if the buffer has room. */
  ghost function WithVowel(front: Word, vow: Word): (r: Word)
    requires vow != ""
    ensures |r| == |front| + |vow| || |r| < MAXWORDSIZE
  {
    var bare := front + vow;
    var accented := if Count(ACCENT, bare) == 0 then bare + "/" else bare;
    var marked := if vow[0] == 'u' || vow[0] == 'i' || vow[0] == 'a' then accented + "^" else accented;
    if |accented| < MAXWORDSIZE && |marked| < MAXWORDSIZE then marked else bare
  }

  /** What becomes of each vowel: only a and i are marked long or short, an accent is added unless
      there is one, and both only if there is room for both. */
  lemma VowelSpelled(front: Word)
    ensures var accented, n := exists i :: 0 <= i < |front| && front[i] in "/\\=", |front|;
      && WithVowel(front, "e") == front + (if accented || n + 2 >= MAXWORDSIZE then "e" else "e/")
      && WithVowel(front, "o") == front + (if accented || n + 2 >= MAXWORDSIZE then "o" else "o/")
      && WithVowel(front, "a") == front + (if accented then if n + 2 < MAXWORDSIZE then "a^" else "a"
                                           else if n + 3 < MAXWORDSIZE then "a/^" else "a")
      && WithVowel(front, "i") == front + (if accented then if n + 2 < MAXWORDSIZE then "i^" else "i"
                                           else if n + 3 < MAXWORDSIZE then "i/^" else "i")
      && WithVowel(front, "ai") == front + (if accented then if n + 3 < MAXWORDSIZE then "ai^" else "ai"
                                            else if n + 4 < MAXWORDSIZE then "ai/^" else "ai")
  {
    hide WithVowel;
    UnmarkedVowel(front, "e");
    UnmarkedVowel(front, "o");
    MarkedVowel(front, "a");
    MarkedVowel(front, "i");
    MarkedVowel(front, "ai");
    assert "e" + "/" == "e/" && "o" + "/" == "o/" && "a" + "^" == "a^" && "i" + "^" == "i^" && "ai" + "^" == "ai^";
    assert "a" + "/^" == "a/^" && "i" + "/^" == "i/^" && "ai" + "/^" == "ai/^";
  }

  lemma UnmarkedVowel(front: Word, vow: Word)
    requires vow in ["o", "e"]
    ensures var accented := exists i :: 0 <= i < |front| && front[i] in "/\\=";
      WithVowel(front, vow) == front + (if accented || |front| + 2 >= MAXWORDSIZE then vow else vow + "/")
  {
    hide Count;
    AccentedFront(front, vow);
    assert front + vow + "/" == front + (vow + "/");
  }

  lemma MarkedVowel(front: Word, vow: Word)
    requires vow in ["a", "i", "ai"]
    ensures var accented := exists i :: 0 <= i < |front| && front[i] in "/\\=";
      WithVowel(front, vow) ==
      front + (if |front| + |vow| + (if accented then 1 else 2) >= MAXWORDSIZE then vow
               else if accented then vow + "^" else vow + "/^")
  {
    hide Count;
    AccentedFront(front, vow);
    assert front + vow + "^" == front + (vow + "^") && front + vow + "/" + "^" == front + (vow + "/^");
  }

  lemma AccentedFront(front: Word, vow: Word)
    requires vow in ["a", "i", "o", "e", "ai"]
    ensures Count(ACCENT, front + vow) == 0 <==> !exists i :: 0 <= i < |front| && front[i] in "/\\="
  {
    hide Count, IsAccent;
    CountAppend(ACCENT, front, vow);
    NoAccentIn(vow);
    if i :| 0 <= i < |front| && front[i] in "/\\=" {
      Marks(front[i]);
      CountSome(ACCENT, front, i);
    } else {
      forall i | 0 <= i < |front|
        ensures !ACCENT(front[i])
      {
        Marks(front[i]);
      }
      CountNone(ACCENT, front);
    }
  }

  lemma NoAccentIn(vow: Word)
    requires vow in ["a", "i", "o", "e", "ai"]
    ensures Count(ACCENT, vow) == 0
  {
    hide Count;
    CountNone(ACCENT, vow);
  }

  lemma Marks(c: char)
    ensures c in "/\\=" <==> ACCENT(c)
  {
  }

  /** What stands after the front: the vowel and its marks. */
  lemma VowelTail(front: Word, vow: Word) returns (tail: Word)
    requires vow != "" && forall i | 0 <= i < |vow| :: vow[i] != '\''
    ensures WithVowel(front, vow) == front + tail && (tail == vow || |front + tail| < MAXWORDSIZE)
    ensures forall i | 0 <= i < |tail| :: tail[i] != '\''
  {
    hide Count;
    var accent := if Count(ACCENT, front + vow) == 0 then "/" else "";
    var mark := if vow[0] == 'u' || vow[0] == 'i' || vow[0] == 'a' then "^" else "";
    tail := if WithVowel(front, vow) == front + vow then vow else vow + (accent + mark);
    assert front + (vow + (accent + mark)) == front + vow + accent + mark;
  }

  lemma TooLongEndsInAi(front: Word)
    requires |front| == MAXWORDSIZE - 2
    ensures Fits(front + "ai")
  {
    assert (front + "ai")[MAXWORDSIZE - 2..] == "ai";
  }

  lemma VowelRestored(w: Word, vow: Word)
    requires HasApostr(w) && |w| < MAXWORDSIZE && vow in ["a", "i", "o", "e", "ai"]
    ensures var r := WithVowel(w[..|w| - 1], vow); Fits(r) && Apostrophes(r) < Apostrophes(w)
  {
    hide Count, Apostrophes;
    var front := w[..|w| - 1];
    var tail := VowelTail(front, vow);
    VowelShrinks(w, tail);
    if |front + tail| >= MAXWORDSIZE {
      assert vow == "ai" && |front| == MAXWORDSIZE - 2;
      TooLongEndsInAi(front);
    }
  }

  /** When the word given back is not the word received: the word with its vowel restored is too
      long exactly if ai replaces the apostrophe of a word that fills its buffer; it loses a
      character then. */
  lemma OnlyAiIsCut(w: Word, vow: Word)
    requires HasApostr(w) && |w| < MAXWORDSIZE && vow in ["a", "i", "o", "e", "ai"]
    ensures var r := WithVowel(w[..|w| - 1], vow); Fit(r) == r <==> |w| < MAXWORDSIZE - 1 || vow != "ai"
  {
    assert |w[..|w| - 1]| + |vow| < MAXWORDSIZE || (|w| == MAXWORDSIZE - 1 && vow == "ai");
  }

  /** There are such words. */
  lemma AiCutExists()
    ensures var front := seq(MAXWORDSIZE - 2, i => 'b'); var w, r := front + "'", WithVowel(front, "ai");
      HasApostr(w) && |w| < MAXWORDSIZE && r == front + "ai" && Fit(r) == front + "a"
  {
    var front := seq(MAXWORDSIZE - 2, i => 'b');
    assert (front + "ai")[..MAXWORDSIZE - 1] == front + "a";
  }

  /** The aspirate before the apostrophe becomes smooth: q, x and f become t, k and p, and xq
      becomes kt. */
  function Smooth(s: Word): (r: Word)
    requires |s| >= 2
    ensures |r| == |s|
  {
    var p := |s| - 1;
    if s[p - 1] == 'q' then
      var r := s[p - 1 := 't'];
      if p >= 2 && r[p - 2] == 'x' then r[p - 2 := 'k'] else r
    else if s[p - 1] == 'x' then s[p - 1 := 'k']
    else s[p - 1 := 'p']
  }

  lemma RoughShrinks(s: Word)
    requires |s| >= 2 && ROUGH(s[|s| - 2])
    ensures var r := Smooth(s);
      && r[|s| - 1] == s[|s| - 1]
      && Apostrophes(r) == Apostrophes(s) && Count(ACCENT, r) == Count(ACCENT, s) && Count(ROUGH, r) < Count(ROUGH, s)
  {
    hide Count;
    var p := |s| - 1;
    var c := if s[p - 1] == 'q' then 't' else if s[p - 1] == 'x' then 'k' else 'p';
    SmoothOne(s, p - 1, c);
    var r := s[p - 1 := c];
    if c == 't' && p >= 2 && r[p - 2] == 'x' {
      SmoothOne(r, p - 2, 'k');
    }
  }

  lemma SmoothOne(s: Word, i: nat, c: char)
    requires i < |s| && ROUGH(s[i]) && c in "tkp"
    ensures var r := s[i := c];
      && Apostrophes(r) == Apostrophes(s) && Count(ACCENT, r) == Count(ACCENT, s) && Count(ROUGH, r) < Count(ROUGH, s)
  {
    CountUpdate(APOSTROPHE, s, i, c);
    CountUpdate(ACCENT, s, i, c);
    CountUpdate(ROUGH, s, i, c);
  }

  lemma BareShrinks(s: Word)
    requires HasApostr(s) && Count(ACCENT, s) > 0
    ensures var r := WithoutAccents(s);
      && HasApostr(r) && |r| <= |s| && Apostrophes(r) == Apostrophes(s)
      && Count(ACCENT, r) + Count(ROUGH, r) < Count(ACCENT, s) + Count(ROUGH, s)
  {
    StripKeeps(s, APOSTROPHE);
    StripKeeps(s, ROUGH);
  }
}
