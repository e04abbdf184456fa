/** The spelling rewrites of src/anal/checkstring.c and src/anal/latin_spelling_internal.h, and
    the measure that every one of them makes smaller. */
module Spelling {

  /** The size of a word buffer, terminator included. */
  const MAXWORDSIZE := 60

  type Word = string

  /** Xstrncpy into a word buffer. */
  function Fit(s: Word): (r: Word)
    ensures |r| < MAXWORDSIZE
  {
    if |s| < MAXWORDSIZE then s else s[..MAXWORDSIZE - 1]
  }

  // ----- characters

  predicate IsUpper(c: char) { 'A' <= c <= 'Z' }

  predicate IsLower(c: char) { 'a' <= c <= 'z' }

  predicate IsAlpha(c: char) { IsUpper(c) || IsLower(c) }

  function ToLower(c: char): char {
    if IsUpper(c) then c + ('a' - 'A') else c
  }

  function ToUpper(c: char): char {
    if IsLower(c) then c - ('a' - 'A') else c
  }

  predicate IsAccent(c: char) { c == '/' || c == '\\' || c == '=' }

  predicate LowVowel(c: char) { c in "aeiou" }

  /** LatVow on the character at position i; strchr also finds the terminator. */
  predicate LatVow(s: Word, i: nat)
    requires i <= |s|
  {
    i == |s| || s[i] in "aeiouAEIOU"
  }

  // ----- counting

  function Count(f: char -> bool, s: Word): nat {
    if s == "" then 0 else Count(f, s[..|s| - 1]) + if f(s[|s| - 1]) then 1 else 0
  }

  lemma {:induction false} CountPrefix(f: char -> bool, s: Word, k: nat)
    requires k <= |s|
    ensures Count(f, s[..k]) <= Count(f, s)
    decreases |s|
  {
    if k < |s| {
      CountPrefix(f, s[..|s| - 1], k);
      assert s[..|s| - 1][..k] == s[..k];
    } else {
      assert s[..k] == s;
    }
  }

  lemma {:induction false} CountAppend(f: char -> bool, s: Word, t: Word)
    ensures Count(f, s + t) == Count(f, s) + Count(f, t)
    decreases |t|
  {
    if t == "" {
      assert s + t == s;
    } else {
      CountAppend(f, s, t[..|t| - 1]);
      assert (s + t)[..|s + t| - 1] == s + t[..|t| - 1];
    }
  }

  lemma {:induction false} CountUpdate(f: char -> bool, s: Word, i: nat, c: char)
    requires i < |s|
    ensures Count(f, s[i := c]) == Count(f, s) - (if f(s[i]) then 1 else 0) + (if f(c) then 1 else 0)
    decreases |s|
  {
    var n := |s| - 1;
    if i < n {
      CountUpdate(f, s[..n], i, c);
      assert s[i := c][..n] == s[..n][i := c];
    } else {
      assert s[i := c][..n] == s[..n];
    }
  }

  lemma {:induction false} CountNone(f: char -> bool, s: Word)
    requires forall i | 0 <= i < |s| :: !f(s[i])
    ensures Count(f, s) == 0
    decreases |s|
  {
    if s != "" {
      CountNone(f, s[..|s| - 1]);
    }
  }

  lemma {:induction false} CountSome(f: char -> bool, s: Word, i: nat)
    requires i < |s| && f(s[i])
    ensures Count(f, s) > 0
    decreases |s|
  {
    if i < |s| - 1 {
      CountSome(f, s[..|s| - 1], i);
    }
  }

  // ----- the measure

  const APOSTROPHE := (c: char) => c == '\''
  const U_OR_I := (c: char) => c == 'u' || c == 'U' || c == 'i' || c == 'I'
  const ACCENT := (c: char) => IsAccent(c)
  const ROUGH := (c: char) => c == 'q' || c == 'x' || c == 'f'
  const TAU := (c: char) => c == 't'

  predicate StartsEx(s: Word) {
    |s| >= 3 && s[0] == 'e' && s[1] == 'x' && (s[2] == 'c' || s[2] == 'p' || s[2] == 't')
  }

  predicate EndsN(s: Word) {
    s != "" && s[|s| - 1] == 'n'
  }

  function Apostrophes(s: Word): nat {
    Count(APOSTROPHE, s)
  }

  /** Longer words, words that can take an s after ex, and words with a u, an i or a final n
      have more rewrites before them. */
  function Size(s: Word): (n: nat)
    ensures n > 0
  {
    1 + 2 * |s| + (if StartsEx(s) then 3 else 0) + Count(U_OR_I, s) + (if EndsN(s) then 1 else 0)
  }

  ghost predicate Smaller(c: Word, w: Word) {
    Apostrophes(c) < Apostrophes(w) || (Apostrophes(c) == Apostrophes(w) && Size(c) < Size(w))
  }

  ghost predicate AtMost(c: Word, w: Word) {
    Apostrophes(c) < Apostrophes(w) || (Apostrophes(c) == Apostrophes(w) && Size(c) <= Size(w))
  }

  lemma SmallerAtMost(b: Word, c: Word, w: Word)
    requires AtMost(c, w)
    ensures Smaller(b, c) ==> Smaller(b, w) && AtMost(b, w)
    ensures AtMost(b, c) ==> AtMost(b, w)
  {
  }

  /** Cutting characters off the end. */
  lemma CutShrinks(w: Word, k: nat)
    requires k < |w|
    ensures Smaller(w[..k], w)
  {
    CountPrefix(APOSTROPHE, w, k);
    CountPrefix(U_OR_I, w, k);
  }

  lemma FitAtMost(w: Word)
    ensures AtMost(Fit(w), w)
  {
    if |w| >= MAXWORDSIZE {
      CutShrinks(w, MAXWORDSIZE - 1);
    }
  }

  /** Hiding an s: a final n becomes s. */
  lemma FinalNShrinks(w: Word)
    requires |w| >= 2 && EndsN(w)
    ensures Smaller(w[|w| - 1 := 's'], w)
  {
    CountUpdate(APOSTROPHE, w, |w| - 1, 's');
    CountUpdate(U_OR_I, w, |w| - 1, 's');
  }

  /** One character of a word becomes a consonant of v and j: u becomes v, i becomes j. */
  lemma LetterShrinks(w: Word, i: nat, c: char)
    requires i < |w| && U_OR_I(w[i]) && c in "vVjJ"
    ensures Smaller(w[i := c], w)
  {
    CountUpdate(APOSTROPHE, w, i, c);
    CountUpdate(U_OR_I, w, i, c);
  }

  /** The s that is put into ex before c, p or t makes the word longer; what it can no longer
      do outweighs that. */
  lemma ExpandShrinks(w: Word)
    requires StartsEx(w)
    ensures Smaller(w[..2] + "s" + w[2..], w)
  {
    var r := w[..2] + "s" + w[2..];
    assert w == w[..2] + w[2..];
    CountAppend(APOSTROPHE, w[..2], w[2..]);
    CountAppend(U_OR_I, w[..2], w[2..]);
    assert r == w[..2] + ("s" + w[2..]);
    CountAppend(APOSTROPHE, w[..2], "s" + w[2..]);
    CountAppend(U_OR_I, w[..2], "s" + w[2..]);
    CountAppend(APOSTROPHE, "s", w[2..]);
    CountAppend(U_OR_I, "s", w[2..]);
    assert Count(APOSTROPHE, "s") == 0 && Count(U_OR_I, "s") == 0 by {
      CountNone(APOSTROPHE, "s");
      CountNone(U_OR_I, "s");
    }
  }

  /** A restored vowel in place of the final apostrophe, with whatever accent and quantity
      mark, makes the word longer but leaves it an apostrophe short. */
  lemma VowelShrinks(w: Word, tail: Word)
    requires w != "" && w[|w| - 1] == '\'' && forall i | 0 <= i < |tail| :: tail[i] != '\''
    ensures Apostrophes(w[..|w| - 1] + tail) < Apostrophes(w)
  {
    CountAppend(APOSTROPHE, w[..|w| - 1], tail);
    CountNone(APOSTROPHE, tail);
  }

  // ----- latin_spelling_internal.h

  // morpheus_latin_can_retry_j
  predicate CanRetryJ(s: Word, i: nat)
    requires i < |s|
  {
    s[i] == 'i' && i + 2 < |s| && LowVowel(s[i + 1])
  }

  /** morpheus_latin_expand_ex: the rest of the word moves up to make room. */
  method ExpandEx(word: Word) returns (r: Word, done: bool)
    requires |word| < MAXWORDSIZE
    ensures done <==> StartsEx(word) && |word| < MAXWORDSIZE - 1
    ensures r == if done then word[..2] + "s" + word[2..] else word
    ensures done ==> Smaller(r, word) && |r| < MAXWORDSIZE
  {
    if |word| < 3 || |word| >= MAXWORDSIZE - 1 || word[0] != 'e' || word[1] != 'x' ||
       (word[2] != 'c' && word[2] != 'p' && word[2] != 't') {
      return word, false;
    }
    ExpandShrinks(word);
    r := word[..2] + [word[2]] + word[2..];
    r := r[2 := 's'];
    done := true;
  }

  // ----- rewrites of checkstring.c

  /** What u2v may do to a word. */
  ghost predicate Hardened(was: Word, now: Word) {
    && |now| == |was|
    && forall i | 0 <= i < |was| :: now[i] == was[i] || (was[i] == 'u' && now[i] == 'v') || (was[i] == 'U' && now[i] == 'V')
  }

  lemma {:induction false} HardenedCount(was: Word, now: Word, f: char -> bool)
    requires Hardened(was, now)
    requires f == APOSTROPHE || f == U_OR_I
    ensures Count(f, now) <= Count(f, was)
    ensures f == APOSTROPHE ==> Count(f, now) == Count(f, was)
    ensures f == U_OR_I && was != now ==> Count(f, now) < Count(f, was)
    decreases |was|
  {
    if was != "" {
      var n := |was| - 1;
      HardenedCount(was[..n], now[..n], f);
      assert was == was[..n] + [was[n]] && now == now[..n] + [now[n]];
    }
  }

  lemma HardenedShrinks(was: Word, now: Word)
    requires Hardened(was, now)
    ensures AtMost(now, was) && (was != now ==> Smaller(now, was))
  {
    HardenedCount(was, now, APOSTROPHE);
    HardenedCount(was, now, U_OR_I);
  }

  /** A vowel, or the end of the word. */
  ghost predicate VowelAt(s: Word, i: nat)
    requires i <= |s|
  {
    i == |s| || s[i] in ['a', 'e', 'i', 'o', 'u', 'A', 'E', 'I', 'O', 'U']
  }

  lemma LatVowIs(s: Word, i: nat)
    requires i <= |s|
    ensures LatVow(s, i) <==> VowelAt(s, i)
  {
  }

  /** What u2v makes of the character i: it changes only a u before a vowel, and always a u
      between vowels, those before it hardened already. */
  ghost predicate FairlyHardened(word: Word, r: Word, i: nat)
    requires 0 < i < |word| == |r|
  {
    && (r[i] != word[i] ==> word[i] == 'u' && VowelAt(word, i + 1))
    && (word[i] == 'u' && VowelAt(r, i - 1) && VowelAt(word, i + 1) ==> r[i] == 'v')
  }

  /** What u2v makes of a word; its first letter changes if it is a u before a vowel. */
  ghost predicate HardenedBy(word: Word, r: Word) {
    && Hardened(word, r) && word != ""
    && (r[0] != word[0] <==> (word[0] == 'u' || word[0] == 'U') && VowelAt(word, 1))
    && forall i | 0 < i < |word| :: FairlyHardened(word, r, i)
  }

  /** u2v; the preverb and ending tables are not part of this model. */
  method U2V(word: Word) returns (r: Word, nchanges: nat)
    requires word != ""
    ensures HardenedBy(word, r) && (nchanges == 0 <==> r == word)
  {
    hide FairlyHardened;
    r, nchanges := word, 0;
    LatVowIs(word, 1);
    if (r[0] == 'U' || r[0] == 'u') && LatVow(r, 1) {
      r := r[0 := if r[0] == 'U' then 'V' else 'v'];
      nchanges := nchanges + 1;
    }
    var i := 1;
    while i < |r|
      invariant 1 <= i <= |r| && Hardened(word, r) && (nchanges == 0 <==> r == word)
      invariant r[i..] == word[i..]
      invariant r[0] != word[0] <==> (word[0] == 'u' || word[0] == 'U') && VowelAt(word, 1)
      invariant forall k | 0 < k < i :: FairlyHardened(word, r, k)
    {
      ghost var was := r;
      var more;
      assert r[i] == r[i..][0] == word[i..][0];
      r, more := U2VAt(r, i);
      nchanges := nchanges + more;
      U2VStep(word, was, r, i);
      i := i + 1;
    }
  }

  lemma U2VStep(word: Word, was: Word, now: Word, i: nat)
    requires 0 < i < |word| == |was| && was[i..] == word[i..]
    requires now == was || (was[i] == 'u' && VowelAt(was, i + 1) && now == was[i := 'v'])
    requires was[i] == 'u' && VowelAt(was, i - 1) && VowelAt(was, i + 1) ==> now == was[i := 'v']
    requires forall k | 0 < k < i :: FairlyHardened(word, was, k)
    ensures now[i + 1..] == word[i + 1..] && forall k | 0 < k < i + 1 :: FairlyHardened(word, now, k)
  {
    assert was[i] == was[i..][0] == word[i];
    if i + 1 < |word| {
      assert was[i + 1] == was[i..][1] == word[i + 1];
    }
    assert now[i + 1..] == was[i..][1..];
    forall k | 0 < k < i
      ensures FairlyHardened(word, now, k)
    {
      assert FairlyHardened(word, was, k);
    }
  }

  /** The body of the loop of u2v. */
  method U2VAt(word: Word, i: nat) returns (r: Word, changes: nat)
    requires 0 < i < |word|
    ensures r == word || (word[i] == 'u' && VowelAt(word, i + 1) && r == word[i := 'v'])
    ensures changes == 0 <==> r == word
    ensures word[i] == 'u' && VowelAt(word, i - 1) && VowelAt(word, i + 1) ==> r == word[i := 'v']
  {
    r, changes := word, 0;
    LatVowIs(word, i - 1);
    LatVowIs(word, i + 1);
    if word[i] == 'u' {
      LatVowIs(word[i := 'v'], i + 1);
    }
    if LatVow(r, i - 1) && LatVow(r, i + 1) && r[i] == 'u' {
      r := r[i := 'v'];
      changes := changes + 1;
    }
    var preverb := RawPreverb(r[..i]);
    if preverb && r[i] == 'u' && LatVow(r, i + 1) {
      r := r[i := 'v'];
      changes := changes + 1;
    }
    if r[i] == 'u' {
      var ending := KnownEnd(r[i + 1..]);
      if ending && LatVow(r, i + 1) {
        r := r[i := 'v'];
        changes := changes + 1;
      }
    }
  }

  method RawPreverb(s: Word) returns (r: bool) {
    r := *;
  }

  method KnownEnd(s: Word) returns (r: bool) {
    r := *;
  }

  /** The loop that turns every u to v in Italian. */
  method AllU2V(word: Word) returns (r: Word, count: nat)
    ensures Hardened(word, r) && (count == 0 <==> r == word)
    ensures forall i | 0 <= i < |r| :: r[i] != 'u' && r[i] != 'U'
  {
    r, count := word, 0;
    var i := 0;
    while i < |r|
      invariant 0 <= i <= |r| && Hardened(word, r) && (count == 0 <==> r == word)
      invariant forall k | i <= k < |r| :: r[k] == word[k]
      invariant forall k | 0 <= k < i :: r[k] != 'u' && r[k] != 'U'
    {
      if r[i] == 'U' {
        r := r[i := 'V'];
        count := count + 1;
      } else if r[i] == 'u' {
        r := r[i := 'v'];
        count := count + 1;
      }
      i := i + 1;
    }
  }

  /** A word is a stem and an ending, neither of them empty. */
  ghost predicate Splits(word: Word, stem: Word, ending: Word) {
    stem != "" && ending != "" && word == stem + ending
  }

  ghost predicate HasEnd(word: Word, ending: Word) {
    exists stem :: Splits(word, stem, ending)
  }

  /** cmpend of src/morphlib/cmpend.c: the stem is a word the recursion may go on with. */
  method CmpEnd(word: Word, ending: Word) returns (found: bool, stem: Word)
    ensures found <==> HasEnd(word, ending)
    ensures found ==> Splits(word, stem, ending) && Smaller(stem, word)
  {
    stem := "";
    if ending == "" || |ending| >= |word| || word[|word| - |ending|..] != ending {
      return false, stem;
    }
    stem := word[..|word| - |ending|];
    assert Splits(word, stem, ending);
    CutShrinks(word, |stem|);
    found := true;
  }

  /** The first place where two characters stand together. */
  ghost predicate FirstPair(s: Word, i: int, a: char, b: char) {
    && 0 <= i < |s| - 1 && s[i] == a && s[i + 1] == b
    && forall k | 0 <= k < i :: !(s[k] == a && s[k + 1] == b)
  }

  // has_tt
  method HasTt(s: Word) returns (found: bool, r: Word)
    ensures !found ==> r == s && forall i :: !FirstPair(s, i, 't', 't')
    ensures found ==> exists i :: FirstPair(s, i, 't', 't') && r == s[i := 's'][i + 1 := 's']
    ensures found ==> |r| == |s| && Count(TAU, r) < Count(TAU, s)
  {
    var i := 0;
    while i < |s|
      invariant 0 <= i <= |s| && forall k | 0 <= k < i && k + 1 < |s| :: !(s[k] == 't' && s[k + 1] == 't')
    {
      if s[i] == 't' && i + 1 < |s| && s[i + 1] == 't' {
        assert FirstPair(s, i, 't', 't');
        CountUpdate(TAU, s, i, 's');
        CountUpdate(TAU, s[i := 's'], i + 1, 's');
        return true, s[i := 's'][i + 1 := 's'];
      }
      i := i + 1;
    }
    return false, s;
  }

  // has_cun
  method HasCun(s: Word) returns (found: bool, r: Word)
    ensures |r| == |s|
    ensures !found ==> r == s && forall i :: !FirstPair(s, i, 'c', 'u')
    ensures found ==> exists i :: FirstPair(s, i, 'c', 'u') && r == s[i := 's']
  {
    var i := 0;
    while i < |s|
      invariant 0 <= i <= |s| && forall k | 0 <= k < i && k + 1 < |s| :: !(s[k] == 'c' && s[k + 1] == 'u')
    {
      if s[i] == 'c' && i + 1 < |s| && s[i + 1] == 'u' {
        assert FirstPair(s, i, 'c', 'u');
        return true, s[i := 's'];
      }
      i := i + 1;
    }
    return false, s;
  }

  function WithoutAccents(s: Word): Word {
    if s == "" then "" else WithoutAccents(s[..|s| - 1]) + if IsAccent(s[|s| - 1]) then "" else [s[|s| - 1]]
  }

  /** stripacc: from the end, every accent is squeezed out. */
  method StripAcc(word: Word) returns (r: Word)
    ensures r == WithoutAccents(word)
  {
    r := word;
    var length := |word|;
    assert word[..length] == word;
    ghost var kept := "";
    while length > 0
      invariant 0 <= length <= |word| && r == word[..length] + kept
      invariant WithoutAccents(word) == WithoutAccents(word[..length]) + kept
    {
      length := length - 1;
      assert word[..length + 1][..length] == word[..length];
      if IsAccent(r[length]) {
        r := r[..length] + r[length + 1..];
      } else {
        kept := [r[length]] + kept;
      }
    }
  }

  lemma {:induction false} StripKeeps(s: Word, f: char -> bool)
    requires forall c :: f(c) ==> !IsAccent(c)
    ensures Count(f, WithoutAccents(s)) == Count(f, s)
    ensures Count(ACCENT, WithoutAccents(s)) == 0 && |WithoutAccents(s)| <= |s|
    decreases |s|
  {
    if s != "" {
      var front := s[..|s| - 1];
      StripKeeps(front, f);
      CountAppend(f, WithoutAccents(front), [s[|s| - 1]]);
      CountAppend(ACCENT, WithoutAccents(front), [s[|s| - 1]]);
      assert WithoutAccents(front) + "" == WithoutAccents(front);
      assert [s[|s| - 1]][..0] == "";
    }
  }

  /** Nothing else is lost, and the rest keeps its order. */
  lemma {:induction false} BareAppend(s: Word, t: Word)
    ensures WithoutAccents(s + t) == WithoutAccents(s) + WithoutAccents(t)
    decreases |t|
  {
    if t == "" {
      assert s + t == s && WithoutAccents(s) + "" == WithoutAccents(s);
    } else {
      var u, last := t[..|t| - 1], if IsAccent(t[|t| - 1]) then "" else [t[|t| - 1]];
      BareAppend(s, u);
      BareFront(s + t);
      BareFront(t);
      assert (s + t)[..|s + t| - 1] == s + u;
      assert WithoutAccents(s) + WithoutAccents(u) + last == WithoutAccents(s) + (WithoutAccents(u) + last);
    }
  }

  lemma BareFront(s: Word)
    requires s != ""
    ensures WithoutAccents(s) == WithoutAccents(s[..|s| - 1]) + if IsAccent(s[|s| - 1]) then "" else [s[|s| - 1]]
  {
  }

  lemma BareOne(c: char)
    ensures WithoutAccents([c]) == if c in "/\\=" then "" else [c]
  {
    assert [c][..0] == "";
  }

  // beta_tolower
  method BetaToLower(word: Word) returns (r: Word)
    requires word != ""
    ensures r == word || exists s: nat :: Uncapitalised(word, s, r)
    ensures r == word <==> word[0] != '*' || forall k | 0 <= k < |word| :: !IsAlpha(word[k])
  {
    if word[0] != '*' {
      return word;
    }
    var s := 0;
    while s < |word| && !IsAlpha(word[s])
      invariant 0 <= s <= |word| && forall k | 0 <= k < s :: !IsAlpha(word[k])
    {
      s := s + 1;
    }
    if s == |word| {
      return word;
    }
    r := word[0 := word[s]];
    r := r[..s] + r[s + 1..];
    assert Uncapitalised(word, s, r);
  }

  lemma GreekLowered()
    ensures Uncapitalised("*)/andra", 3, "a)/ndra")
  {
    var s := "*)/andra";
    assert s[3] == 'a' && s[1..3] == ")/" && s[4..] == "ndra";
    assert "a" + ")/" + "ndra" == "a)/ndra";
  }

  /** The first letter replaces the capital marker; the breathing and accent between them
      follow it. */
  ghost predicate Uncapitalised(word: Word, s: nat, r: Word) {
    && 0 < s < |word| && IsAlpha(word[s]) && (forall k | 0 <= k < s :: !IsAlpha(word[k]))
    && r == [word[s]] + word[1..s] + word[s + 1..]
  }
}
