/** Keyword occurrences inside a label: what tkparse looks for (src/auto/token.c:665-706). */
module Occurrences {
  import opened Labels

  /** A keyword occupies positions i up to j of the text. */
  ghost predicate Occurs(D: Dictionary, text: Label, i: int, j: int) {
    0 <= i < j <= |text| && text[i..j] in D
  }

  ghost predicate NoneOccurs(D: Dictionary, text: Label) {
    forall i, j :: !Occurs(D, text, i, j)
  }

  /** The leftmost occurrence, and the longest of those. */
  ghost predicate LeftmostLongest(D: Dictionary, text: Label, i: int, j: int) {
    && Occurs(D, text, i, j)
    && forall i', j' :: Occurs(D, text, i', j') ==> i < i' || (i == i' && j' <= j)
  }

  lemma NoneInSuffix(D: Dictionary, text: Label, s: Label)
    requires NoneOccurs(D, text) && IsSuffix(s, text)
    ensures NoneOccurs(D, s)
  {
    forall i, j
      ensures !Occurs(D, s, i, j)
    {
      if 0 <= i < j <= |s| {
        var d := |text| - |s|;
        assert s[i..j] == text[d + i..d + j];
        assert !Occurs(D, text, d + i, d + j);
      }
    }
  }

  /** An occurrence in a text with one more letter is an old one or ends at the new letter. */
  lemma OccursExt(D: Dictionary, w: Label, c: Letter, i: int, j: int)
    ensures j <= |w| ==> (Occurs(D, Ext(w, c), i, j) <==> Occurs(D, w, i, j))
    ensures j == |w| + 1 ==> (Occurs(D, Ext(w, c), i, j) <==> 0 <= i <= |w| && Ext(w, c)[i..] in D)
  {
    var u := Ext(w, c);
    if 0 <= i < j <= |w| {
      assert u[i..j] == w[i..j];
    }
    if 0 <= i <= |w| && j == |w| + 1 {
      assert u[i..j] == u[i..];
    }
  }

  /** The longest keyword ending at the end of u starts leftmost. */
  lemma TokenLeftmost(D: Dictionary, u: Label, i: int)
    requires 0 <= i < |u| && u[i..] in D
    ensures LongestSuffix(D.Keys, u) != [] && |u| - |LongestSuffix(D.Keys, u)| <= i
  {
    assert u[|u| - |u[i..]|..] == u[i..];
    LongestSuffixIsLongest(D.Keys, u, u[i..]);
  }

  lemma TokenOccurs(D: Dictionary, u: Label)
    requires LongestSuffix(D.Keys, u) != []
    ensures var s := |u| - |LongestSuffix(D.Keys, u)|;
      0 <= s && Occurs(D, u, s, |u|) && u[s..] == LongestSuffix(D.Keys, u)
  {
    LongestSuffixIsLongest(D.Keys, u, []);
    var s := |u| - |LongestSuffix(D.Keys, u)|;
    assert u[s..|u|] == u[s..];
  }

  /** No keyword ends at the new letter: nothing changes. */
  lemma ExtQuiet(D: Dictionary, w: Label, c: Letter)
    requires LongestSuffix(D.Keys, Ext(w, c)) == []
    ensures NoneOccurs(D, w) ==> NoneOccurs(D, Ext(w, c))
    ensures forall i, j :: LeftmostLongest(D, w, i, j) ==> LeftmostLongest(D, Ext(w, c), i, j)
  {
    var u := Ext(w, c);
    forall i, j
      ensures Occurs(D, u, i, j) <==> Occurs(D, w, i, j)
    {
      OccursExt(D, w, c, i, j);
      if j == |u| && 0 <= i < |u| && u[i..] in D {
        TokenLeftmost(D, u, i);
      }
    }
  }

  /** A token ends at the new letter. */
  lemma ExtToken(D: Dictionary, w: Label, c: Letter, i: int, j: int)
    requires LongestSuffix(D.Keys, Ext(w, c)) != []
    ensures var u := Ext(w, c);
      var s := |u| - |LongestSuffix(D.Keys, u)|;
      && (NoneOccurs(D, w) ==> LeftmostLongest(D, u, s, |u|))
      && (LeftmostLongest(D, w, i, j) && s <= i ==> LeftmostLongest(D, u, s, |u|))
      && (LeftmostLongest(D, w, i, j) && s > i ==> LeftmostLongest(D, u, i, j))
  {
    var u := Ext(w, c);
    var s := |u| - |LongestSuffix(D.Keys, u)|;
    TokenOccurs(D, u);
    forall i', j' | Occurs(D, u, i', j')
      ensures if j' <= |w| then Occurs(D, w, i', j') else j' == |u| && s <= i'
    {
      OccursExt(D, w, c, i', j');
      if j' == |u| {
        TokenLeftmost(D, u, i');
      }
    }
    OccursExt(D, w, c, i, j);
  }

  // ----- from the label to the text

  /** Every occurrence in the text lies inside its last characters, those of the label w. */
  ghost predicate Confined(D: Dictionary, text: Label, w: Label) {
    forall i, j :: Occurs(D, text, i, j) ==> |text| - |w| <= i
  }

  /** tkparse reports nothing on c: c extends the label of the text, or no keyword occurs in it. */
  ghost predicate Quiet(D: Dictionary, K: set<Label>, text: Label, c: Letter) {
    Ext(LongestSuffix(K, text), c) in K || NoneOccurs(D, LongestSuffix(K, text))
  }

  lemma InLabel(D: Dictionary, text: Label, w: Label, i: int, j: int)
    requires IsSuffix(w, text) && |text| - |w| <= i
    ensures var d := |text| - |w|; Occurs(D, text, i, j) <==> Occurs(D, w, i - d, j - d)
  {
    var d := |text| - |w|;
    if i < j <= |text| {
      assert w[i - d..j - d] == text[i..j];
    }
  }

  lemma LeftmostInText(D: Dictionary, text: Label, w: Label, i: int, j: int)
    requires IsSuffix(w, text) && Confined(D, text, w) && LeftmostLongest(D, w, i, j)
    ensures var d := |text| - |w|; LeftmostLongest(D, text, d + i, d + j)
  {
    var d := |text| - |w|;
    InLabel(D, text, w, d + i, d + j);
    forall i', j' | Occurs(D, text, i', j')
      ensures d + i < i' || (d + i == i' && j' <= d + j)
    {
      InLabel(D, text, w, i', j');
    }
  }

  /** A keyword that ends at the end of a text lies inside the label the text leads to. */
  lemma EndsInLabel(D: Dictionary, K: set<Label>, text: Label, i: int)
    requires D.Keys <= K && Occurs(D, text, i, |text|)
    ensures |text| - |LongestSuffix(K, text)| <= i
  {
    assert text[i..|text|] == text[i..];
    assert text[|text| - |text[i..]|..] == text[i..];
    LongestSuffixIsLongest(K, text, text[i..]);
  }

  /** As long as nothing is reported, no occurrence is passed over. */
  lemma ConfinedStep(D: Dictionary, K: set<Label>, text: Label, c: Letter)
    requires PrefixClosed(K) && D.Keys <= K && Confined(D, text, LongestSuffix(K, text))
    requires Quiet(D, K, text, c)
    ensures Confined(D, Ext(text, c), LongestSuffix(K, Ext(text, c)))
  {
    var u, w := Ext(text, c), LongestSuffix(K, text);
    LongestSuffixIsLongest(K, text, []);
    LongestSuffixStep(K, text, c);
    forall i, j | Occurs(D, u, i, j)
      ensures |u| - |LongestSuffix(K, u)| <= i
    {
      OccursExt(D, text, c, i, j);
      if j == |u| {
        EndsInLabel(D, K, u, i);
      } else {
        InLabel(D, text, w, i, j);
      }
    }
  }

  // ----- from the text read to the whole text

  /** The leftmost longest occurrence, whatever follows. */
  ghost predicate ForGood(D: Dictionary, text: Label, i: int, j: int) {
    forall more :: LeftmostLongest(D, text + more, i, j)
  }

  lemma OccursFront(D: Dictionary, text: Label, more: Label, i: int, j: int)
    requires j <= |text|
    ensures Occurs(D, text + more, i, j) <==> Occurs(D, text, i, j)
  {
    if 0 <= i < j {
      assert (text + more)[i..j] == text[i..j];
    }
  }

  /** An occurrence that runs over the end of a text starts inside the label the text leads to. */
  lemma RunsOver(D: Dictionary, text: Label, more: Label, i: int, j: int)
    requires Occurs(D, text + more, i, j) && i < |text| <= j
    ensures |text| - |LongestSuffix(Prefixes(D), text)| <= i
  {
    var k, part := (text + more)[i..j], text[i..];
    assert part == k[..|part|];
    assert part <= k && k in D;
    assert Extends(D, part);
    assert text[|text| - |part|..] == part;
    LongestSuffixIsLongest(Prefixes(D), text, part);
  }

  /** The label of the text is the beginning of a keyword that can still come. */
  lemma CanStillCome(D: Dictionary, text: Label) returns (more: Label)
    requires LongestSuffix(Prefixes(D), text) != []
    ensures Occurs(D, text + more, |text| - |LongestSuffix(Prefixes(D), text)|, |text + more|)
  {
    LongestSuffixIsLongest(Prefixes(D), text, []);
    var w := LongestSuffix(Prefixes(D), text);
    assert Extends(D, w);
    var k :| k in D && w <= k;
    more := k[|w|..];
    var s := |text| - |w|;
    assert (text + more)[s..|text + more|] == w + more == k;
  }

  lemma StaysLeftmost(D: Dictionary, text: Label, c: Letter, more: Label, i: int, j: int)
    requires LeftmostLongest(D, text, i, j) && i < |text| + 1 - |LongestSuffix(Prefixes(D), Ext(text, c))|
    ensures LeftmostLongest(D, Ext(text, c) + more, i, j)
  {
    hide Prefixes, LongestSuffix;
    var u, rest := Ext(text, c), [c] + more;
    assert u + more == text + rest;
    OccursFront(D, text, rest, i, j);
    forall i', j' | Occurs(D, u + more, i', j')
      ensures i < i' || (i == i' && j' <= j)
    {
      if j' <= |text| {
        OccursFront(D, text, rest, i', j');
      } else if i' <= i {
        RunsOver(D, u, more, i', j');
      }
    }
  }

  /** The leftmost longest occurrence in what was read before the last character is that of the
      whole text, however it goes on, exactly if it starts before the label the last character
      leads to. */
  lemma ForGoodIff(D: Dictionary, text: Label, c: Letter, i: int, j: int)
    requires LeftmostLongest(D, text, i, j)
    ensures ForGood(D, Ext(text, c), i, j) <==> i < |text| + 1 - |LongestSuffix(Prefixes(D), Ext(text, c))|
  {
    hide LongestSuffix, Prefixes;
    var u := Ext(text, c);
    if i < |u| - |LongestSuffix(Prefixes(D), u)| {
      forall more
        ensures LeftmostLongest(D, u + more, i, j)
      {
        StaysLeftmost(D, text, c, more, i, j);
      }
    } else {
      LongestSuffixIsLongest(Prefixes(D), u, []);
      var more := CanStillCome(D, u);
      assert !LeftmostLongest(D, u + more, i, j);
    }
  }
}
