/** The lines of prepared stem sources: what tools/gener-source-preparer.c reads and writes, and
    what tools/gener-index-builder.c makes of it. */
module PreparedLines {
  import opened ByteStrings
  import opened GenerParse

  /** A pointer to a prefix, or NULL. */
  datatype Prefix = NoPrefix | Prefix(text: Bytes)

  // ----- what is written

  predicate NoBreak(s: Bytes) {
    forall i | 0 <= i < |s| :: s[i] != LF && s[i] != 0
  }

  /** A line the builder knows: a lemma or one of the five record tags. */
  ghost predicate Emitted(l: Bytes) {
    NoBreak(l) && (LE_TAG <= l || RecordKind(l) != 0)
  }

  /** Lines as bytes. */
  function Written(lines: seq<Bytes>): Bytes {
    if lines == [] then [] else (lines[0] + [LF]) + Written(lines[1..])
  }

  lemma {:induction false} WrittenAppend(a: seq<Bytes>, b: seq<Bytes>)
    ensures Written(a + b) == Written(a) + Written(b)
    decreases |a|
  {
    if a == [] {
      assert a + b == b;
    } else {
      WrittenAppend(a[1..], b);
      assert (a + b)[1..] == a[1..] + b;
    }
  }

  lemma WrittenOne(lines: seq<Bytes>, l: Bytes)
    ensures Written(lines + [l]) == Written(lines) + (l + [LF])
  {
    WrittenAppend(lines, [l]);
    var one: seq<Bytes> := [l];
    assert one[1..] == [];
  }

  // ----- the builder takes it

  /** What the builder's parser may make of an emitted line. */
  ghost predicate Tolerable(p: Parse) {
    p.Failed? ==> p.error == LINE_TOO_LONG || p.error == INVALID_LEMMA || p.error == INCOMPLETE_RECORD
  }

  lemma {:induction false} ScanFinds(s: Bytes, k: nat, n: nat)
    requires k < n <= |s| && k < LINE_CAPACITY - 1 && s[n - 1] == LF && forall i | k <= i < n - 1 :: s[i] != LF
    ensures Scan(s, k) == if n < LINE_CAPACITY then n else LINE_CAPACITY - 1
    decreases n - k
  {
    if k + 1 < n && k + 1 < LINE_CAPACITY - 1 {
      ScanFinds(s, k + 1, n);
    }
  }

  lemma {:induction false} CStringWhole(s: Bytes, at: nat)
    requires at <= |s| && forall i | at <= i < |s| :: s[i] != 0
    ensures CString(s, at) == s[at..]
    decreases |s| - at
  {
    if at < |s| {
      CStringWhole(s, at + 1);
    }
  }

  /** Trimming a tagged line leaves the tag. */
  lemma {:induction false} TrimKeepsTag(s: Bytes)
    requires |s| >= 4 && !White(s[0]) && !White(s[3])
    ensures TrimStart(s) == s && s[..4] <= TrimEnd(s) <= s
    decreases |s|
  {
    if White(s[|s| - 1]) {
      TrimKeepsTag(s[..|s| - 1]);
      assert s[..|s| - 1][..4] == s[..4];
    }
  }

  lemma EmittedTag(l: Bytes)
    requires Emitted(l)
    ensures |l| >= 4 && l[0] == 58 && l[1] != 100 && l[3] == 58
    ensures !White(l[0]) && !White(l[3])
  {
  }

  /** The first line of what was written, as fgets returns it. */
  lemma FirstWritten(lines: seq<Bytes>)
    requires lines != [] && Emitted(lines[0])
    ensures var out, l := Written(lines), lines[0] + [LF];
      && out != []
      && (|l| < LINE_CAPACITY ==> Lines(out) == [l] + Lines(Written(lines[1..])))
      && (|l| >= LINE_CAPACITY ==> Lines(out) != [] && Lines(out)[0] == l[..LINE_CAPACITY - 1])
  {
    var out, l := Written(lines), lines[0] + [LF];
    assert out[..|l|] == l && out[|l|..] == Written(lines[1..]);
    forall i | 0 <= i < |l| - 1
      ensures out[i] != LF
    {
      assert out[i] == l[i] == lines[0][i];
    }
    assert out[|l| - 1] == l[|l| - 1];
    ScanFinds(out, 0, |l|);
    var n := FirstLine(out);
    assert out[..n] == l[..n];
    CStringWhole(l[..n], 0);
    assert l[..n][0..] == l[..n];
    if |l| < LINE_CAPACITY {
      assert l[..n] == l;
    }
  }

  /** A line the builder takes: short enough for its buffer, with a key that canonicalisation does
      not empty, or with a stem and keys. */
  ghost predicate Taken(l: Bytes) {
    var content := Trimmed(l + [LF]);
    && |l| < LINE_CAPACITY - 1
    && (LE_TAG <= content ==> CanonicalKey(Trimmed(content[4..])) != [])
    && (RecordKind(content) != 0 ==> RecordOf(content).stem != [] && RecordOf(content).keys != [])
  }

  /** Trimming a tagged line leaves its tag. */
  lemma ContentTag(l: Bytes)
    requires Emitted(l)
    ensures var content := Trimmed(l + [LF]);
      |content| >= 4 && (LE_TAG <= l <==> LE_TAG <= content) && RecordKind(content) == RecordKind(l)
      && content[0] == 58 && !(DE_TAG <= content) && !(LE_TAG <= content && RecordKind(content) != 0)
  {
    hide TrimStart, TrimEnd;
    EmittedTag(l);
    var s := l + [LF];
    TrimKeepsTag(s);
    var content := Trimmed(s);
    assert content[..4] == s[..4] == l[..4];
    assert content[0] == l[0] && content[1] == l[1];
  }

  /** One emitted line, after a lemma unless it is one. */
  lemma FeedEmitted(p: Parse, l: Bytes)
    requires p.Reading? && Usable(p) && Emitted(l) && (p.open || LE_TAG <= l)
    ensures Tolerable(Feed(p, l + [LF])) && (Feed(p, l + [LF]).Reading? ==> Feed(p, l + [LF]).open)
    ensures |l| >= LINE_CAPACITY - 1 ==> Feed(p, l[..LINE_CAPACITY - 1]) == Failed(LINE_TOO_LONG)
    ensures |l| < LINE_CAPACITY - 1 ==> (Feed(p, l + [LF]).Reading? <==> Taken(l))
  {
    hide Trimmed, RecordOf, CanonicalKey;
    ContentTag(l);
    if |l| >= LINE_CAPACITY - 1 {
      assert l[..LINE_CAPACITY - 1][LINE_CAPACITY - 2] == l[LINE_CAPACITY - 2] != LF;
    }
  }

  /** The builder takes all lines that were emitted exactly if it takes each of them; it never
      finds a record before a lemma or an unexpanded record in them. */
  lemma {:induction false} BuilderTakes(p: Parse, lines: seq<Bytes>)
    requires p.Reading? && Usable(p)
    requires (forall i {:trigger lines[i]} | 0 <= i < |lines| :: Emitted(lines[i]))
    requires lines != [] ==> p.open || LE_TAG <= lines[0]
    ensures Tolerable(FeedAll(p, Lines(Written(lines))))
    ensures FeedAll(p, Lines(Written(lines))).Reading? <==> forall i {:trigger lines[i]} | 0 <= i < |lines| :: Taken(lines[i])
    decreases |lines|
  {
    hide Feed, Emitted, CString, Taken;
    if lines == [] {
    } else {
      var l, rest := lines[0], lines[1..];
      FirstWritten(lines);
      FeedEmitted(p, l);
      var all := Lines(Written(lines));
      assert forall i | 0 <= i < |rest| :: rest[i] == lines[i + 1];
      assert (forall i {:trigger lines[i]} | 0 <= i < |lines| :: Taken(lines[i])) <==>
             Taken(l) && forall i {:trigger rest[i]} | 0 <= i < |rest| :: Taken(rest[i]) by {
        TakenRest(lines);
      }
      if |l| + 1 < LINE_CAPACITY {
        assert all[0] == l + [LF] && all[1..] == Lines(Written(rest));
        var q := Feed(p, l + [LF]);
        if q.Reading? {
          BuilderTakes(q, rest);
        }
      } else {
        assert (l + [LF])[..LINE_CAPACITY - 1] == l[..LINE_CAPACITY - 1];
        TooLongIsNotTaken(l);
      }
    }
  }

  lemma TakenRest(lines: seq<Bytes>)
    requires lines != []
    ensures var rest := lines[1..];
      (forall i {:trigger lines[i]} | 0 <= i < |lines| :: Taken(lines[i])) <==>
      Taken(lines[0]) && forall i {:trigger rest[i]} | 0 <= i < |rest| :: Taken(rest[i])
  {
    hide Taken;
    var rest := lines[1..];
    if Taken(lines[0]) && forall i {:trigger rest[i]} | 0 <= i < |rest| :: Taken(rest[i]) {
      forall i | 0 <= i < |lines|
        ensures Taken(lines[i])
      {
        if i > 0 {
          assert rest[i - 1] == lines[i];
        }
      }
    }
  }

  lemma TooLongIsNotTaken(l: Bytes)
    ensures |l| >= LINE_CAPACITY - 1 ==> !Taken(l)
  {
  }

  // ----- tokens

  function SkipToken(s: Bytes, k: nat): (e: nat)
    requires k <= |s|
    ensures k <= e <= |s|
    decreases |s| - k
  {
    if k < |s| && !Blank(s[k]) then SkipToken(s, k + 1) else k
  }

  function SkipBlanks(s: Bytes, k: nat): (e: nat)
    requires k <= |s|
    ensures k <= e <= |s|
    decreases |s| - k
  {
    if k < |s| && Blank(s[k]) then SkipBlanks(s, k + 1) else k
  }

  /** The first two tokens of a line and what stands between them; nothing if there is no
      second one. */
  function BasePrefix(line: Bytes): Prefix {
    var first := SkipToken(line, 0);
    var second := SkipBlanks(line, first);
    var end := SkipToken(line, second);
    if first == |line| || second == end then NoPrefix else Prefix(line[..end])
  }

  ghost predicate NoBlank(s: Bytes) {
    forall i | 0 <= i < |s| :: s[i] != 32 && s[i] != 9
  }

  /** A line that begins with two tokens a and b. */
  ghost predicate TwoTokens(line: Bytes, a: Bytes, gap: Bytes, b: Bytes, rest: Bytes) {
    && line == a + gap + b + rest
    && a != [] && NoBlank(a) && gap != [] && Blanks(gap) && b != [] && NoBlank(b)
    && (rest != [] ==> rest[0] == 32 || rest[0] == 9)
  }

  lemma {:induction false} SkipTokenTo(s: Bytes, k: nat, e: nat)
    requires k <= e <= |s| && NoBlank(s[k..e]) && (e < |s| ==> s[e] == 32 || s[e] == 9)
    ensures SkipToken(s, k) == e
    decreases e - k
  {
    if k < e {
      assert s[k..e][0] == s[k] && s[k..e][1..] == s[k + 1..e];
      SkipTokenTo(s, k + 1, e);
    }
  }

  lemma {:induction false} SkipBlanksTo(s: Bytes, k: nat, e: nat)
    requires k <= e <= |s| && Blanks(s[k..e]) && (e < |s| ==> s[e] != 32 && s[e] != 9)
    ensures SkipBlanks(s, k) == e
    decreases e - k
  {
    if k < e {
      assert s[k..e][0] == s[k] && s[k..e][1..] == s[k + 1..e];
      SkipBlanksTo(s, k + 1, e);
    }
  }

  lemma {:induction false} SkipTokenIs(s: Bytes, k: nat)
    requires k <= |s|
    ensures var e := SkipToken(s, k); NoBlank(s[k..e]) && (e < |s| ==> s[e] == 32 || s[e] == 9)
    decreases |s| - k
  {
    if k < |s| && !Blank(s[k]) {
      SkipTokenIs(s, k + 1);
      assert s[k..SkipToken(s, k)] == [s[k]] + s[k + 1..SkipToken(s, k)];
    }
  }

  lemma {:induction false} SkipBlanksIs(s: Bytes, k: nat)
    requires k <= |s|
    ensures var e := SkipBlanks(s, k); Blanks(s[k..e]) && (e < |s| ==> s[e] != 32 && s[e] != 9)
    decreases |s| - k
  {
    if k < |s| && Blank(s[k]) {
      SkipBlanksIs(s, k + 1);
      assert s[k..SkipBlanks(s, k)] == [s[k]] + s[k + 1..SkipBlanks(s, k)];
    }
  }

  /** The prefix is both tokens and what stands between them. */
  lemma PrefixIs(line: Bytes, a: Bytes, gap: Bytes, b: Bytes, rest: Bytes)
    requires TwoTokens(line, a, gap, b, rest)
    ensures BasePrefix(line) == Prefix(a + gap + b)
  {
    hide SkipToken, SkipBlanks;
    var i, j, k := |a|, |a + gap|, |a + gap + b|;
    assert line[0..i] == a && line[i..j] == gap && line[j..k] == b && line[..k] == a + gap + b;
    assert line[i] == gap[0] && line[j] == b[0];
    assert rest != [] ==> line[k] == rest[0];
    SkipTokenTo(line, 0, i);
    SkipBlanksTo(line, i, j);
    SkipTokenTo(line, j, k);
  }

  /** There is one exactly for a line that begins with two tokens, unless blanks come first. */
  lemma PrefixNeedsTwo(line: Bytes)
    requires line != [] && line[0] != 32 && line[0] != 9
    ensures BasePrefix(line).Prefix? <==> exists a, gap, b, rest :: TwoTokens(line, a, gap, b, rest)
  {
    hide SkipToken, SkipBlanks;
    if BasePrefix(line).Prefix? {
      var i := SkipToken(line, 0);
      var j := SkipBlanks(line, i);
      var k := SkipToken(line, j);
      SkipTokenIs(line, 0);
      SkipBlanksIs(line, i);
      SkipTokenIs(line, j);
      assert line == line[..i] + line[i..j] + line[j..k] + line[k..];
      assert line[0..i] == line[..i];
      assert TwoTokens(line, line[..i], line[i..j], line[j..k], line[k..]);
    } else if a, gap, b, rest :| TwoTokens(line, a, gap, b, rest) {
      PrefixIs(line, a, gap, b, rest);
    }
  }

  lemma PrefixKeepsTag(line: Bytes)
    requires RecordKind(line) != 0 && NoBreak(line) && BasePrefix(line).Prefix?
    ensures var p := BasePrefix(line).text; RecordKind(p) == RecordKind(line) && NoBreak(p)
  {
    assert SkipToken(line, 0) == SkipToken(line, 2) == SkipToken(line, 4);
    var p := BasePrefix(line).text;
    assert p[..4] == line[..4];
  }

  /** The next token. */
  function FirstToken(s: Bytes): Bytes {
    s[SkipBlanks(s, 0)..SkipToken(s, SkipBlanks(s, 0))]
  }

  function AfterToken(s: Bytes): Bytes {
    s[SkipToken(s, SkipBlanks(s, 0))..]
  }

  /** The next token of a text, and what stands behind it. */
  lemma TokenIs(lead: Bytes, token: Bytes, rest: Bytes)
    requires Blanks(lead) && token != [] && NoBlank(token) && (rest != [] ==> rest[0] == 32 || rest[0] == 9)
    ensures FirstToken(lead + token + rest) == token && AfterToken(lead + token + rest) == rest
  {
    hide SkipToken, SkipBlanks;
    var s, i, j := lead + token + rest, |lead|, |lead + token|;
    assert s[0..i] == lead && s[i] == token[0] && s[i..j] == token && s[j..] == rest;
    assert rest != [] ==> s[j] == rest[0];
    SkipBlanksTo(s, 0, i);
    SkipTokenTo(s, i, j);
  }

  /** Every text is made so, unless it is all blanks. */
  lemma TokenSplits(s: Bytes) returns (lead: Bytes)
    ensures Blanks(lead) && s == lead + FirstToken(s) + AfterToken(s) && NoBlank(FirstToken(s))
    ensures AfterToken(s) != [] ==> AfterToken(s)[0] == 32 || AfterToken(s)[0] == 9
  {
    hide SkipToken, SkipBlanks;
    var i := SkipBlanks(s, 0);
    var j := SkipToken(s, i);
    SkipBlanksIs(s, 0);
    SkipTokenIs(s, i);
    lead := s[0..i];
    assert s == s[0..i] + s[i..j] + s[j..];
  }

  /** take_token: the next token, if it fits. */
  method TakeToken(s: Bytes, capacity: nat) returns (ok: bool, token: Bytes, rest: Bytes)
    ensures ok <==> 0 < |FirstToken(s)| < capacity
    ensures ok ==> token == FirstToken(s) && rest == AfterToken(s)
  {
    var start := 0;
    while start < |s| && Blank(s[start])
      invariant 0 <= start <= |s| && SkipBlanks(s, start) == SkipBlanks(s, 0)
    {
      start := start + 1;
    }
    var length := 0;
    while start + length < |s| && !Blank(s[start + length])
      invariant 0 <= length <= |s| - start && SkipToken(s, start + length) == SkipToken(s, start)
      decreases |s| - start - length
    {
      length := length + 1;
    }
    token, rest := [], [];
    if length == 0 || length >= capacity {
      return false, token, rest;
    }
    return true, s[start..start + length], s[start + length..];
  }

  predicate NameChar(b: Byte) {
    97 <= b <= 122 || 65 <= b <= 90 || 48 <= b <= 57 || b == 95
  }

  // ----- fgets lines

  /** A line of the file has no break but at its end. */
  lemma LineBreaks(input: Bytes, at: nat)
    requires at < |input|
    ensures var l := LineAt(input, at); Text(l) && forall i | 0 <= i < |l| - 1 :: l[i] != LF
  {
    var n := LineLength(input, at);
    var rest, piece := input[at..], input[at..at + n];
    ScanStops(rest, 0);
    CStringText(piece, 0);
    CStringPart(piece, 0);
    forall i | 0 <= i < n - 1
      ensures piece[i] != LF
    {
      assert piece[i] == rest[i];
    }
  }

  lemma {:induction false} ScanStops(s: Bytes, k: nat)
    requires k < |s|
    ensures forall i | k <= i < Scan(s, k) - 1 :: s[i] != LF
    decreases |s| - k
  {
    if !(s[k] == LF || k + 1 == |s| || k + 1 >= LINE_CAPACITY - 1) {
      ScanStops(s, k + 1);
    }
  }

  lemma {:induction false} CStringPart(s: Bytes, at: nat)
    requires at <= |s|
    ensures |CString(s, at)| <= |s| - at && CString(s, at) == s[at..at + |CString(s, at)|]
    decreases |s| - at
  {
    if at < |s| && s[at] != 0 {
      CStringPart(s, at + 1);
    }
  }

  lemma {:induction false} TrimEndClean(s: Bytes)
    requires Text(s) && forall i | 0 <= i < |s| - 1 :: s[i] != LF
    ensures NoBreak(TrimEnd(s))
    decreases |s|
  {
    if s != [] && White(s[|s| - 1]) {
      TrimEndClean(s[..|s| - 1]);
    }
  }

  lemma {:induction false} TrimStartTail(s: Bytes)
    ensures |TrimStart(s)| <= |s| && TrimStart(s) == s[|s| - |TrimStart(s)|..]
    decreases |s|
  {
    if s != [] && Blank(s[0]) {
      TrimStartTail(s[1..]);
    }
  }

  /** The content of a line is free of breaks. */
  lemma ContentClean(l: Bytes)
    requires Text(l) && forall i | 0 <= i < |l| - 1 :: l[i] != LF
    ensures NoBreak(Trimmed(l))
  {
    TrimStartTail(l);
    TrimEndClean(TrimStart(l));
  }
}
