/** parse_source of tools/gener-index-builder.c: from the bytes of a stem-source file to source
    blocks, and the key canonicalisation it shares with src/api/generation.c. */
module GenerParse {
  import opened ByteStrings
  import opened GenerBlocks
  import opened GenerLayout

  const LF: Byte := 10
  const LINE_CAPACITY := 8192

  predicate Blank(b: Byte) {
    b == 32 || b == 9
  }

  predicate White(b: Byte) {
    b == 32 || b == 9 || b == 13 || b == 10
  }

  /** The characters '-', '_', '^' and '+'. */
  predicate Marker(b: Byte) {
    b == 45 || b == 95 || b == 94 || b == 43
  }

  const BANG: Byte := 33
  const HASH: Byte := 35
  const QUESTION: Byte := 63
  const SEMICOLON: Byte := 59
  const AT_SIGN: Byte := 64
  /** ":le:", ":de:" and the five record tags */
  const LE_TAG: Bytes := [58, 108, 101, 58]
  const DE_TAG: Bytes := [58, 100, 101, 58]
  const NO_TAG: Bytes := [58, 110, 111, 58]
  const AJ_TAG: Bytes := [58, 97, 106, 58]
  const VS_TAG: Bytes := [58, 118, 115, 58]
  const WD_TAG: Bytes := [58, 119, 100, 58]
  const VB_TAG: Bytes := [58, 118, 98, 58]

  // ----- pieces of a line

  function TrimStart(s: Bytes): Bytes {
    if s != [] && Blank(s[0]) then TrimStart(s[1..]) else s
  }

  function TrimEnd(s: Bytes): Bytes {
    if s != [] && White(s[|s| - 1]) then TrimEnd(s[..|s| - 1]) else s
  }

  function Trimmed(s: Bytes): Bytes {
    TrimEnd(TrimStart(s))
  }

  /** The part before the first white space. */
  function Word(s: Bytes): Bytes {
    if s == [] || White(s[0]) then [] else [s[0]] + Word(s[1..])
  }

  function Strip(s: Bytes): Bytes {
    if s == [] then [] else Strip(s[..|s| - 1]) + if Marker(s[|s| - 1]) then [] else [s[|s| - 1]]
  }

  function DropBang(s: Bytes): Bytes {
    if s != [] && s[0] == BANG then s[1..] else s
  }

  function CanonicalKey(s: Bytes): Bytes {
    Strip(DropBang(Word(s)))
  }

  // trim
  method Trim(value: Bytes) returns (r: Bytes)
    ensures r == Trimmed(value)
  {
    hide TrimStart, TrimEnd;
    var start := 0;
    assert value[0..] == value;
    while start < |value| && Blank(value[start])
      invariant 0 <= start <= |value| && TrimStart(value) == TrimStart(value[start..])
    {
      TrimStartStep(value, start);
      start := start + 1;
    }
    TrimStartStep(value, start);
    var end := |value|;
    assert value[start..end] == value[start..];
    while end != start && White(value[end - 1])
      invariant start <= end <= |value| && TrimEnd(value[start..]) == TrimEnd(value[start..end])
    {
      TrimEndStep(value, start, end);
      end := end - 1;
    }
    TrimEndStep(value, start, end);
    r := value[start..end];
  }

  lemma TrimStartStep(s: Bytes, k: nat)
    requires k <= |s|
    ensures TrimStart(s[k..]) == if k < |s| && Blank(s[k]) then TrimStart(s[k + 1..]) else s[k..]
  {
    if k < |s| {
      assert s[k..][1..] == s[k + 1..];
    }
  }

  lemma TrimEndStep(s: Bytes, lo: nat, k: nat)
    requires lo <= k <= |s|
    ensures TrimEnd(s[lo..k]) == if lo < k && White(s[k - 1]) then TrimEnd(s[lo..k - 1]) else s[lo..k]
  {
    if lo < k {
      assert s[lo..k][..k - lo - 1] == s[lo..k - 1];
    }
  }

  /** strcspn(s," \t\r\n") */
  method WordLength(s: Bytes) returns (length: nat)
    ensures length <= |s| && s[..length] == Word(s) && (length == |s| || White(s[length]))
  {
    length := 0;
    assert s[0..] == s;
    while length < |s| && !White(s[length])
      invariant 0 <= length <= |s| && s[..length] + Word(s[length..]) == Word(s)
    {
      assert Word(s[length..]) == [s[length]] + Word(s[length..][1..]);
      assert s[length..][1..] == s[length + 1..] && s[..length + 1] == s[..length] + [s[length]];
      length := length + 1;
    }
  }

  // canonical_lemma
  method CanonicalLemma(source: Bytes) returns (lemma': Bytes)
    ensures lemma' == CanonicalKey(source)
  {
    var length := WordLength(source);
    var word := source[..length];
    if length != 0 && word[0] == BANG {
      word := word[1..];
    }
    lemma' := [];
    var input := 0;
    while input != |word|
      invariant 0 <= input <= |word| && lemma' == Strip(word[..input])
    {
      assert word[..input + 1][..input] == word[..input];
      if !Marker(word[input]) {
        lemma' := lemma' + [word[input]];
      }
      input := input + 1;
    }
    assert word[..|word|] == word;
  }

  /** The canonicalisation loop of morpheus_generate. */
  method PublicKey(lemma': Bytes) returns (canonical: Bytes)
    ensures canonical == Strip(DropBang(lemma'))
  {
    canonical := [];
    var input := 0;
    ghost var bare := DropBang(lemma');
    ghost var skipped := |lemma'| - |bare|;
    while input != |lemma'|
      invariant 0 <= input <= |lemma'|
      invariant canonical == if input < skipped then [] else Strip(bare[..input - skipped])
    {
      if input >= skipped {
        assert bare[..input + 1 - skipped][..input - skipped] == bare[..input - skipped];
        assert bare[input - skipped] == lemma'[input];
      }
      if !((input == 0 && lemma'[0] == BANG) || Marker(lemma'[input])) {
        canonical := canonical + [lemma'[input]];
      }
      input := input + 1;
    }
    assert bare[..|bare|] == bare;
  }

  // ----- what the pieces are

  ghost predicate NoWhite(s: Bytes) {
    forall i | 0 <= i < |s| :: !White(s[i])
  }

  ghost predicate NoMarker(s: Bytes) {
    forall i | 0 <= i < |s| :: !Marker(s[i])
  }

  lemma {:induction false} WordIs(s: Bytes)
    ensures NoWhite(Word(s)) && (Text(s) ==> Text(Word(s)))
    ensures Word(s) <= s && (|Word(s)| < |s| ==> White(s[|Word(s)|]))
    decreases |s|
  {
    hide White;
    if s != [] && !White(s[0]) {
      WordIs(s[1..]);
      var w := Word(s[1..]);
      assert Word(s) == [s[0]] + w;
      assert s == [s[0]] + s[1..];
    }
  }

  lemma {:induction false} StripIs(s: Bytes)
    ensures NoMarker(Strip(s))
    ensures NoWhite(s) ==> NoWhite(Strip(s))
    ensures Text(s) ==> Text(Strip(s))
    decreases |s|
  {
    if s != [] {
      StripIs(s[..|s| - 1]);
    }
  }

  lemma {:induction false} TrimmedText(s: Bytes)
    requires Text(s)
    ensures Text(TrimStart(s)) && Text(TrimEnd(s)) && Text(Trimmed(s))
    decreases |s|
  {
    TrimStartText(s);
    TrimEndText(s);
    TrimEndText(TrimStart(s));
  }

  lemma {:induction false} TrimStartText(s: Bytes)
    requires Text(s)
    ensures Text(TrimStart(s))
    decreases |s|
  {
    if s != [] && Blank(s[0]) {
      TrimStartText(s[1..]);
    }
  }

  lemma {:induction false} TrimEndText(s: Bytes)
    requires Text(s)
    ensures Text(TrimEnd(s))
    decreases |s|
  {
    if s != [] && White(s[|s| - 1]) {
      TrimEndText(s[..|s| - 1]);
    }
  }

  // ----- a text and its margins

  ghost predicate Blanks(s: Bytes) {
    forall i | 0 <= i < |s| :: s[i] == 32 || s[i] == 9
  }

  ghost predicate Whites(s: Bytes) {
    forall i | 0 <= i < |s| :: s[i] in [32, 9, 13, 10]
  }

  /** A text with neither blanks in front nor white space behind. */
  ghost predicate Bounded(s: Bytes) {
    s != [] ==> s[0] !in [32, 9] && s[|s| - 1] !in [32, 9, 13, 10]
  }

  lemma {:induction false} TrimStartIs(lead: Bytes, s: Bytes)
    requires Blanks(lead) && (s != [] ==> s[0] !in [32, 9])
    ensures TrimStart(lead + s) == s
    decreases |lead|
  {
    if lead == [] {
      assert lead + s == s;
    } else {
      TrimStartIs(lead[1..], s);
      assert (lead + s)[1..] == lead[1..] + s;
    }
  }

  lemma {:induction false} TrimEndIs(s: Bytes, trail: Bytes)
    requires Whites(trail) && (s != [] ==> s[|s| - 1] !in [32, 9, 13, 10])
    ensures TrimEnd(s + trail) == s
    decreases |trail|
  {
    if trail == [] {
      assert s + trail == s;
    } else {
      TrimEndIs(s, trail[..|trail| - 1]);
      assert (s + trail)[..|s + trail| - 1] == s + trail[..|trail| - 1];
    }
  }

  /** Trimming takes the margins and nothing else; of a text of white space only nothing is left. */
  lemma TrimmedIs(lead: Bytes, s: Bytes, trail: Bytes)
    requires Blanks(lead) && Bounded(s) && Whites(trail) && (s == [] ==> trail == [] || trail[0] !in [32, 9])
    ensures Trimmed(lead + s + trail) == s
  {
    if s == [] {
      TrimStartIs(lead, trail);
      assert lead + s + trail == lead + trail;
    } else {
      TrimStartIs(lead, s + trail);
      assert lead + s + trail == lead + (s + trail);
    }
    TrimEndIs(s, trail);
    assert s == [] ==> s + trail == trail;
  }

  /** Every text is made so. */
  lemma {:induction false} Margins(t: Bytes) returns (lead: Bytes, s: Bytes, trail: Bytes)
    ensures t == lead + s + trail && Blanks(lead) && Bounded(s) && Whites(trail) && (s == [] ==> trail == [] || trail[0] !in [32, 9])
    decreases |t|
  {
    lead, s, trail := [], [], [];
    if t != [] && t[0] in [32, 9] {
      lead, s, trail := Margins(t[1..]);
      lead := [t[0]] + lead;
    } else {
      s, trail := BackMargin(t);
    }
  }

  lemma {:induction false} BackMargin(t: Bytes) returns (s: Bytes, trail: Bytes)
    ensures t == s + trail && Whites(trail) && (s != [] ==> s[|s| - 1] !in [32, 9, 13, 10])
    decreases |t|
  {
    s, trail := t, [];
    if t != [] && t[|t| - 1] in [32, 9, 13, 10] {
      s, trail := BackMargin(t[..|t| - 1]);
      trail := trail + [t[|t| - 1]];
    }
  }

  /** The first word. */
  lemma {:induction false} WordStops(a: Bytes, rest: Bytes)
    requires NoWhite(a) && (rest == [] || White(rest[0]))
    ensures Word(a + rest) == a
    decreases |a|
  {
    hide White;
    if a == [] {
      assert a + rest == rest;
    } else {
      WordStops(a[1..], rest);
      assert (a + rest)[1..] == a[1..] + rest;
    }
  }

  /** A key of the index: what canonicalisation leaves. */
  ghost predicate KeyFit(key: Bytes) {
    Text(key) && NoWhite(key) && NoMarker(key)
  }

  lemma CanonicalFits(s: Bytes)
    requires Text(s)
    ensures KeyFit(CanonicalKey(s))
  {
    WordIs(s);
    StripIs(DropBang(Word(s)));
  }

  /** Only the markers '-', '_', '^' and '+' are taken out; the rest keeps its order. */
  lemma {:induction false} StripAppend(s: Bytes, t: Bytes)
    ensures Strip(s + t) == Strip(s) + Strip(t)
    decreases |t|
  {
    if t == [] {
      assert s + t == s;
    } else {
      StripAppend(s, t[..|t| - 1]);
      assert (s + t)[..|s + t| - 1] == s + t[..|t| - 1];
    }
  }

  lemma StripOne(c: Byte)
    ensures Strip([c]) == if c in [45, 95, 94, 43] then [] else [c]
  {
    assert [c][..0] == [];
  }

  /** The key of a :le: line: its first word without a '!' in front and without markers. */
  lemma CanonicalIs(word: Bytes, rest: Bytes)
    requires NoWhite(word) && (rest == [] || White(rest[0]))
    ensures word == [] || word[0] != 33 ==> CanonicalKey(word + rest) == Strip(word)
    ensures CanonicalKey([33] + word + rest) == Strip(word)
  {
    WordStops(word, rest);
    assert NoWhite([33] + word);
    WordStops([33] + word, rest);
    assert ([33] + word)[1..] == word;
  }

  /** On a spelling without white space both canonicalisations agree. */
  lemma SameKey(spelling: Bytes)
    requires NoWhite(spelling)
    ensures Strip(DropBang(spelling)) == CanonicalKey(spelling)
  {
    WordIs(spelling);
    assert |Word(spelling)| == |spelling| && Word(spelling) == spelling[..|spelling|] == spelling;
  }

  lemma {:induction false} StripKeepsWhite(s: Bytes, i: nat)
    requires i < |s| && White(s[i])
    ensures !NoWhite(Strip(s))
    decreases |s|
  {
    var n := |s| - 1;
    if i < n {
      StripKeepsWhite(s[..n], i);
      var k :| 0 <= k < |Strip(s[..n])| && White(Strip(s[..n])[k]);
      assert Strip(s)[k] == Strip(s[..n])[k];
    } else {
      assert Strip(s)[|Strip(s)| - 1] == s[n];
    }
  }

  /** A spelling with white space is no key of any index: morpheus_generate does not cut it. */
  lemma WhiteSpellingIsNoKey(spelling: Bytes)
    requires !NoWhite(spelling)
    ensures !KeyFit(Strip(DropBang(spelling)))
  {
    var i :| 0 <= i < |spelling| && White(spelling[i]);
    var bare := DropBang(spelling);
    StripKeepsWhite(bare, i - (|spelling| - |bare|));
  }

  lemma {:induction false} StripNothing(s: Bytes)
    requires NoMarker(s)
    ensures Strip(s) == s
    decreases |s|
  {
    if s != [] {
      StripNothing(s[..|s| - 1]);
    }
  }

  /** Canonicalisation is not idempotent: asking for a stored key finds that key exactly if it
      does not begin with '!'. */
  lemma StoredKeyFindsItself(key: Bytes)
    requires KeyFit(key)
    ensures Strip(DropBang(key)) == key <==> key == [] || key[0] != BANG
  {
    StripNothing(key);
    StripNothing(DropBang(key));
  }

  /** Such a key can be stored: it is what "-!a" leaves. */
  lemma BangKeyExists()
    ensures CanonicalKey([45, BANG, 97]) == [BANG, 97] && KeyFit([BANG, 97])
  {
    var s: Bytes := [45, BANG, 97];
    assert s[1..] == [BANG, 97] && s[1..][1..] == [97] && s[1..][1..][1..] == [];
    assert Word([97]) == [97] && Word(s[1..]) == s[1..];
    assert Word(s) == s;
    assert s[..2] == [45, BANG] && s[..2][..1] == [45] && s[..2][..1][..0] == [];
    assert Strip([45]) == [] && Strip([45, BANG]) == [BANG];
  }

  // ----- lines

  datatype ParseError = LINE_TOO_LONG | INVALID_LEMMA | UNEXPANDED | RECORD_BEFORE_LEMMA | INCOMPLETE_RECORD

  datatype Parse = Reading(blocks: seq<SourceBlock>, open: bool) | Failed(error: ParseError)

  // record_prefix; 0 for none
  function RecordKind(line: Bytes): nat {
    if NO_TAG <= line then 1 else if AJ_TAG <= line then 2 else if VS_TAG <= line then 3
    else if WD_TAG <= line then 4 else if VB_TAG <= line then 5 else 0
  }

  function RecordOf(line: Bytes): SourceRecord
    requires |line| >= 4
  {
    var word := Word(line[4..]);
    var rest := line[4..][|WordPart(line)|..];
    SourceRecord(RecordKind(line), word, Trimmed(if rest == [] then [] else rest[1..]))
  }

  function WordPart(line: Bytes): (r: Bytes)
    requires |line| >= 4
    ensures |r| <= |line| - 4
  {
    WordIs(line[4..]);
    Word(line[4..])
  }

  /** Another record of the current block. */
  function WithRecord(bs: seq<SourceBlock>, r: SourceRecord): (w: seq<SourceBlock>)
    requires bs != []
    ensures |w| == |bs|
  {
    var n := |bs| - 1;
    bs[n := bs[n].(records := bs[n].records + [r])]
  }

  /** One line of a source file; ordinals count the blocks. */
  function Feed(p: Parse, line: Bytes): (r: Parse)
    requires p.Reading? && (p.open ==> p.blocks != [])
    ensures Usable(r)
  {
    var content := Trimmed(line);
    if |line| == LINE_CAPACITY - 1 && line[|line| - 1] != LF then Failed(LINE_TOO_LONG)
    else if content == [] || content[0] == HASH || content[0] == QUESTION then p
    else if LE_TAG <= content then
      var key := CanonicalKey(Trimmed(content[4..]));
      if key == [] then Failed(INVALID_LEMMA)
      else Reading(p.blocks + [SourceBlock(key, |p.blocks|, [])], true)
    else if DE_TAG <= content || content[0] == SEMICOLON || content[0] == AT_SIGN then Failed(UNEXPANDED)
    else if RecordKind(content) == 0 then p
    else if !p.open then Failed(RECORD_BEFORE_LEMMA)
    else
      var r := RecordOf(content);
      if r.stem == [] || r.keys == [] then Failed(INCOMPLETE_RECORD)
      else Reading(WithRecord(p.blocks, r), true)
  }

  ghost predicate Usable(p: Parse) {
    p.Reading? && p.open ==> p.blocks != []
  }

  /** The lines of one source file, one after the other, up to the first error. */
  function FeedAll(p: Parse, lines: seq<Bytes>): (r: Parse)
    requires Usable(p)
    ensures Usable(r)
    decreases |lines|
  {
    if p.Failed? || lines == [] then p else FeedAll(Feed(p, lines[0]), lines[1..])
  }

  /** What one fgets takes: a line with its end, or a full buffer. */
  function FirstLine(input: Bytes): (n: nat)
    ensures n <= |input| && (input != [] ==> n > 0)
  {
    if input == [] then 0 else Scan(input, 0)
  }

  function Scan(input: Bytes, k: nat): (n: nat)
    requires k < |input|
    ensures k < n <= |input|
    decreases |input| - k
  {
    if input[k] == LF || k + 1 == |input| || k + 1 >= LINE_CAPACITY - 1 then k + 1 else Scan(input, k + 1)
  }

  /** The lines of a file as C strings: a NUL cuts a line short. */
  function Lines(input: Bytes): seq<Bytes> {
    if input == [] then [] else [CString(input[..FirstLine(input)], 0)] + Lines(input[FirstLine(input)..])
  }

  function LinesFrom(input: Bytes, at: nat): seq<Bytes>
    requires at <= |input|
  {
    Lines(input[at..])
  }

  function LineLength(input: Bytes, at: nat): (n: nat)
    requires at <= |input|
    ensures at + n <= |input|
  {
    FirstLine(input[at..])
  }

  function LineAt(input: Bytes, at: nat): Bytes
    requires at <= |input|
  {
    CString(input[at..at + LineLength(input, at)], 0)
  }

  // ----- every run makes blocks fit for the layout

  /** What the parser has built at any time. */
  ghost predicate WellBuilt(bs: seq<SourceBlock>) {
    && Parsed(bs)
    && (forall i {:trigger bs[i]} | 0 <= i < |bs| :: bs[i].ordinal == i && KeyFit(bs[i].lemma_))
  }

  lemma WellBuiltInOrder(bs: seq<SourceBlock>)
    requires WellBuilt(bs)
    ensures InSourceOrder(bs)
  {
  }

  lemma {:induction false} CStringText(s: Bytes, at: nat)
    requires at <= |s|
    ensures Text(CString(s, at)) && |CString(s, at)| <= |s| - at
    decreases |s| - at
  {
    if at < |s| && s[at] != 0 {
      CStringText(s, at + 1);
    }
  }

  lemma RecordOfFits(line: Bytes)
    requires Text(line) && RecordKind(line) != 0
    requires RecordOf(line).stem != [] && RecordOf(line).keys != []
    ensures RecordFit(RecordOf(line))
  {
    WordIs(line[4..]);
    var rest := line[4..][|WordPart(line)|..];
    TrimmedText(if rest == [] then [] else rest[1..]);
  }

  lemma FeedBuilds(p: Parse, line: Bytes)
    requires p.Reading? && (p.open ==> p.blocks != []) && WellBuilt(p.blocks) && Text(line)
    ensures Feed(p, line).Reading? ==> WellBuilt(Feed(p, line).blocks)
  {
    TrimmedText(line);
    var content := Trimmed(line);
    if LE_TAG <= content {
      TrimmedText(content[4..]);
      CanonicalFits(Trimmed(content[4..]));
    } else if RecordKind(content) != 0 && RecordOf(content).stem != [] && RecordOf(content).keys != [] {
      RecordOfFits(content);
    }
  }

  lemma {:induction false} LinesText(input: Bytes)
    ensures forall i | 0 <= i < |Lines(input)| :: Text(Lines(input)[i])
    decreases |input|
  {
    if input != [] {
      CStringText(input[..FirstLine(input)], 0);
      LinesText(input[FirstLine(input)..]);
    }
  }

  lemma {:induction false} FeedAllBuilds(p: Parse, lines: seq<Bytes>)
    requires Usable(p) && (p.Reading? ==> WellBuilt(p.blocks)) && forall i | 0 <= i < |lines| :: Text(lines[i])
    ensures FeedAll(p, lines).Reading? ==> WellBuilt(FeedAll(p, lines).blocks)
    decreases |lines|
  {
    if p.Reading? && lines != [] {
      FeedBuilds(p, lines[0]);
      FeedAllBuilds(Feed(p, lines[0]), lines[1..]);
    }
  }

  /** fgets at an offset of the file, and the C string it leaves in the buffer. */
  method ReadLine(input: Bytes, at: nat) returns (n: nat, line: Bytes)
    requires at < |input|
    ensures n == LineLength(input, at) && line == LineAt(input, at)
  {
    ghost var rest := input[at..];
    var k := 0;
    while !(input[at + k] == LF || at + k + 1 == |input| || k + 1 >= LINE_CAPACITY - 1)
      invariant 0 <= k < |rest| && Scan(rest, k) == Scan(rest, 0)
      decreases |input| - k
    {
      k := k + 1;
    }
    n := k + 1;
    line := CString(input[at..at + n], 0);
  }

  // ----- the parser

  /** source_index */
  class SourceIndex {
    var blocks: seq<SourceBlock>
    var nextOrdinal: nat

    ghost predicate Valid()
      reads this
    {
      WellBuilt(blocks) && nextOrdinal == |blocks|
    }

    constructor ()
      ensures Valid() && blocks == []
    {
      blocks, nextOrdinal := [], 0;
    }

    // append_block
    method AppendBlock(lemma': Bytes)
      modifies this
      ensures blocks == old(blocks) + [SourceBlock(lemma', old(nextOrdinal), [])]
      ensures nextOrdinal == old(nextOrdinal) + 1
    {
      blocks := blocks + [SourceBlock(lemma', nextOrdinal, [])];
      nextOrdinal := nextOrdinal + 1;
    }

    // append_record, for the block the parser points at
    method AppendRecord(kind: nat, stem: Bytes, keys: Bytes)
      requires blocks != []
      modifies this`blocks
      ensures blocks == WithRecord(old(blocks), SourceRecord(kind, stem, keys))
    {
      var n := |blocks| - 1;
      blocks := blocks[n := blocks[n].(records := blocks[n].records + [SourceRecord(kind, stem, keys)])];
    }

    // parse_record, for a line that is not a record too
    method ParseRecord(open: bool, line: Bytes) returns (result: Parse)
      requires open ==> blocks != []
      modifies this`blocks
      ensures result == if RecordKind(line) == 0 then Reading(old(blocks), open)
                        else if !open then Failed(RECORD_BEFORE_LEMMA)
                        else if RecordOf(line).stem == [] || RecordOf(line).keys == [] then Failed(INCOMPLETE_RECORD)
                        else Reading(WithRecord(old(blocks), RecordOf(line)), true)
      ensures blocks == if result.Reading? then result.blocks else old(blocks)
    {
      var kind := RecordKind(line);
      if kind == 0 {
        return Reading(blocks, open);
      }
      if !open {
        return Failed(RECORD_BEFORE_LEMMA);
      }
      var stem := line[4..];
      var length := WordLength(stem);
      var rest := stem[length..];
      if rest != [] {
        rest := rest[1..];
      }
      var keys := Trim(rest);
      if length == 0 || keys == [] {
        return Failed(INCOMPLETE_RECORD);
      }
      AppendRecord(kind, stem[..length], keys);
      return Reading(blocks, open);
    }

    /** The body of the loop of parse_source. */
    method ParseLine(open: bool, line: Bytes) returns (result: Parse)
      requires nextOrdinal == |blocks| && (open ==> blocks != [])
      modifies this
      ensures result == Feed(Reading(old(blocks), open), line)
      ensures blocks == (if result.Reading? then result.blocks else old(blocks)) && nextOrdinal == |blocks|
    {
      hide CanonicalKey, Trimmed, RecordOf, RecordKind, WithRecord;
      if |line| == LINE_CAPACITY - 1 && line[|line| - 1] != LF {
        return Failed(LINE_TOO_LONG);
      }
      var content := Trim(line);
      if content == [] || content[0] == HASH || content[0] == QUESTION {
        return Reading(blocks, open);
      }
      if LE_TAG <= content {
        var token := Trim(content[4..]);
        var lemma' := CanonicalLemma(token);
        if lemma' == [] {
          return Failed(INVALID_LEMMA);
        }
        AppendBlock(lemma');
        return Reading(blocks, true);
      }
      if DE_TAG <= content || content[0] == SEMICOLON || content[0] == AT_SIGN {
        return Failed(UNEXPANDED);
      }
      result := ParseRecord(open, content);
    }

    /** parse_source: the whole file, or the first error. */
    method ParseSource(input: Bytes) returns (result: Parse)
      requires Valid()
      modifies this
      ensures result == FeedAll(Reading(old(blocks), false), Lines(input))
      ensures result.Reading? ==> Valid() && blocks == result.blocks
    {
      hide Feed, FeedAll, Lines, LineLength, LineAt, WellBuilt;
      ghost var start := Reading(blocks, false);
      LinesText(input);
      FeedAllBuilds(start, Lines(input));
      result := Reading(blocks, false);
      var at := 0;
      assert input[0..] == input && LinesFrom(input, 0) == Lines(input);
      while at < |input|
        invariant 0 <= at <= |input| && result.Reading? && Usable(result)
        invariant FeedAll(result, LinesFrom(input, at)) == FeedAll(start, Lines(input))
        invariant blocks == result.blocks && nextOrdinal == |blocks|
      {
        var n, line := ReadLine(input, at);
        NextLine(input, at, result);
        result := ParseLine(result.open, line);
        if result.Failed? {
          return;
        }
        at := at + n;
      }
      LinesEnd(input, result);
    }
  }

  lemma NextLine(input: Bytes, at: nat, p: Parse)
    requires at < |input| && p.Reading? && Usable(p)
    ensures var line, n := LineAt(input, at), LineLength(input, at);
      && n > 0 && FeedAll(p, LinesFrom(input, at)) == FeedAll(Feed(p, line), LinesFrom(input, at + n))
      && (Feed(p, line).Failed? ==> FeedAll(p, LinesFrom(input, at)) == Feed(p, line))
  {
    var n := LineLength(input, at);
    assert input[at..][n..] == input[at + n..] && input[at..][..n] == input[at..at + n];
  }

  lemma LinesEnd(input: Bytes, p: Parse)
    requires Usable(p)
    ensures FeedAll(p, LinesFrom(input, |input|)) == p
  {
  }
}
