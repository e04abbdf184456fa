/** The generation index from end to end: blocks printed as a source file come back, record by
    record, as the answer for their lemma. */
module GenerPrint {
  import opened ByteStrings
  import opened GenerBlocks
  import opened GenerIndex
  import opened GenerLayout
  import opened GenerParse
  import opened GenerService
  import opened GenerWriter
  import opened PreparedLines
  import Spelling

  // ----- what a source file says

  /** ":no:", ":aj:", ":vs:", ":wd:" and ":vb:" for the kinds 1 to 5. */
  function Tag(kind: nat): Bytes {
    if kind == 1 then [58, 110, 111, 58] else if kind == 2 then [58, 97, 106, 58]
    else if kind == 3 then [58, 118, 115, 58] else if kind == 4 then [58, 119, 100, 58] else [58, 118, 98, 58]
  }

  /** A record that fits a line: its stem is a word, its keys begin and end with a character of
      their own. */
  ghost predicate PlainRecord(r: SourceRecord) {
    && 1 <= r.kind <= 5
    && r.stem != [] && NoWhite(r.stem) && Text(r.stem)
    && r.keys != [] && Bounded(r.keys) && NoBreak(r.keys)
    && |r.stem| + |r.keys| < LINE_CAPACITY - 6
  }

  /** A lemma that is its own key. */
  ghost predicate PlainLemma(lemma': Bytes) {
    KeyFit(lemma') && lemma' != [] && lemma'[0] != 33 && |lemma'| < LINE_CAPACITY - 5
  }

  ghost predicate PlainBlock(b: SourceBlock) {
    PlainLemma(b.lemma_) && forall r | r in b.records :: PlainRecord(r)
  }

  /** Blocks numbered in order. */
  ghost predicate PlainBlocks(bs: seq<SourceBlock>) {
    forall i {:trigger bs[i]} | 0 <= i < |bs| :: PlainBlock(bs[i]) && bs[i].ordinal == i
  }

  function RecordLine(r: SourceRecord): Bytes {
    Tag(r.kind) + r.stem + [32] + r.keys
  }

  function LemmaLine(lemma': Bytes): Bytes {
    [58, 108, 101, 58] + lemma'
  }

  function RecordLines(rs: seq<SourceRecord>): seq<Bytes> {
    if rs == [] then [] else RecordLines(rs[..|rs| - 1]) + [RecordLine(rs[|rs| - 1])]
  }

  function BlockLines(bs: seq<SourceBlock>): seq<Bytes> {
    if bs == [] then []
    else BlockLines(bs[..|bs| - 1]) + [LemmaLine(bs[|bs| - 1].lemma_)] + RecordLines(bs[|bs| - 1].records)
  }

  // ----- it is read so

  lemma LineIsTrimmed(content: Bytes)
    requires content != [] && Bounded(content)
    ensures Trimmed(content + [LF]) == content
  {
    TrimmedIs([], content, [LF]);
    assert [] + content + [LF] == content + [LF];
  }

  lemma TagKind(r: SourceRecord)
    requires PlainRecord(r)
    ensures |Tag(r.kind)| == 4 && Tag(r.kind) <= RecordLine(r) && RecordKind(RecordLine(r)) == r.kind
    ensures !(LE_TAG <= RecordLine(r)) && !(DE_TAG <= RecordLine(r)) && RecordLine(r)[0] == 58
  {
    var line := RecordLine(r);
    assert line[0] == 58 && line[1] == Tag(r.kind)[1] && line[2] == Tag(r.kind)[2] && line[3] == 58;
    assert line[..4] == Tag(r.kind);
  }

  lemma StemAndKeys(r: SourceRecord)
    requires PlainRecord(r)
    ensures |RecordLine(r)| >= 4 && RecordOf(RecordLine(r)).stem == r.stem && RecordOf(RecordLine(r)).keys == r.keys
  {
    hide RecordKind, NoWhite, Text, NoBreak, Bounded, Trimmed, Word;
    var line := RecordLine(r);
    var tail := line[4..];
    assert tail == r.stem + ([32] + r.keys);
    WordStops(r.stem, [32] + r.keys);
    assert tail[|r.stem|..] == [32] + r.keys;
    assert ([32] + r.keys)[1..] == r.keys;
    TrimmedIs([], r.keys, []);
    assert [] + r.keys + [] == r.keys;
  }

  /** The line of a record behind a lemma adds exactly that record to its block. */
  lemma RecordLineAdds(p: Parse, r: SourceRecord)
    requires p.Reading? && p.open && p.blocks != [] && PlainRecord(r)
    ensures Feed(p, Tag(r.kind) + r.stem + [32] + r.keys + [10]) == Reading(WithRecord(p.blocks, r), true)
  {
    hide RecordOf, Trimmed, WithRecord, Tag;
    var line := RecordLine(r);
    TagKind(r);
    StemAndKeys(r);
    LineEnds(r);
    LineIsTrimmed(line);
    assert RecordOf(line) == r by {
      KindOf(line);
    }
  }

  lemma KindOf(line: Bytes)
    requires |line| >= 4
    ensures RecordOf(line).kind == RecordKind(line)
  {
  }

  lemma LineEnds(r: SourceRecord)
    requires PlainRecord(r)
    ensures Bounded(RecordLine(r)) && RecordLine(r) != [] && |RecordLine(r)| < LINE_CAPACITY - 1
  {
    TagKind(r);
    var line := RecordLine(r);
    assert line[|line| - 1] == r.keys[|r.keys| - 1];
  }

  /** The line of a lemma begins a block. */
  lemma LemmaLineOpens(p: Parse, lemma': Bytes)
    requires p.Reading? && (p.open ==> p.blocks != []) && PlainLemma(lemma')
    ensures Feed(p, LemmaLine(lemma') + [10]) == Reading(p.blocks + [SourceBlock(lemma', |p.blocks|, [])], true)
  {
    hide CanonicalKey, Trimmed;
    var content := LemmaLine(lemma');
    LemmaEnds(lemma');
    LineIsTrimmed(content);
    TrimmedWord(lemma');
    PlainKey(lemma');
    assert content[4..] == lemma' && LE_TAG <= content;
  }

  lemma LemmaEnds(lemma': Bytes)
    requires PlainLemma(lemma')
    ensures Bounded(LemmaLine(lemma'))
  {
    var content := LemmaLine(lemma');
    assert content[|content| - 1] == lemma'[|lemma'| - 1] && !White(lemma'[|lemma'| - 1]);
  }

  // ----- the other lines

  /** Comments and lines without a known tag are passed over; a derivation, a request or a
      continuation is an error, and so is a record before the first lemma. */
  lemma OtherLines(p: Parse, content: Bytes)
    requires p.Reading? && (p.open ==> p.blocks != []) && content != [] && Bounded(content) && |content| < LINE_CAPACITY - 1
    ensures content[0] in [35, 63] ==> Feed(p, content + [10]) == p
    ensures content[0] in [59, 64] || [58, 100, 101, 58] <= content ==> Feed(p, content + [10]) == Failed(UNEXPANDED)
    ensures content[0] !in [58, 59, 64] ==> Feed(p, content + [10]) == p
    ensures forall kind: nat {:trigger Tag(kind)} | 1 <= kind <= 5 && Tag(kind) <= content && !p.open ::
              Feed(p, content + [10]) == Failed(RECORD_BEFORE_LEMMA)
  {
    hide Trimmed, RecordOf, CanonicalKey, WithRecord;
    LineIsTrimmed(content);
    TagOf(content);
  }

  lemma TagOf(content: Bytes)
    ensures LE_TAG <= content || DE_TAG <= content || RecordKind(content) != 0 ==> content[0] == 58
    ensures DE_TAG <= content ==> !(LE_TAG <= content)
    ensures forall kind: nat {:trigger Tag(kind)} | 1 <= kind <= 5 && Tag(kind) <= content ::
              RecordKind(content) == kind && content[0] == 58 && !(LE_TAG <= content) && !(DE_TAG <= content)
  {
    forall kind: nat | 1 <= kind <= 5 && Tag(kind) <= content
      ensures RecordKind(content) == kind && content[0] == 58 && !(LE_TAG <= content) && !(DE_TAG <= content)
    {
      assert content[0] == Tag(kind)[0] && content[1] == Tag(kind)[1] && content[2] == Tag(kind)[2];
    }
    if DE_TAG <= content {
      assert content[1] == 100;
    }
  }

  /** A record: what stands between the stem and the keys is a white character and blanks.  Without
      a stem or keys it is an error. */
  lemma RecordRead(p: Parse, kind: nat, stem: Bytes, space: Byte, more: Bytes, keys: Bytes, content: Bytes)
    requires p.Reading? && p.open && p.blocks != [] && 1 <= kind <= 5 && |content| < LINE_CAPACITY - 1
    requires content == Tag(kind) + stem + [space] + more + keys && Bounded(content)
    requires NoWhite(stem) && White(space) && Blanks(more) && Bounded(keys)
    ensures Feed(p, content + [10]) ==
            if stem == [] || keys == [] then Failed(INCOMPLETE_RECORD)
            else Reading(WithRecord(p.blocks, SourceRecord(kind, stem, keys)), true)
  {
    hide Trimmed, WithRecord, Tag, RecordKind, Word, NoWhite, White, Bounded, Blanks;
    FourLong(kind);
    LineIsTrimmed(content);
    TagOf(content);
    var tail := content[4..];
    var rest := [space] + more + keys;
    assert Tag(kind) <= content && tail == stem + rest;
    WordStops(stem, rest);
    assert tail[|stem|..] == rest && rest[1..] == more + keys;
    TrimmedIs(more, keys, []);
    assert more + keys + [] == more + keys;
    WhichRecord(content, kind, stem, rest, keys);
  }

  lemma FourLong(kind: nat)
    ensures |Tag(kind)| == 4 && Tag(kind)[0] == 58
  {
  }

  lemma WhichRecord(content: Bytes, kind: nat, stem: Bytes, rest: Bytes, keys: Bytes)
    requires |content| >= 4 && Word(content[4..]) == stem && |stem| <= |content| - 4 && content[4..][|stem|..] == rest
    requires rest != [] && Trimmed(rest[1..]) == keys && RecordKind(content) == kind
    ensures RecordOf(content) == SourceRecord(kind, stem, keys)
  {
    hide Word, Trimmed, RecordKind;
  }

  /** A stem alone is one too. */
  lemma StemAlone(p: Parse, kind: nat, stem: Bytes)
    requires p.Reading? && p.open && p.blocks != [] && 1 <= kind <= 5 && NoWhite(stem) && |stem| < LINE_CAPACITY - 5
    ensures Feed(p, Tag(kind) + stem + [10]) == Failed(INCOMPLETE_RECORD)
  {
    hide Trimmed, WithRecord, Tag, RecordKind, Word;
    FourLong(kind);
    var content := Tag(kind) + stem;
    TagEnds(kind);
    assert content[|content| - 1] == if stem == [] then Tag(kind)[3] else stem[|stem| - 1];
    LineIsTrimmed(content);
    TagOf(content);
    assert content[4..] == stem && stem + [] == stem;
    WordStops(stem, []);
    NothingTrimmed();
  }

  lemma TagEnds(kind: nat)
    ensures Tag(kind)[3] == 58
  {
  }

  lemma NothingTrimmed()
    ensures Trimmed([]) == []
  {
  }

  // ----- whole files

  function Ended(lines: seq<Bytes>): seq<Bytes> {
    seq(|lines|, i requires 0 <= i < |lines| => lines[i] + [LF])
  }

  ghost predicate Short(l: Bytes) {
    Emitted(l) && |l| < LINE_CAPACITY - 1
  }

  /** fgets finds the lines as they were written. */
  lemma {:induction false} LinesWritten(lines: seq<Bytes>)
    requires forall i | 0 <= i < |lines| :: Short(lines[i])
    ensures Lines(Written(lines)) == Ended(lines)
    decreases |lines|
  {
    hide Emitted, Lines;
    if lines == [] {
      NoLines();
    } else {
      FirstWritten(lines);
      LinesWritten(lines[1..]);
      assert Ended(lines) == [lines[0] + [LF]] + Ended(lines[1..]);
    }
  }

  lemma NoLines()
    ensures Lines([]) == []
  {
  }

  lemma {:induction false} FeedAllAppend(p: Parse, a: seq<Bytes>, b: seq<Bytes>)
    requires Usable(p)
    ensures FeedAll(p, a + b) == FeedAll(FeedAll(p, a), b)
    decreases |a|
  {
    hide Feed;
    if a == [] {
      assert a + b == b;
    } else if p.Reading? {
      FeedAllAppend(Feed(p, a[0]), a[1..], b);
      assert (a + b)[1..] == a[1..] + b;
    }
  }

  lemma FeedOne(p: Parse, line: Bytes)
    requires p.Reading? && Usable(p)
    ensures FeedAll(p, [line]) == Feed(p, line)
  {
    var one := [line];
    assert one[1..] == [];
  }

  lemma {:induction false} RecordsRead(bs: seq<SourceBlock>, key: Bytes, n: nat, rs: seq<SourceRecord>)
    requires forall r | r in rs :: PlainRecord(r)
    ensures FeedAll(Reading(bs + [SourceBlock(key, n, [])], true), Ended(RecordLines(rs))) ==
            Reading(bs + [SourceBlock(key, n, rs)], true)
    decreases |rs|
  {
    hide Feed, FeedAll, PlainRecord, RecordLine;
    var p := Reading(bs + [SourceBlock(key, n, [])], true);
    if rs == [] {
      FedNothing(p);
    } else {
      var front, r := rs[..|rs| - 1], rs[|rs| - 1];
      RecordsRead(bs, key, n, front);
      var q := Reading(bs + [SourceBlock(key, n, front)], true);
      var line := RecordLine(r) + [LF];
      assert Ended(RecordLines(rs)) == Ended(RecordLines(front)) + [line];
      FeedAllAppend(p, Ended(RecordLines(front)), [line]);
      FeedOne(q, line);
      RecordAdded(q, r);
      assert rs == front + [r];
      assert WithRecord(q.blocks, r) == bs + [SourceBlock(key, n, rs)];
    }
  }

  lemma RecordAdded(p: Parse, r: SourceRecord)
    requires p.Reading? && p.open && p.blocks != [] && PlainRecord(r)
    ensures Feed(p, RecordLine(r) + [LF]) == Reading(WithRecord(p.blocks, r), true)
  {
    hide Feed, PlainRecord, WithRecord;
    RecordLineAdds(p, r);
  }

  lemma FedNothing(p: Parse)
    requires Usable(p)
    ensures FeedAll(p, []) == p && Ended([]) == []
  {
  }

  lemma {:induction false} BlocksRead(bs: seq<SourceBlock>)
    requires PlainBlocks(bs)
    ensures FeedAll(Reading([], false), Ended(BlockLines(bs))) == Reading(bs, bs != [])
    decreases |bs|
  {
    hide Feed, FeedAll, PlainBlock, RecordLines, LemmaLine;
    var start := Reading([], false);
    if bs == [] {
      FedNothing(start);
    } else {
      var n := |bs| - 1;
      var front, b := bs[..n], bs[n];
      BlocksRead(front);
      var p := Reading(front, front != []);
      var first := LemmaLine(b.lemma_) + [LF];
      assert Ended(BlockLines(bs)) == Ended(BlockLines(front)) + ([first] + Ended(RecordLines(b.records)));
      FeedAllAppend(start, Ended(BlockLines(front)), [first] + Ended(RecordLines(b.records)));
      BlockRead(p, b);
      assert front + [b] == bs;
    }
  }

  lemma BlockRead(p: Parse, b: SourceBlock)
    requires p.Reading? && (p.open ==> p.blocks != []) && PlainBlock(b) && b.ordinal == |p.blocks|
    ensures FeedAll(p, [LemmaLine(b.lemma_) + [LF]] + Ended(RecordLines(b.records))) == Reading(p.blocks + [b], true)
  {
    hide Feed, FeedAll, PlainRecord, RecordLines, LemmaLine, PlainLemma;
    var first := LemmaLine(b.lemma_) + [LF];
    FeedAllAppend(p, [first], Ended(RecordLines(b.records)));
    FeedOne(p, first);
    LemmaLineOpens(p, b.lemma_);
    RecordsRead(p.blocks, b.lemma_, b.ordinal, b.records);
  }

  lemma RecordLineShort(r: SourceRecord)
    requires PlainRecord(r)
    ensures Short(RecordLine(r))
  {
    TagKind(r);
    LineEnds(r);
    var line := RecordLine(r);
    forall i | 0 <= i < |line|
      ensures line[i] != LF && line[i] != 0
    {
      if 4 <= i < 4 + |r.stem| {
        assert line[i] == r.stem[i - 4] && !White(r.stem[i - 4]);
      } else if i > 4 + |r.stem| {
        assert line[i] == r.keys[i - 5 - |r.stem|];
      } else if i < 4 {
        assert line[i] == Tag(r.kind)[i];
      }
    }
  }

  lemma LemmaLineShort(lemma': Bytes)
    requires PlainLemma(lemma')
    ensures Short(LemmaLine(lemma'))
  {
    var line := LemmaLine(lemma');
    assert LE_TAG <= line;
    forall i | 0 <= i < |line|
      ensures line[i] != LF && line[i] != 0
    {
      if i >= 4 {
        assert line[i] == lemma'[i - 4] && !White(lemma'[i - 4]);
      }
    }
  }

  lemma {:induction false} RecordLinesShort(rs: seq<SourceRecord>)
    requires forall r | r in rs :: PlainRecord(r)
    ensures forall i | 0 <= i < |RecordLines(rs)| :: Short(RecordLines(rs)[i])
    decreases |rs|
  {
    hide PlainRecord, Short, RecordLine;
    if rs != [] {
      RecordLinesShort(rs[..|rs| - 1]);
      RecordLineShort(rs[|rs| - 1]);
    }
  }

  lemma {:induction false} BlockLinesShort(bs: seq<SourceBlock>)
    requires PlainBlocks(bs)
    ensures forall i | 0 <= i < |BlockLines(bs)| :: Short(BlockLines(bs)[i])
    decreases |bs|
  {
    hide Short, RecordLines, LemmaLine, PlainLemma, PlainRecord;
    if bs != [] {
      var b := bs[|bs| - 1];
      BlockLinesShort(bs[..|bs| - 1]);
      assert PlainBlock(b);
      LemmaLineShort(b.lemma_);
      RecordLinesShort(b.records);
    }
  }

  /** A file of printed blocks is read as those blocks. */
  lemma PrintedIsRead(bs: seq<SourceBlock>)
    requires PlainBlocks(bs)
    ensures ParseFiles([Written(BlockLines(bs))]) == Reading(bs, false)
  {
    hide FeedAll, Lines, BlockLines, Short, Written;
    var file := Written(BlockLines(bs));
    var files := [file];
    BlockLinesShort(bs);
    LinesWritten(BlockLines(bs));
    BlocksRead(bs);
    assert files[..0] == [] && ParseFiles([]) == Reading([], false);
  }

  // ----- the answers

  /** The blocks f of a lemma: its nonempty blocks in source order, but for those that repeat an
      earlier one. */
  ghost predicate BlocksFor(bs: seq<SourceBlock>, key: Bytes, f: seq<nat>) {
    && (forall j | 0 <= j < |f| :: f[j] < |bs| && bs[f[j]].lemma_ == key && bs[f[j]].records != [])
    && (forall j, k | 0 <= j < k < |f| :: f[j] < f[k] && bs[f[j]].records != bs[f[k]].records)
    && (forall i: nat | i < |bs| && bs[i].lemma_ == key && bs[i].records != [] ::
          Repeated(bs, f, i))
  }

  /** Block i is one of these, or repeats one before it. */
  ghost predicate Repeated(bs: seq<SourceBlock>, f: seq<nat>, i: nat)
    requires i < |bs|
  {
    exists j :: 0 <= j < |f| && f[j] <= i && bs[f[j]].records == bs[i].records
  }

  /** Their records, one list a block. */
  ghost predicate Shown(bs: seq<SourceBlock>, f: seq<nat>, visits: seq<seq<RecordView>>) {
    |visits| == |f| && forall j | 0 <= j < |f| :: f[j] < |bs| && ListShown(bs[f[j]].records, visits[j])
  }

  ghost predicate ListShown(rs: seq<SourceRecord>, views: seq<RecordView>) {
    |views| == |rs| &&
    forall k | 0 <= k < |rs| :: views[k].kind == rs[k].kind && views[k].stem == rs[k].stem && views[k].keys == rs[k].keys
  }

  lemma ListsMore(bs: seq<SourceBlock>, key: Bytes)
    requires bs != []
    ensures var front, b := bs[..|bs| - 1], bs[|bs| - 1];
      SourceLists(bs, key) == SourceLists(front, key) +
        if b.lemma_ == key && b.records != [] && b.records !in SourceLists(front, key) then [b.records] else []
  {
    var front, b := bs[..|bs| - 1], bs[|bs| - 1];
    var ls := ListsFor(NonEmpty(front), key);
    DedupKeeps(ls);
    if b.records != [] {
      var kept := NonEmpty(front) + [b];
      assert NonEmpty(bs) == kept && kept[..|kept| - 1] == NonEmpty(front);
      if b.lemma_ == key {
        var all := ls + [b.records];
        assert ListsFor(kept, key) == all && all[..|all| - 1] == ls;
        assert Dedup(all) == Dedup(ls) + if b.records in ls then [] else [b.records];
      } else {
        assert ListsFor(kept, key) == ls + [] == ls;
      }
    } else {
      assert NonEmpty(bs) == NonEmpty(front) + [] == NonEmpty(front);
    }
  }

  lemma {:induction false} BlocksOfLists(bs: seq<SourceBlock>, key: Bytes) returns (f: seq<nat>)
    ensures BlocksFor(bs, key, f) && |f| == |SourceLists(bs, key)|
    ensures forall j | 0 <= j < |f| :: bs[f[j]].records == SourceLists(bs, key)[j]
    decreases |bs|
  {
    hide SourceLists;
    f := [];
    if bs == [] {
      NoBlocks(key);
    } else {
      var n := |bs| - 1;
      var front, b := bs[..n], bs[n];
      f := BlocksOfLists(front, key);
      ListsMore(bs, key);
      var ls := SourceLists(front, key);
      if b.lemma_ == key && b.records != [] && b.records !in ls {
        OneMoreBlock(bs, key, f, ls);
        f := f + [n];
      } else {
        NoMoreBlock(bs, key, f, ls);
      }
    }
  }

  lemma NoBlocks(key: Bytes)
    ensures SourceLists([], key) == []
  {
  }

  lemma OneMoreBlock(bs: seq<SourceBlock>, key: Bytes, f: seq<nat>, ls: seq<seq<SourceRecord>>)
    requires bs != [] && BlocksFor(bs[..|bs| - 1], key, f) && |ls| == |f|
    requires forall j | 0 <= j < |f| :: bs[f[j]].records == ls[j]
    requires var b := bs[|bs| - 1]; b.lemma_ == key && b.records != [] && b.records !in ls
    ensures BlocksFor(bs, key, f + [|bs| - 1])
  {
    hide Repeated;
    var n, g := |bs| - 1, f + [|bs| - 1];
    forall i: nat | i < |bs| && bs[i].lemma_ == key && bs[i].records != []
      ensures Repeated(bs, g, i)
    {
      if i < n {
        RepeatedMore(bs, f, g, i);
      } else {
        RepeatsItself(bs, g, |f|);
      }
    }
  }

  lemma RepeatedMore(bs: seq<SourceBlock>, f: seq<nat>, g: seq<nat>, i: nat)
    requires bs != [] && i < |bs| - 1 && Repeated(bs[..|bs| - 1], f, i) && f <= g
    ensures Repeated(bs, g, i)
  {
    var j :| 0 <= j < |f| && f[j] <= i && bs[..|bs| - 1][f[j]].records == bs[..|bs| - 1][i].records;
    assert g[j] == f[j];
  }

  lemma RepeatsItself(bs: seq<SourceBlock>, g: seq<nat>, j: nat)
    requires j < |g| && g[j] < |bs|
    ensures Repeated(bs, g, g[j])
  {
  }

  lemma NoMoreBlock(bs: seq<SourceBlock>, key: Bytes, f: seq<nat>, ls: seq<seq<SourceRecord>>)
    requires bs != [] && BlocksFor(bs[..|bs| - 1], key, f) && |ls| == |f|
    requires forall j | 0 <= j < |f| :: bs[f[j]].records == ls[j]
    requires var b := bs[|bs| - 1]; b.lemma_ == key && b.records != [] ==> b.records in ls
    ensures BlocksFor(bs, key, f)
  {
    hide Repeated;
    var n := |bs| - 1;
    forall i: nat | i < |bs| && bs[i].lemma_ == key && bs[i].records != []
      ensures Repeated(bs, f, i)
    {
      if i < n {
        RepeatedMore(bs, f, f, i);
      } else {
        var j :| 0 <= j < |ls| && ls[j] == bs[n].records;
        assert f[j] < n;
        RepeatsAnother(bs, f, j, n);
      }
    }
  }

  lemma RepeatsAnother(bs: seq<SourceBlock>, f: seq<nat>, j: nat, i: nat)
    requires j < |f| && f[j] <= i < |bs| && bs[f[j]].records == bs[i].records
    ensures Repeated(bs, f, i)
  {
  }

  lemma ViewsShow(rs: seq<SourceRecord>)
    ensures ListShown(rs, Views(rs))
  {
  }

  /** What is answered for a lemma that is its own key. */
  lemma AnswerShown(bs: seq<SourceBlock>, out: seq<SourceBlock>, key: Bytes) returns (f: seq<nat>)
    requires Stands(out, bs) && PlainLemma(key) && |key| < Spelling.MAXWORDSIZE
    ensures BlocksFor(bs, key, f)
    ensures f == [] ==> AnswerTo(out, key) == NOTHING
    ensures f != [] ==> AnswerTo(out, key).RECORDS? && Shown(bs, f, AnswerTo(out, key).visits)
  {
    hide Prepared, SourceLists, BlocksFor;
    f := BlocksOfLists(bs, key);
    KeyIsPlain(key);
    var ls := SourceLists(bs, key);
    assert ListsFor(out, key) == ls;
    forall j | 0 <= j < |f|
      ensures f[j] < |bs| && ListShown(bs[f[j]].records, AllViews(ls)[j])
    {
      InRange(bs, key, f, j);
      ViewsShow(ls[j]);
    }
  }

  lemma KeyIsPlain(key: Bytes)
    requires PlainLemma(key)
    ensures Strip(DropBang(key)) == key && Text(key)
  {
    StoredKeyFindsItself(key);
  }

  lemma InRange(bs: seq<SourceBlock>, key: Bytes, f: seq<nat>, j: nat)
    requires BlocksFor(bs, key, f) && j < |f|
    ensures f[j] < |bs|
  {
  }

  /** Print, build, open, ask: the answer for a lemma is the kind, the stem and the keys of every
      record entered for it, in order, but for repeated blocks. */
  method PrintedAnswered(bs: seq<SourceBlock>, key: Bytes) returns (built: bool, answer: Answer, ghost f: seq<nat>)
    requires PlainBlocks(bs) && PlainLemma(key) && |key| < Spelling.MAXWORDSIZE
    ensures BlocksFor(bs, key, f)
    ensures built ==> if f == [] then answer == NOTHING else answer.RECORDS? && Shown(bs, f, answer.visits)
    ensures !built ==> exists out :: Stands(out, bs) && TooLarge(out)
  {
    hide AnswerTo, Stands, BlocksFor, Shown, TooLarge, WellBuilt, ParseFiles, BlockLines, Written, PlainBlocks, PlainLemma;
    PrintedIsRead(bs);
    built, answer := Answered([Written(BlockLines(bs))], key);
    f := BlocksOfLists(bs, key);
    if built {
      ghost var out :| Stands(out, bs) && answer == AnswerTo(out, key);
      f := AnswerShown(bs, out, key);
    }
  }
}
