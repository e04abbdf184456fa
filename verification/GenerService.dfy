/** The path from a lemma to its source records: the walk of src/gener/generation_service.c over
    an open index, and the whole way from source blocks through the file and back. */
module GenerService {
  import opened ByteStrings
  import opened GenerBlocks
  import opened GenerFormat
  import opened GenerIndex
  import opened GenerLayout
  import opened GenerParse
  import opened GenerWriter
  import Spelling

  datatype ServiceStatus = FOUND | NO_LEMMA | FAILED

  function View(r: SourceRecord): RecordView {
    RecordView(r.kind, r.stem, r.keys)
  }

  function Views(rs: seq<SourceRecord>): seq<RecordView> {
    seq(|rs|, i requires 0 <= i < |rs| => View(rs[i]))
  }

  /** The record of one round; in an index that shows bs it is there. */
  method VisitRecord(index: Index, record: nat, ghost r: SourceRecord) returns (ok: bool, item: RecordView)
    requires index.Valid() && RecordShows(index.Tables(), record, r)
    ensures ok && item == View(r)
  {
    hide Canonical, Decode, StringOk, StringAt, CString;
    DecodeCounts(index.file, index.lemmaCount, index.blockCount, index.recordCount);
    var status;
    status, item := index.RecordAt(record);
    RecordViewIs(index.Tables(), record, r, item);
    ok := status == OK;
  }

  /** The records of one block, as the loop of morpheus_generation_service_generate visits
      them. */
  method VisitBlock(index: Index, block: nat, ghost bs: seq<SourceBlock>) returns (ok: bool, visits: seq<RecordView>)
    requires index.Valid() && block < |bs| && BlockShows(index.Tables(), block, bs[block])
    ensures ok && visits == Views(bs[block].records)
  {
    hide RecordShows, View, Views;
    ghost var t, rs := index.Tables(), bs[block].records;
    DecodeCounts(index.file, index.lemmaCount, index.blockCount, index.recordCount);
    NoViews(rs);
    visits := [];
    var status, view := index.BlockAt(block);
    ok := status == OK;
    var record := view.firstRecord;
    while ok && record != view.firstRecord + view.recordCount
      invariant ok && 0 <= record - view.firstRecord <= |rs| == view.recordCount
      invariant visits == Views(rs[..record - view.firstRecord])
      decreases view.firstRecord + view.recordCount - record
    {
      ghost var j := record - view.firstRecord;
      MoreViews(rs, j);
      var item;
      assert RecordShows(t, t.blocks[block].first + j, rs[j]);
      ok, item := VisitRecord(index, record, rs[j]);
      visits := visits + [item];
      record := record + 1;
    }
  }

  lemma RecordViewIs(t: Tables, i: nat, r: SourceRecord, item: RecordView)
    requires RecordShows(t, i, r)
    requires t.records[i].stem <= |t.strings| && t.records[i].keys <= |t.strings|
    requires item == RecordView(t.records[i].kind, CString(t.strings, t.records[i].stem), CString(t.strings, t.records[i].keys))
    ensures item == View(r)
  {
    CStringIs(t.strings, t.records[i].stem, r.stem);
    CStringIs(t.strings, t.records[i].keys, r.keys);
  }

  lemma NoViews(rs: seq<SourceRecord>)
    ensures Views(rs[..0]) == [] && rs[..|rs|] == rs
  {
  }

  lemma MoreViews(rs: seq<SourceRecord>, j: nat)
    requires j < |rs|
    ensures Views(rs[..j + 1]) == Views(rs[..j]) + [View(rs[j])]
  {
  }

  /** What the visitor sees for some record lists, one list a block. */
  function AllViews(ls: seq<seq<SourceRecord>>): seq<seq<RecordView>> {
    seq(|ls|, i requires 0 <= i < |ls| => Views(ls[i]))
  }

  /** morpheus_generation_service_generate with a visitor that collects the records: it fails
      on no lemma but the empty one. */
  method Generate(index: Index, canonicalLemma: Bytes, ghost bs: seq<SourceBlock>)
    returns (status: ServiceStatus, visits: seq<seq<RecordView>>)
    requires index.Valid() && Prepared(bs) && Shows(index.Tables(), bs) && Text(canonicalLemma)
    ensures status == FAILED <==> canonicalLemma == []
    ensures canonicalLemma != [] ==> visits == AllViews(ListsFor(bs, canonicalLemma))
    ensures canonicalLemma != [] ==> (status == NO_LEMMA <==> ListsFor(bs, canonicalLemma) == [])
  {
    hide Index.Tables, Prepared, Shows, BlockShows, ListsFor;
    visits := [];
    var lookup, view := index.Lookup(canonicalLemma);
    if lookup == INVALID {
      return FAILED, visits;
    }
    LookupMeans(index, canonicalLemma, bs, lookup, view);
    if lookup == NOT_FOUND {
      return NO_LEMMA, visits;
    }
    ghost var ls := ListsFor(bs, canonicalLemma);
    var block := view.firstBlock;
    NoLists(ls);
    while block != view.firstBlock + view.blockCount
      invariant 0 <= block - view.firstBlock <= view.blockCount == |ls|
      invariant visits == AllViews(ls[..block - view.firstBlock])
      decreases view.firstBlock + view.blockCount - block
    {
      ghost var j := block - view.firstBlock;
      MoreLists(ls, j);
      ListOfBlock(index.Tables(), bs, view.firstBlock, view.blockCount, j);
      var ok, records := VisitBlock(index, block, bs);
      if !ok {
        return FAILED, visits;
      }
      visits := visits + [records];
      block := block + 1;
    }
    return FOUND, visits;
  }

  lemma NoLists(ls: seq<seq<SourceRecord>>)
    ensures AllViews(ls[..0]) == [] && ls[..|ls|] == ls
  {
  }

  lemma MoreLists(ls: seq<seq<SourceRecord>>, j: nat)
    requires j < |ls|
    ensures AllViews(ls[..j + 1]) == AllViews(ls[..j]) + [Views(ls[j])]
  {
  }

  lemma ListOfBlock(t: Tables, bs: seq<SourceBlock>, first: nat, count: nat, j: nat)
    requires Shows(t, bs) && first + count <= |bs| && j < count
    ensures BlockShows(t, first + j, bs[first + j]) && RangeLists(bs, first, count)[j] == bs[first + j].records
  {
  }

  /** A successful lookup gives the range of the key's blocks, a failed one means that there
      are none. */
  lemma LookupMeans(index: Index, key: Bytes, bs: seq<SourceBlock>, status: IndexStatus, view: LemmaView)
    requires index.Valid() && Prepared(bs) && Shows(index.Tables(), bs) && status != INVALID
    requires status == OK ==> exists i: nat ::
               i < index.lemmaCount && index.Key(i) == key
               && view == LemmaView(index.Tables().lemmas[i].first, index.Tables().lemmas[i].count)
    requires status == NOT_FOUND ==> forall j: nat | j < index.lemmaCount :: index.Key(j) != key
    ensures status == OK ==> view.firstBlock + view.blockCount <= |bs| && view.blockCount > 0
                             && ListsFor(bs, key) == RangeLists(bs, view.firstBlock, view.blockCount)
    ensures status == NOT_FOUND ==> ListsFor(bs, key) == []
  {
    hide Decode, ListsFor, Sorted, Parsed;
    DecodeCounts(index.file, index.lemmaCount, index.blockCount, index.recordCount);
    var t := index.Tables();
    if status == OK {
      var i: nat :| i < index.lemmaCount && index.Key(i) == key && view == LemmaView(t.lemmas[i].first, t.lemmas[i].count);
      assert LemmaOk(t, i);
      EntryHasLists(t, bs, i, key);
    } else {
      forall i | 0 <= i < |t.lemmas| && t.lemmas[i].key <= |t.strings|
        ensures CString(t.strings, t.lemmas[i].key) != key
      {
        assert index.Key(i) != key;
      }
      NoEntryNoLists(t, bs, key);
    }
  }

  /** The whole way: source blocks are written to an index file, the file is opened, and a lemma
      is looked up.  The file is accepted whenever it could be written and its size fits size_t,
      and the visitor sees exactly the distinct nonempty record lists entered for the lemma, in
      source order. */
  method RoundTrip(blocks: array<SourceBlock>, key: Bytes)
    returns (outcome: Outcome, file: Bytes, accepted: bool, status: ServiceStatus, visits: seq<seq<RecordView>>)
    requires Parsed(blocks[..]) && InSourceOrder(blocks[..]) && Text(key) && key != []
    modifies blocks
    ensures exists bs :: Stands(bs, old(blocks[..])) && outcome == if Fits(bs) then WRITTEN else OVERFLOW
    ensures accepted <==> outcome == WRITTEN && |file| <= MAX64
    ensures accepted ==> visits == AllViews(SourceLists(old(blocks[..]), key))
    ensures accepted ==> status == if SourceLists(old(blocks[..]), key) == [] then NO_LEMMA else FOUND
  {
    hide Parsed, InSourceOrder, Fits, IsIndex, Layout, AllViews;
    status, visits, accepted := FAILED, [], false;
    ghost var bs;
    outcome, file, bs := WriteIndex(blocks);
    if outcome != WRITTEN || |file| > MAX64 {
      return;
    }
    var index := new Index(file);
    accepted := index.ValidLayout();
    SameTables(file, index.Tables(), bs);
    status, visits := Generate(index, key, bs);
  }

  lemma SameTables(file: Bytes, t: Tables, bs: seq<SourceBlock>)
    requires IsIndex(file, t) && IsIndex(file, Layout(bs)) && Prepared(bs)
    ensures Shows(t, bs)
  {
    hide IsIndex, Layout, Shows;
    IndexIsAnnounced(file, t);
    IndexIsAnnounced(file, Layout(bs));
    LayoutShows(bs);
  }

  // ----- from source files to answers

  /** The blocks of the source files in turn; an error ends the build. */
  function ParseFiles(files: seq<Bytes>): (p: Parse)
    ensures p.Reading? ==> !p.open
  {
    if files == [] then Reading([], false)
    else
      var p := ParseFiles(files[..|files| - 1]);
      if p.Failed? then p
      else
        var q := FeedAll(p, Lines(files[|files| - 1]));
        if q.Failed? then q else Reading(q.blocks, false)
  }

  /** main of the index builder. */
  method Build(files: seq<Bytes>) returns (parsed: bool, outcome: Outcome, file: Bytes, ghost bs: seq<SourceBlock>)
    ensures parsed <==> ParseFiles(files).Reading?
    ensures parsed ==>
      && Stands(bs, ParseFiles(files).blocks)
      && outcome == (if Fits(bs) then WRITTEN else OVERFLOW)
      && (outcome == WRITTEN ==> IsIndex(file, Layout(bs)))
    ensures parsed ==> WellBuilt(ParseFiles(files).blocks)
  {
    hide FeedAll, Lines, Stands, Fits, IsIndex, Layout;
    outcome, file, bs := OVERFLOW, [], [];
    var index := new SourceIndex();
    var input := 0;
    while input != |files|
      invariant 0 <= input <= |files| && index.Valid() && fresh(index)
      invariant ParseFiles(files[..input]) == Reading(index.blocks, false)
    {
      assert files[..input + 1][..input] == files[..input];
      var result := index.ParseSource(files[input]);
      if result.Failed? {
        ParseFailed(files, input + 1);
        return false, outcome, file, bs;
      }
      input := input + 1;
    }
    assert files[..input] == files;
    WellBuiltInOrder(index.blocks);
    var blocks := ToArray(index.blocks);
    outcome, file, bs := WriteIndex(blocks);
    parsed := true;
  }

  method ToArray(bs: seq<SourceBlock>) returns (blocks: array<SourceBlock>)
    ensures fresh(blocks) && blocks[..] == bs
  {
    blocks := new SourceBlock[|bs|](i requires 0 <= i < |bs| => bs[i]);
  }

  lemma {:induction false} ParseFailed(files: seq<Bytes>, k: nat)
    requires k <= |files| && ParseFiles(files[..k]).Failed?
    ensures ParseFiles(files).Failed?
    decreases |files| - k
  {
    if k == |files| {
      assert files[..k] == files;
    } else {
      assert files[..k + 1][..k] == files[..k];
      ParseFailed(files, k + 1);
    }
  }

  datatype Answer = INVALID_ARGUMENT | INPUT_TOO_LONG | NOTHING | RECORDS(visits: seq<seq<RecordView>>)

  /** The front of morpheus_generate, up to the records its forms are made from. */
  method Ask(index: Index, spelling: Bytes, ghost bs: seq<SourceBlock>) returns (answer: Answer)
    requires index.Valid() && Prepared(bs) && Shows(index.Tables(), bs)
    ensures answer == AnswerTo(bs, spelling)
  {
    hide Index.Valid, Prepared, Shows, AllViews, Strip, DropBang, ListsFor;
    if spelling == [] {
      return INVALID_ARGUMENT;
    }
    if |spelling| >= Spelling.MAXWORDSIZE {
      return INPUT_TOO_LONG;
    }
    if exists i :: 0 <= i < |spelling| && spelling[i] == 0 {
      return INVALID_ARGUMENT;
    }
    var canonical := PublicKey(spelling);
    if canonical == [] {
      return INVALID_ARGUMENT;
    }
    PublicKeyText(spelling);
    var status, visits := Generate(index, canonical, bs);
    answer := if status == NO_LEMMA then NOTHING else RECORDS(visits);
  }

  ghost function AnswerTo(bs: seq<SourceBlock>, spelling: Bytes): Answer {
    var key := Strip(DropBang(spelling));
    if spelling == [] then INVALID_ARGUMENT
    else if |spelling| >= Spelling.MAXWORDSIZE then INPUT_TOO_LONG
    else if !Text(spelling) || key == [] then INVALID_ARGUMENT
    else if ListsFor(bs, key) == [] then NOTHING
    else RECORDS(AllViews(ListsFor(bs, key)))
  }

  lemma PublicKeyText(spelling: Bytes)
    requires Text(spelling)
    ensures Text(Strip(DropBang(spelling)))
  {
    StripIs(DropBang(spelling));
  }

  // ----- what the answers say about the source

  lemma {:induction false} ListsNeedBlocks(bs: seq<SourceBlock>, key: Bytes)
    requires ListsFor(NonEmpty(bs), key) != []
    ensures exists i :: 0 <= i < |bs| && bs[i].lemma_ == key && bs[i].records != []
  {
    var rs := ListsFor(NonEmpty(bs), key)[0];
    ListsContain(NonEmpty(bs), key, rs);
    var k :| 0 <= k < |NonEmpty(bs)| && NonEmpty(bs)[k].lemma_ == key && NonEmpty(bs)[k].records == rs;
    NonEmptyKeeps(bs);
    assert NonEmpty(bs)[k] in bs;
  }

  /** A spelling taken from a :le: line, without white space, with records entered under its key:
      it finds exactly the distinct nonempty record lists entered there, in source order, if and
      only if it is short enough for a word buffer. */
  lemma SourceSpellingFinds(source: seq<SourceBlock>, bs: seq<SourceBlock>, spelling: Bytes)
    requires Stands(bs, source) && Text(spelling) && NoWhite(spelling)
    requires SourceLists(source, CanonicalKey(spelling)) != [] && CanonicalKey(spelling) != []
    ensures AnswerTo(bs, spelling) == RECORDS(AllViews(SourceLists(source, CanonicalKey(spelling)))) <==>
            |spelling| < Spelling.MAXWORDSIZE
  {
    SameKey(spelling);
    KeyOfNothing(spelling);
  }

  lemma KeyOfNothing(spelling: Bytes)
    ensures CanonicalKey(spelling) != [] ==> spelling != []
  {
  }

  /** A key under which nothing is entered is answered so. */
  lemma SourceSpellingMisses(source: seq<SourceBlock>, bs: seq<SourceBlock>, spelling: Bytes)
    requires Stands(bs, source) && Text(spelling) && NoWhite(spelling)
    requires SourceLists(source, CanonicalKey(spelling)) == [] && CanonicalKey(spelling) != []
    ensures AnswerTo(bs, spelling) == if |spelling| < Spelling.MAXWORDSIZE then NOTHING else INPUT_TOO_LONG
  {
    SameKey(spelling);
    KeyOfNothing(spelling);
  }

  /** Spellings that are too long can be entered: the builder takes the line of one and keeps all
      of it as a key. */
  lemma LongSpellingIsStored(spelling: Bytes)
    requires Text(spelling) && NoWhite(spelling) && NoMarker(spelling) && spelling != [] && spelling[0] != BANG
    requires |spelling| < LINE_CAPACITY - 5
    ensures Feed(Reading([], false), LE_TAG + spelling + [LF]) == Reading([SourceBlock(spelling, 0, [])], true)
    ensures |spelling| >= Spelling.MAXWORDSIZE ==> forall bs :: AnswerTo(bs, spelling) == INPUT_TOO_LONG
  {
    hide CanonicalKey, Trimmed;
    var content := LE_TAG + spelling;
    TrimmedLine(content);
    TrimmedWord(spelling);
    PlainKey(spelling);
    assert content[4..] == spelling && LE_TAG <= content;
  }

  lemma TrimmedLine(s: Bytes)
    requires s != [] && !White(s[0]) && !White(s[|s| - 1])
    ensures Trimmed(s + [LF]) == s
  {
    var line := s + [LF];
    assert line[0] == s[0] && line[|s|] == LF && line[..|s|] == s;
    assert TrimStart(line) == line;
    assert TrimEnd(line) == TrimEnd(s) == s;
  }

  lemma TrimmedWord(s: Bytes)
    requires s != [] && NoWhite(s)
    ensures Trimmed(s) == s && !White(s[0]) && !White(s[|s| - 1])
  {
  }

  lemma PlainKey(s: Bytes)
    requires NoWhite(s) && NoMarker(s) && s != [] && s[0] != BANG
    ensures CanonicalKey(s) == s
  {
    SameKey(s);
    StripNothing(s);
  }

  /** A word of sixty letters is one. */
  lemma LongSpellingExists()
    ensures var s: Bytes := seq(Spelling.MAXWORDSIZE, i => 97);
      Text(s) && NoWhite(s) && NoMarker(s) && s != [] && s[0] != BANG && Spelling.MAXWORDSIZE <= |s| < LINE_CAPACITY - 5
  {
  }

  /** A stored key as a spelling of its own: it finds its own records if it is short enough for a
      word buffer and does not begin with '!'.  With the '!' it is answered as the rest of it, which
      is another key. */
  lemma StoredKeyAnswered(source: seq<SourceBlock>, bs: seq<SourceBlock>, key: Bytes)
    requires Stands(bs, source) && KeyFit(key) && key != [] && SourceLists(source, key) != []
    ensures AnswerTo(bs, key) ==
      if |key| >= Spelling.MAXWORDSIZE then INPUT_TOO_LONG
      else if key[0] != BANG then RECORDS(AllViews(SourceLists(source, key)))
      else if key[1..] == [] then INVALID_ARGUMENT
      else if SourceLists(source, key[1..]) == [] then NOTHING
      else RECORDS(AllViews(SourceLists(source, key[1..])))
  {
    StoredKeyFindsItself(key);
    StripNothing(DropBang(key));
  }

  /** A spelling with white space inside finds nothing, whatever the source: morpheus_generate
      keeps the white space that the builder cuts off. */
  lemma WhiteSpellingFindsNothing(source: seq<SourceBlock>, bs: seq<SourceBlock>, spelling: Bytes)
    requires WellBuilt(source) && Stands(bs, source) && Text(spelling) && !NoWhite(spelling)
    requires |spelling| < Spelling.MAXWORDSIZE
    ensures AnswerTo(bs, spelling) == NOTHING
  {
    var key := Strip(DropBang(spelling));
    WhiteSpellingIsNoKey(spelling);
    PublicKeyText(spelling);
    StripIs(DropBang(spelling));
    DedupKeeps(ListsFor(NonEmpty(source), key));
    if ListsFor(NonEmpty(source), key) != [] {
      ListsNeedBlocks(source, key);
    }
    assert ListsFor(bs, key) == SourceLists(source, key);
  }

  /** A host limit is exceeded: one of the builder, or the file does not fit size_t. */
  ghost predicate TooLarge(bs: seq<SourceBlock>) {
    !Fits(bs) || FileSize(Layout(bs)) > MAX64
  }

  function FileSize(t: Tables): nat {
    StringBase(|t.lemmas|, |t.blocks|, |t.records|) + |t.strings|
  }

  lemma IndexSize(file: Bytes, t: Tables)
    requires IsIndex(file, t)
    ensures |file| == FileSize(t)
  {
  }

  /** The whole way, from source files to the answer of morpheus_generate.  There is one unless
      a source file has an error or a host limit is exceeded. */
  method Answered(files: seq<Bytes>, spelling: Bytes) returns (built: bool, answer: Answer)
    ensures built ==> ParseFiles(files).Reading? && WellBuilt(ParseFiles(files).blocks)
    ensures built ==> exists bs :: Stands(bs, ParseFiles(files).blocks) && answer == AnswerTo(bs, spelling)
    ensures !built && ParseFiles(files).Reading? ==> exists bs :: Stands(bs, ParseFiles(files).blocks) && TooLarge(bs)
  {
    hide ParseFiles, Stands, IsIndex, Layout, WellBuilt, Fits, AnswerTo, FileSize;
    answer := NOTHING;
    var parsed, outcome, file, bs := Build(files);
    if parsed && outcome == WRITTEN {
      IndexSize(file, Layout(bs));
    }
    if !parsed || outcome != WRITTEN || |file| > MAX64 {
      assert parsed ==> TooLarge(bs);
      return false, answer;
    }
    var index := new Index(file);
    built := index.ValidLayout();
    StandsIsPrepared(bs, ParseFiles(files).blocks);
    SameTables(file, index.Tables(), bs);
    answer := Ask(index, spelling, bs);
  }

  lemma StandsIsPrepared(bs: seq<SourceBlock>, source: seq<SourceBlock>)
    requires Stands(bs, source)
    ensures Prepared(bs)
  {
  }
}
