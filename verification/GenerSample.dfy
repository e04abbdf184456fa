/** The index file of one small source, byte by byte: the lemma a with the noun b and its keys c. */
module GenerSample {
  import opened ByteStrings
  import opened GenerBlocks
  import opened GenerFormat
  import opened GenerLayout
  import opened GenerParse
  import opened GenerService
  import opened GenerWriter
  import opened PreparedLines
  import GenerPrint

  const SAMPLE := [SourceBlock([97], 0, [SourceRecord(1, [98], [99])])]

  /** ":le:a", ":no:b c" */
  const LINES: seq<Bytes> := [[58, 108, 101, 58, 97], [58, 110, 111, 58, 98, 32, 99]]

  lemma SampleIsRead()
    ensures ParseFiles([Written(LINES)]) == Reading(SAMPLE, false)
  {
    hide Written, ParseFiles;
    var rs := SAMPLE[0].records;
    assert GenerPrint.RecordLine(rs[0]) == LINES[1];
    assert rs[..0] == [] && GenerPrint.RecordLines(rs) == [LINES[1]];
    assert GenerPrint.LemmaLine([97]) == LINES[0];
    assert SAMPLE[..0] == [] && GenerPrint.BlockLines(SAMPLE) == [] + [LINES[0]] + [LINES[1]] == LINES;
    GenerPrint.PrintedIsRead(SAMPLE);
  }

  lemma SampleStands()
    ensures Stands(SAMPLE, SAMPLE)
  {
    hide ListsFor, SourceLists, Prepared;
    SamplePrepared();
    forall key
      ensures ListsFor(SAMPLE, key) == SourceLists(SAMPLE, key)
    {
      SampleLists(key);
    }
  }

  lemma SamplePrepared()
    ensures Prepared(SAMPLE)
  {
  }

  lemma SampleLists(key: Bytes)
    ensures ListsFor(SAMPLE, key) == SourceLists(SAMPLE, key)
  {
    hide SourceLists;
    GenerPrint.ListsMore(SAMPLE, key);
    GenerPrint.NoBlocks(key);
    assert SAMPLE[..0] == [] && ListsFor([], key) == [];
  }

  lemma SampleLayout()
    ensures Layout(SAMPLE) == Tables([LemmaEntry(0, 0, 1, 0)], [BlockEntry(0, 1, 0)], [RecordEntry(1, 0, 2, 4)], [97, 0, 98, 0, 99, 0])
  {
    var rs := SAMPLE[0].records;
    assert SAMPLE[..0] == [] && rs[..0] == [];
    var t := OpenBlock(OpenGroup(Tables([], [], [], []), [97]), SAMPLE[0]);
    assert t == Tables([LemmaEntry(0, 0, 1, 0)], [BlockEntry(0, 1, 0)], [], [97, 0]);
    assert AddRecords(t, rs) == AddRecord(t, rs[0]);
  }

  lemma NumberAt(file: Bytes, at: nat, n: nat, v: nat)
    requires at + n <= |file| && Value(file[at..at + n]) == v
    ensures file[at..at + n] == Le(v, n)
  {
    LeOfValue(file[at..at + n]);
  }

  lemma {:induction false} SmallNumber(v: nat, n: nat)
    requires v < 256 && n > 0
    ensures Le(v, n) == [v] + seq(n - 1, i => 0)
    decreases n
  {
    if n > 1 {
      SmallNumber(0, n - 1);
    }
    assert v / 256 == 0 && (n == 1 ==> Le(0, 0) == []);
  }

  lemma SmallAt(file: Bytes, at: nat, n: nat, v: nat)
    requires at + n <= |file| && n > 0 && v < 256 && Value(file[at..at + n]) == v
    ensures file[at] == v && forall i | at < i < at + n :: file[i] == 0
  {
    NumberAt(file, at, n, v);
    SmallNumber(v, n);
    var piece := file[at..at + n];
    assert piece[0] == file[at];
    forall i | at < i < at + n
      ensures file[i] == 0
    {
      assert piece[i - at] == file[i];
    }
  }

  /** What the bytes of a file with these tables are: the magic number, the version, the language,
      four counts, the hash and a reserved field; one entry of each table; the strings. */
  ghost predicate SampleBytes(file: Bytes) {
    && |file| == 134
    && file[..16] == [77, 79, 82, 80, 72, 71, 69, 78, 1, 0, 0, 0, 1, 0, 0, 0]
    && file[16..24] == [1, 0, 0, 0, 0, 0, 0, 0] && file[24..32] == [1, 0, 0, 0, 0, 0, 0, 0]
    && file[32..40] == [1, 0, 0, 0, 0, 0, 0, 0] && file[40..48] == [6, 0, 0, 0, 0, 0, 0, 0]
    && file[48..56] == Le(PayloadHash(file[64..]), 8) && file[56..64] == [0, 0, 0, 0, 0, 0, 0, 0]
    && file[64..88] == [0, 0, 0, 0, 0, 0, 0, 0, 0, 0, 0, 0, 0, 0, 0, 0, 1, 0, 0, 0, 0, 0, 0, 0]
    && file[88..104] == [0, 0, 0, 0, 0, 0, 0, 0, 1, 0, 0, 0, 0, 0, 0, 0]
    && file[104..128] == [1, 0, 0, 0, 0, 0, 0, 0, 2, 0, 0, 0, 0, 0, 0, 0, 4, 0, 0, 0, 0, 0, 0, 0]
    && file[128..] == [97, 0, 98, 0, 99, 0]
  }

  lemma EightOf(file: Bytes, at: nat, v: nat)
    requires at + 8 <= |file| && v < 256 && U64(file, at) == v
    ensures file[at..at + 8] == [v, 0, 0, 0, 0, 0, 0, 0]
  {
    SmallAt(file, at, 8, v);
  }

  lemma FourOf(file: Bytes, at: nat, v: nat)
    requires at + 4 <= |file| && v < 256 && U32(file, at) == v
    ensures file[at..at + 4] == [v, 0, 0, 0]
  {
    SmallAt(file, at, 4, v);
  }

  lemma HeaderOf(file: Bytes, t: Tables)
    requires HeaderFor(file, t) && |t.lemmas| == |t.blocks| == |t.records| == 1 && |t.strings| == 6
    ensures |file| >= 64 && file[..16] == [77, 79, 82, 80, 72, 71, 69, 78, 1, 0, 0, 0, 1, 0, 0, 0]
    ensures file[16..24] == [1, 0, 0, 0, 0, 0, 0, 0] && file[24..32] == [1, 0, 0, 0, 0, 0, 0, 0]
    ensures file[32..40] == [1, 0, 0, 0, 0, 0, 0, 0] && file[40..48] == [6, 0, 0, 0, 0, 0, 0, 0]
    ensures file[48..56] == Le(PayloadHash(file[64..]), 8) && file[56..64] == [0, 0, 0, 0, 0, 0, 0, 0]
  {
    hide U32, U64, Le, PayloadHash;
    FrontOf(file);
    EightOf(file, 16, 1);
    EightOf(file, 24, 1);
    EightOf(file, 32, 1);
    EightOf(file, 40, 6);
    HashAt(file);
    EightOf(file, 56, 0);
  }

  lemma FrontOf(file: Bytes)
    requires |file| >= 64 && file[..8] == MAGIC && U32(file, 8) == 1 && U32(file, 12) == 1
    ensures file[..16] == [77, 79, 82, 80, 72, 71, 69, 78, 1, 0, 0, 0, 1, 0, 0, 0]
  {
    hide U32;
    FourOf(file, 8, 1);
    FourOf(file, 12, 1);
    assert file[..16] == file[..8] + file[8..12] + file[12..16];
  }

  lemma HashAt(file: Bytes)
    requires |file| >= 64 && U64(file, 48) == PayloadHash(file[64..])
    ensures file[48..56] == Le(PayloadHash(file[64..]), 8)
  {
    hide PayloadHash;
    NumberAt(file, 48, 8, PayloadHash(file[64..]));
  }

  lemma LemmaOf(file: Bytes)
    requires |file| == 134 && LemmaIn(file, 64) == LemmaEntry(0, 0, 1, 0)
    ensures file[64..88] == [0, 0, 0, 0, 0, 0, 0, 0, 0, 0, 0, 0, 0, 0, 0, 0, 1, 0, 0, 0, 0, 0, 0, 0]
  {
    hide U32, U64;
    EightOf(file, 64, 0);
    EightOf(file, 72, 0);
    FourOf(file, 80, 1);
    FourOf(file, 84, 0);
    assert file[64..88] == file[64..72] + file[72..80] + file[80..84] + file[84..88];
  }

  lemma BlockOf(file: Bytes)
    requires |file| == 134 && BlockIn(file, 88) == BlockEntry(0, 1, 0)
    ensures file[88..104] == [0, 0, 0, 0, 0, 0, 0, 0, 1, 0, 0, 0, 0, 0, 0, 0]
  {
    hide U32, U64;
    EightOf(file, 88, 0);
    FourOf(file, 96, 1);
    FourOf(file, 100, 0);
    assert file[88..104] == file[88..96] + file[96..100] + file[100..104];
  }

  lemma EntryOf(file: Bytes)
    requires |file| == 134 && RecordIn(file, 104) == RecordEntry(1, 0, 2, 4)
    ensures file[104..128] == [1, 0, 0, 0, 0, 0, 0, 0, 2, 0, 0, 0, 0, 0, 0, 0, 4, 0, 0, 0, 0, 0, 0, 0]
  {
    hide U32, U64;
    FourOf(file, 104, 1);
    FourOf(file, 108, 0);
    EightOf(file, 112, 2);
    EightOf(file, 120, 4);
    assert file[104..128] == file[104..108] + file[108..112] + file[112..120] + file[120..128];
  }

  lemma TablesOf(file: Bytes)
    requires Holds(file, Tables([LemmaEntry(0, 0, 1, 0)], [BlockEntry(0, 1, 0)], [RecordEntry(1, 0, 2, 4)], [97, 0, 98, 0, 99, 0]))
    ensures |file| == 134 && file[128..] == [97, 0, 98, 0, 99, 0]
    ensures LemmaIn(file, 64) == LemmaEntry(0, 0, 1, 0) && BlockIn(file, 88) == BlockEntry(0, 1, 0)
    ensures RecordIn(file, 104) == RecordEntry(1, 0, 2, 4)
  {
    hide LemmaIn, BlockIn, RecordIn;
    var t := Tables([LemmaEntry(0, 0, 1, 0)], [BlockEntry(0, 1, 0)], [RecordEntry(1, 0, 2, 4)], [97, 0, 98, 0, 99, 0]);
    assert t.lemmas[0] == LemmaIn(file, 64) && t.blocks[0] == BlockIn(file, 88) && t.records[0] == RecordIn(file, 104);
  }

  /** A run of the builder on it. */
  method BuildSample() returns (built: bool, file: Bytes)
    ensures built ==> SampleBytes(file)
    ensures !built ==> exists bs :: Stands(bs, SAMPLE) && !Fits(bs)
  {
    hide Stands, Fits, Layout, Written, ParseFiles, IsIndex, Holds, HeaderFor;
    SampleIsRead();
    var parsed, outcome;
    ghost var bs;
    parsed, outcome, file, bs := Build([Written(LINES)]);
    built := outcome == WRITTEN;
    if built {
      SampleStands();
      TablesDetermined(bs, SAMPLE, SAMPLE);
      SampleLayout();
      IndexParts(file, Layout(SAMPLE));
      HeaderOf(file, Layout(SAMPLE));
      TablesOf(file);
      LemmaOf(file);
      BlockOf(file);
      EntryOf(file);
    }
  }

  lemma IndexParts(file: Bytes, t: Tables)
    requires IsIndex(file, t)
    ensures HeaderFor(file, t) && Holds(file, t)
  {
  }
}
