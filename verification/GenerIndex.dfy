/** The reader of src/api/gener_index.c: validation and lookup. */
module GenerIndex {
  import opened ByteStrings
  import opened GenerFormat

  datatype IndexStatus = OK | NOT_FOUND | INVALID

  datatype LemmaView = LemmaView(firstBlock: nat, blockCount: nat)
  datatype BlockView = BlockView(firstRecord: nat, recordCount: nat)
  datatype RecordView = RecordView(kind: nat, stem: Bytes, keys: Bytes)

  /** string_at's result is a pointer into the string table, NULL if there is no string. */
  datatype MaybeString = NoString | StringIn(at: nat)

  /** What the file holds if its header is to be believed. */
  function Decode(file: Bytes, l: nat, b: nat, r: nat): Tables
    requires StringBase(l, b, r) <= |file|
  {
    Tables(
      seq(l, i requires 0 <= i < l => LemmaIn(file, HEADER_SIZE + i * LEMMA_SIZE)),
      seq(b, i requires 0 <= i < b => BlockIn(file, BlockBase(l) + i * BLOCK_SIZE)),
      seq(r, i requires 0 <= i < r => RecordIn(file, RecordBase(l, b) + i * RECORD_SIZE)),
      file[StringBase(l, b, r)..])
  }

  lemma DecodeHolds(file: Bytes, l: nat, b: nat, r: nat)
    requires StringBase(l, b, r) <= |file|
    ensures Holds(file, Decode(file, l, b, r))
  {
    hide LemmaIn, BlockIn, RecordIn;
  }

  lemma DecodeCounts(file: Bytes, l: nat, b: nat, r: nat)
    requires StringBase(l, b, r) <= |file|
    ensures var t := Decode(file, l, b, r);
      && |t.lemmas| == l && |t.blocks| == b && |t.records| == r
      && t.strings == file[StringBase(l, b, r)..]
  {
  }

  lemma LemmaEntryAt(file: Bytes, l: nat, b: nat, r: nat, i: nat)
    requires StringBase(l, b, r) <= |file| && i < l
    ensures var t := Decode(file, l, b, r);
      && |t.lemmas| == l && |t.blocks| == b && t.strings == file[StringBase(l, b, r)..]
      && HEADER_SIZE + i * LEMMA_SIZE + LEMMA_SIZE <= |file|
      && t.lemmas[i] == LemmaIn(file, HEADER_SIZE + i * LEMMA_SIZE)
  {
  }

  lemma BlockEntryAt(file: Bytes, l: nat, b: nat, r: nat, i: nat)
    requires StringBase(l, b, r) <= |file| && i < b
    ensures var t := Decode(file, l, b, r);
      && |t.blocks| == b && |t.records| == r && BlockBase(l) + i * BLOCK_SIZE + BLOCK_SIZE <= |file|
      && t.blocks[i] == BlockIn(file, BlockBase(l) + i * BLOCK_SIZE)
  {
  }

  lemma RecordEntryAt(file: Bytes, l: nat, b: nat, r: nat, i: nat)
    requires StringBase(l, b, r) <= |file| && i < r
    ensures var t := Decode(file, l, b, r);
      && |t.records| == r && t.strings == file[StringBase(l, b, r)..]
      && RecordBase(l, b) + i * RECORD_SIZE + RECORD_SIZE <= |file|
      && t.records[i] == RecordIn(file, RecordBase(l, b) + i * RECORD_SIZE)
  {
  }

  /** A file holds at most one set of tables for given counts. */
  lemma HeldIsDecoded(file: Bytes, t: Tables)
    requires Holds(file, t)
    ensures t == Decode(file, |t.lemmas|, |t.blocks|, |t.records|)
  {
    var d := Decode(file, |t.lemmas|, |t.blocks|, |t.records|);
    assert d.lemmas == t.lemmas && d.blocks == t.blocks && d.records == t.records;
  }

  lemma MultiplyFits(count: nat, size: nat)
    requires count > 0
    ensures size > MAX64 / count <==> count * size > MAX64
  {
    var q := MAX64 / count;
    assert count * q <= MAX64 < count * (q + 1) by {
      assert MAX64 == count * q + MAX64 % count;
      assert count * (q + 1) == count * q + count;
    }
    if size > q {
      assert count * size >= count * (q + 1);
    } else {
      assert count * size <= count * q;
    }
  }

  /** The tests of valid_layout before its loops. */
  ghost predicate HeaderOk(file: Bytes) {
    && |file| >= HEADER_SIZE
    && file[..8] == MAGIC && U32(file, 8) == FORMAT_VERSION && U32(file, 12) == LANGUAGE_GREEK && U64(file, 56) == 0
    && StringBase(U64(file, 16), U64(file, 24), U64(file, 32)) + U64(file, 40) == |file|
    && U64(file, 48) == PayloadHash(file[HEADER_SIZE..])
  }

  ghost function Announced(file: Bytes): Tables
    requires HeaderOk(file)
  {
    Decode(file, U64(file, 16), U64(file, 24), U64(file, 32))
  }

  lemma IndexIsAnnounced(file: Bytes, t: Tables)
    requires IsIndex(file, t)
    ensures HeaderOk(file) && t == Announced(file)
  {
    hide Canonical, PayloadHash, Value;
    HeldIsDecoded(file, t);
  }

  lemma AnnouncedIsHeld(file: Bytes)
    requires HeaderOk(file)
    ensures HeaderFor(file, Announced(file)) && Holds(file, Announced(file))
  {
    hide PayloadHash, Value;
    DecodeHolds(file, U64(file, 16), U64(file, 24), U64(file, 32));
    DecodeCounts(file, U64(file, 16), U64(file, 24), U64(file, 32));
  }

  // table_size
  method TableSize(count: nat, entrySize: nat) returns (ok: bool, result: nat)
    ensures ok <==> count * entrySize <= MAX64
    ensures ok ==> result == count * entrySize
  {
    if count != 0 {
      MultiplyFits(count, entrySize);
    }
    if count != 0 && entrySize > MAX64 / count {
      return false, 0;
    }
    return true, count * entrySize;
  }

  // add_size
  method AddSize(total: nat, amount: nat) returns (ok: bool, sum: nat)
    requires total <= MAX64
    ensures ok <==> total + amount <= MAX64
    ensures ok ==> sum == total + amount
    ensures !ok ==> sum == total
  {
    if amount > MAX64 - total {
      return false, total;
    }
    return true, total + amount;
  }

  lemma Verdict(file: Bytes, ok: bool)
    requires HeaderOk(file)
    requires ok <==> Canonical(Announced(file))
    ensures ok <==> exists t :: IsIndex(file, t)
    ensures ok ==> IsIndex(file, Announced(file))
  {
    AnnouncedIsHeld(file);
    if ok {
      assert IsIndex(file, Announced(file));
    } else {
      forall t
        ensures !IsIndex(file, t)
      {
        if IsIndex(file, t) {
          IndexIsAnnounced(file, t);
        }
      }
    }
  }

  lemma NoVerdict(file: Bytes)
    requires !HeaderOk(file)
    ensures !exists t :: IsIndex(file, t)
  {
    forall t
      ensures !IsIndex(file, t)
    {
      if IsIndex(file, t) {
        IndexIsAnnounced(file, t);
      }
    }
  }

  lemma LemmaEndStart(t: Tables)
    ensures LemmaEnd(t.lemmas, 0) == 0
  {
  }

  lemma LemmaEndNext(t: Tables, i: nat)
    requires i < |t.lemmas| && LemmaOk(t, i)
    ensures LemmaEnd(t.lemmas, i + 1) == LemmaEnd(t.lemmas, i) + t.lemmas[i].count <= |t.blocks|
  {
  }

  /** struct morpheus_gener_index.  The table pointers are offsets into the file. */
  class Index {
    const file: Bytes
    var lemmas: nat
    var blocks: nat
    var records: nat
    var strings: nat
    var stringSize: nat
    var lemmaCount: nat
    var blockCount: nat
    var recordCount: nat

    /** The tables the fields point at. */
    ghost function Tables(): Tables
      requires StringBase(lemmaCount, blockCount, recordCount) <= |file|
      reads this
    {
      Decode(file, lemmaCount, blockCount, recordCount)
    }

    /** The fields fit the file. */
    ghost predicate Laid()
      reads this
    {
      && lemmas == HEADER_SIZE && blocks == BlockBase(lemmaCount) && records == RecordBase(lemmaCount, blockCount)
      && strings == StringBase(lemmaCount, blockCount, recordCount)
      && strings + stringSize == |file|
    }

    /** An open index. */
    ghost predicate Valid()
      reads this
    {
      Laid() && Canonical(Tables())
    }

    // calloc leaves all counts 0
    constructor (data: Bytes)
      ensures file == data
    {
      file := data;
      lemmas, blocks, records, strings, stringSize := 0, 0, 0, 0, 0;
      lemmaCount, blockCount, recordCount := 0, 0, 0;
    }

    /** string_at: NULL unless a terminator follows inside the table. */
    method StringAtOffset(offset: nat) returns (r: MaybeString)
      requires Laid()
      ensures r == if offset < stringSize && Terminated(file[strings..], offset) then StringIn(strings + offset) else NoString
    {
      if offset >= stringSize {
        return NoString;
      }
      var p := offset;
      while p < stringSize
        invariant offset <= p <= stringSize
        invariant forall i | offset <= i < p :: file[strings..][i] != 0
      {
        if file[strings + p] == 0 {
          assert file[strings..][p] == 0;
          return StringIn(strings + offset);
        }
        p := p + 1;
      }
      return NoString;
    }

    /** The part of valid_layout before its loops. */
    method HeaderValid() returns (ok: bool)
      requires |file| <= MAX64
      modifies this
      ensures ok <==> HeaderOk(file)
      ensures ok ==> Laid() && Tables() == Announced(file)
      ensures ok ==> lemmaCount == U64(file, 16) && blockCount == U64(file, 24) && recordCount == U64(file, 32)
    {
      hide PayloadHash, Value, Decode;
      if |file| < HEADER_SIZE {
        return false;
      }
      var version := ReadU32(8);
      var language := ReadU32(12);
      var rest := ReadU64(56);
      if file[..8] != MAGIC || version != FORMAT_VERSION || language != LANGUAGE_GREEK || rest != 0 {
        return false;
      }
      lemmaCount := ReadU64(16);
      blockCount := ReadU64(24);
      recordCount := ReadU64(32);
      stringSize := ReadU64(40);
      var fits, lemmaSize, blockSize, recordSize := TablesFit();
      if !fits {
        return false;
      }
      var stored := ReadU64(48);
      var hash := ComputeHash(file[HEADER_SIZE..]);
      if stored != hash {
        return false;
      }
      lemmas := HEADER_SIZE;
      blocks := lemmas + lemmaSize;
      records := blocks + blockSize;
      strings := records + recordSize;
      return true;
    }

    /** The size computations of valid_layout, none of which may exceed size_t. */
    method TablesFit() returns (ok: bool, lemmaSize: nat, blockSize: nat, recordSize: nat)
      requires HEADER_SIZE <= |file| <= MAX64
      ensures ok <==> StringBase(lemmaCount, blockCount, recordCount) + stringSize == |file|
      ensures ok ==> lemmaSize == lemmaCount * LEMMA_SIZE && blockSize == blockCount * BLOCK_SIZE
                     && recordSize == recordCount * RECORD_SIZE
    {
      var expected, sized := HEADER_SIZE, true;
      lemmaSize, blockSize, recordSize := 0, 0, 0;
      ok, lemmaSize := TableSize(lemmaCount, LEMMA_SIZE);
      if ok {
        ok, blockSize := TableSize(blockCount, BLOCK_SIZE);
      }
      if ok {
        ok, recordSize := TableSize(recordCount, RECORD_SIZE);
      }
      if ok {
        ok, expected := AddSize(expected, lemmaSize);
      }
      if ok {
        ok, expected := AddSize(expected, blockSize);
      }
      if ok {
        ok, expected := AddSize(expected, recordSize);
      }
      if ok {
        ok, expected := AddSize(expected, stringSize);
      }
      ok := ok && expected == |file|;
    }

    /** valid_layout accepts exactly the canonical index files. */
    method ValidLayout() returns (ok: bool)
      requires |file| <= MAX64
      modifies this
      ensures ok <==> exists t :: IsIndex(file, t)
      ensures ok ==> Valid() && IsIndex(file, Tables())
    {
      hide HeaderOk, HeaderFor, Holds, LemmasOk, BlocksOk, RecordsOk, Decode;
      ok := HeaderValid();
      if ok {
        DecodeCounts(file, lemmaCount, blockCount, recordCount);
        ok := LemmasValid();
        if ok {
          ok := BlocksValid();
        }
        if ok {
          ok := RecordsValid();
        }
        Verdict(file, ok);
      } else {
        NoVerdict(file);
      }
    }

    /** The loop of valid_layout over the lemma table. */
    method LemmasValid() returns (ok: bool)
      requires Laid()
      ensures ok <==> LemmasOk(Tables())
    {
      hide Decode, LemmaOk, LemmaEnd, StringBase;
      var expectedBlock := 0;
      var previousKey := NoString;
      ghost var t := Tables();
      DecodeCounts(file, lemmaCount, blockCount, recordCount);
      LemmaEndStart(t);
      var item := 0;
      while item != lemmaCount
        invariant 0 <= item <= lemmaCount
        invariant forall i {:trigger LemmaOk(t, i)} | 0 <= i < item :: LemmaOk(t, i)
        invariant expectedBlock == LemmaEnd(t.lemmas, item) <= blockCount
        invariant previousKey == if item == 0 then NoString else StringIn(strings + t.lemmas[item - 1].key)
      {
        var valid, key, count := LemmaValid(item, expectedBlock, previousKey);
        if !valid {
          return false;
        }
        LemmaEndNext(t, item);
        expectedBlock := expectedBlock + count;
        previousKey := key;
        item := item + 1;
      }
      return expectedBlock == blockCount;
    }

    /** The test on one lemma entry. */
    method LemmaValid(item: nat, expectedBlock: nat, previousKey: MaybeString)
      returns (ok: bool, key: MaybeString, count: nat)
      requires Laid() && item < lemmaCount
      requires expectedBlock == LemmaEnd(Tables().lemmas, item) <= blockCount
      requires previousKey == if item == 0 then NoString else StringIn(strings + Tables().lemmas[item - 1].key)
      requires item > 0 ==> LemmaOk(Tables(), item - 1)
      ensures ok <==> LemmaOk(Tables(), item)
      ensures ok ==> key == StringIn(strings + Tables().lemmas[item].key) && count == Tables().lemmas[item].count
    {
      hide Decode, CString, Compare, Terminated, Value, U32, U64, LemmaEnd;
      var entry := lemmas + item * LEMMA_SIZE;
      ghost var t := Tables();
      LemmaEntryAt(file, lemmaCount, blockCount, recordCount, item);
      var keyOffset := ReadU64(entry);
      key := StringAtOffset(keyOffset);
      var firstBlock := ReadU64(entry + 8);
      count := ReadU32(entry + 16);
      var reserved := ReadU32(entry + 20);
      if key == NoString {
        return false, key, count;
      }
      CStringEmpty(t.strings, keyOffset);
      if file[key.at] == 0 || reserved != 0 || count == 0 ||
         firstBlock != expectedBlock || expectedBlock > blockCount || count > blockCount - expectedBlock {
        return false, key, count;
      }
      if previousKey != NoString {
        var order := StrCmp(file[strings..], previousKey.at - strings, file[strings..], keyOffset);
        if order >= 0 {
          return false, key, count;
        }
      }
      return true, key, count;
    }

    /** The loop of valid_layout over the block table. */
    method BlocksValid() returns (ok: bool)
      requires Laid()
      ensures ok <==> BlocksOk(Tables())
    {
      hide Decode, Value, U32, U64;
      var expectedRecord := 0;
      ghost var t := Tables();
      DecodeCounts(file, lemmaCount, blockCount, recordCount);
      var item := 0;
      while item != blockCount
        invariant 0 <= item <= blockCount
        invariant forall i {:trigger BlockOk(t, i)} | 0 <= i < item :: BlockOk(t, i)
        invariant expectedRecord == BlockEnd(t.blocks, item) <= recordCount
      {
        var entry := blocks + item * BLOCK_SIZE;
        BlockEntryAt(file, lemmaCount, blockCount, recordCount, item);
        var firstRecord := ReadU64(entry);
        var count := ReadU32(entry + 8);
        var reserved := ReadU32(entry + 12);
        if reserved != 0 || count == 0 || firstRecord != expectedRecord ||
           expectedRecord > recordCount || count > recordCount - expectedRecord {
          assert !BlockOk(t, item);
          return false;
        }
        expectedRecord := expectedRecord + count;
        item := item + 1;
      }
      return expectedRecord == recordCount;
    }

    /** The loop of valid_layout over the record table. */
    method RecordsValid() returns (ok: bool)
      requires Laid()
      ensures ok <==> RecordsOk(Tables())
    {
      hide Decode, Value, U32, U64, CString, Terminated;
      ghost var t := Tables();
      DecodeCounts(file, lemmaCount, blockCount, recordCount);
      var item := 0;
      while item != recordCount
        invariant 0 <= item <= recordCount
        invariant forall i {:trigger RecordOk(t, i)} | 0 <= i < item :: RecordOk(t, i)
      {
        var entry := records + item * RECORD_SIZE;
        RecordEntryAt(file, lemmaCount, blockCount, recordCount, item);
        var kind := ReadU32(entry);
        var stemOffset := ReadU64(entry + 8);
        var keysOffset := ReadU64(entry + 16);
        var stem := NonemptyString(stemOffset);
        var keys := NonemptyString(keysOffset);
        var reserved := ReadU32(entry + 4);
        if kind < RECORD_NOUN || kind > RECORD_IRREGULAR_VERB || reserved != 0 || !stem || !keys {
          assert !RecordOk(Tables(), item);
          return false;
        }
        item := item + 1;
      }
      return true;
    }

    /** The tests !stem || !*stem on a string of the table. */
    method NonemptyString(offset: nat) returns (ok: bool)
      requires Laid()
      ensures ok <==> StringOk(file[strings..], offset)
    {
      hide CString, Terminated;
      var s := StringAtOffset(offset);
      if s == NoString {
        return false;
      }
      CStringEmpty(file[strings..], offset);
      return file[s.at] != 0;
    }

    method ReadU32(at: nat) returns (value: nat)
      requires at + 4 <= |file|
      ensures value == U32(file, at)
    {
      assert file[at..][..4] == file[at..at + 4];
      value := Get(file[at..], 4);
    }

    method ReadU64(at: nat) returns (value: nat)
      requires at + 8 <= |file|
      ensures value == U64(file, at)
    {
      assert file[at..][..8] == file[at..at + 8];
      value := Get(file[at..], 8);
    }

    /** The key of lemma entry i. */
    ghost function Key(i: nat): Bytes
      requires Valid() && i < lemmaCount
      reads this
    {
      assert LemmaOk(Tables(), i);
      CString(Tables().strings, Tables().lemmas[i].key)
    }

    /** Keys are C strings, and they increase. */
    lemma KeyFacts(i: nat, j: nat)
      requires Valid() && i < lemmaCount && j < lemmaCount
      ensures i < j ==> Compare(Key(i), Key(j)) < 0
      ensures i > j ==> Compare(Key(i), Key(j)) > 0
    {
      if i < j {
        KeysIncrease(Tables(), i, j);
      } else if j < i {
        KeysIncrease(Tables(), j, i);
        CompareAntisymmetric(Key(i), Key(j));
      }
    }

    /** Past the probed entry on one side nothing can match. */
    lemma RuledOut(lemma': Bytes, middle: nat, i: nat)
      requires Valid() && i < lemmaCount && middle < lemmaCount
      ensures Compare(lemma', Key(middle)) < 0 && middle <= i ==> Key(i) != lemma'
      ensures Compare(lemma', Key(middle)) > 0 && i <= middle ==> Key(i) != lemma'
    {
      KeyFacts(middle, i);
      CompareAntisymmetric(Key(i), Key(middle));
      CompareEqual(Key(i), Key(i));
    }

    /** morpheus_gener_index_lookup finds a lemma by binary search exactly if some entry has
        it as key, and then that entry is the only one. */
    method Lookup(canonicalLemma: Bytes) returns (status: IndexStatus, view: LemmaView)
      requires Valid() && Text(canonicalLemma)
      ensures status == INVALID <==> canonicalLemma == []
      ensures status == OK ==> exists i: nat ::
                && i < lemmaCount && Key(i) == canonicalLemma
                && view == LemmaView(Tables().lemmas[i].first, Tables().lemmas[i].count)
                && forall j: nat | j < lemmaCount && j != i :: Key(j) != canonicalLemma
      ensures status == NOT_FOUND ==> forall j: nat | j < lemmaCount :: Key(j) != canonicalLemma
    {
      hide Decode, CString, Compare, Terminated, Value, U64, U32, Canonical;
      view := LemmaView(0, 0);
      if canonicalLemma == [] {
        return INVALID, view;
      }
      var low, high := 0, lemmaCount;
      while low != high
        invariant 0 <= low <= high <= lemmaCount
        invariant forall j: nat | j < lemmaCount && !(low <= j < high) :: Key(j) != canonicalLemma
      {
        var middle := low + (high - low) / 2;
        var order := Probe(canonicalLemma, middle);
        forall j: nat | j < lemmaCount
          ensures order < 0 && middle <= j ==> Key(j) != canonicalLemma
          ensures order > 0 && j <= middle ==> Key(j) != canonicalLemma
        {
          RuledOut(canonicalLemma, middle, j);
        }
        if order < 0 {
          high := middle;
        } else if order > 0 {
          low := middle + 1;
        } else {
          var entry := lemmas + middle * LEMMA_SIZE;
          LemmaEntryAt(file, lemmaCount, blockCount, recordCount, middle);
          var firstBlock := ReadU64(entry + 8);
          var count := ReadU32(entry + 16);
          view := LemmaView(firstBlock, count);
          OnlyOne(canonicalLemma, middle);
          return OK, view;
        }
      }
      return NOT_FOUND, view;
    }

    lemma OnlyOne(lemma': Bytes, i: nat)
      requires Valid() && i < lemmaCount && Compare(lemma', Key(i)) == 0
      ensures Key(i) == lemma' && forall j: nat | j < lemmaCount && j != i :: Key(j) != lemma'
    {
      CompareEqual(lemma', Key(i));
      forall j: nat | j < lemmaCount && j != i
        ensures Key(j) != lemma'
      {
        KeyFacts(i, j);
      }
    }

    /** The comparison of one round. */
    method Probe(canonicalLemma: Bytes, middle: nat) returns (order: int)
      requires Valid() && Text(canonicalLemma) && middle < lemmaCount
      ensures order == Compare(canonicalLemma, Key(middle))
    {
      hide Decode, CString, Compare, Terminated, Value, U64, U32;
      var entry := lemmas + middle * LEMMA_SIZE;
      LemmaEntryAt(file, lemmaCount, blockCount, recordCount, middle);
      assert LemmaOk(Tables(), middle);
      var offset := ReadU64(entry);
      var key := StringAtOffset(offset);
      Contents(canonicalLemma);
      order := StrCmp(canonicalLemma + [0], 0, file[strings..], key.at - strings);
    }

    // morpheus_gener_index_block
    method BlockAt(block: nat) returns (status: IndexStatus, view: BlockView)
      requires Valid()
      ensures status == if block < blockCount then OK else NOT_FOUND
      ensures status == OK ==> view == BlockView(Tables().blocks[block].first, Tables().blocks[block].count)
    {
      hide Decode, Value, U64, U32, Canonical;
      if block >= blockCount {
        return NOT_FOUND, BlockView(0, 0);
      }
      var entry := blocks + block * BLOCK_SIZE;
      BlockEntryAt(file, lemmaCount, blockCount, recordCount, block);
      var firstRecord := ReadU64(entry);
      var count := ReadU32(entry + 8);
      return OK, BlockView(firstRecord, count);
    }

    // morpheus_gener_index_record; in an accepted file both strings are there
    method RecordAt(record: nat) returns (status: IndexStatus, view: RecordView)
      requires Valid()
      ensures status == if record < recordCount then OK else NOT_FOUND
      ensures status == OK ==>
                var e := Tables().records[record];
                && RecordOk(Tables(), record) && e.stem <= |Tables().strings| && e.keys <= |Tables().strings|
                && view == RecordView(e.kind, CString(Tables().strings, e.stem), CString(Tables().strings, e.keys))
    {
      hide Decode, Value, U64, U32, CString, Terminated;
      if record >= recordCount {
        return NOT_FOUND, RecordView(0, [], []);
      }
      var entry := records + record * RECORD_SIZE;
      RecordEntryAt(file, lemmaCount, blockCount, recordCount, record);
      assert RecordOk(Tables(), record);
      var kind := ReadU32(entry);
      var stemOffset := ReadU64(entry + 8);
      var keysOffset := ReadU64(entry + 16);
      var stem := StringAtOffset(stemOffset);
      var keys := StringAtOffset(keysOffset);
      return OK, RecordView(kind, CString(file[strings..], stem.at - strings), CString(file[strings..], keys.at - strings));
    }
  }

  /** A C string in memory of its own. */
  lemma Contents(s: Bytes)
    requires Text(s)
    ensures Terminated(s + [0], 0) && CString(s + [0], 0) == s
  {
    assert (s + [0])[|s|] == 0;
    assert (s + [0])[0..|s|] == s;
    CStringIs(s + [0], 0, s);
  }
}
