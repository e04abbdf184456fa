/** The bytes of the tables, and the payload buffer while write_index fills its four areas. */
module GenerBytes {
  import opened ByteStrings
  import opened GenerFormat

  // ----- entries as bytes

  function EncLemma(e: LemmaEntry): (r: Bytes)
    ensures |r| == LEMMA_SIZE
  {
    Le(e.key, 8) + Le(e.first, 8) + Le(e.count, 4) + Le(e.reserved, 4)
  }

  function EncBlock(e: BlockEntry): (r: Bytes)
    ensures |r| == BLOCK_SIZE
  {
    Le(e.first, 8) + Le(e.count, 4) + Le(e.reserved, 4)
  }

  function EncRecord(e: RecordEntry): (r: Bytes)
    ensures |r| == RECORD_SIZE
  {
    Le(e.kind, 4) + Le(e.reserved, 4) + Le(e.stem, 8) + Le(e.keys, 8)
  }

  function LemmaBytes(es: seq<LemmaEntry>): (r: Bytes)
    ensures |r| == |es| * LEMMA_SIZE
  {
    if es == [] then [] else LemmaBytes(es[..|es| - 1]) + EncLemma(es[|es| - 1])
  }

  function BlockBytes(es: seq<BlockEntry>): (r: Bytes)
    ensures |r| == |es| * BLOCK_SIZE
  {
    if es == [] then [] else BlockBytes(es[..|es| - 1]) + EncBlock(es[|es| - 1])
  }

  function RecordBytes(es: seq<RecordEntry>): (r: Bytes)
    ensures |r| == |es| * RECORD_SIZE
  {
    if es == [] then [] else RecordBytes(es[..|es| - 1]) + EncRecord(es[|es| - 1])
  }

  ghost predicate LemmaFits(e: LemmaEntry) {
    e.key <= MAX64 && e.first <= MAX64 && e.count <= MAX32 && e.reserved <= MAX32
  }

  ghost predicate BlockFits(e: BlockEntry) {
    e.first <= MAX64 && e.count <= MAX32 && e.reserved <= MAX32
  }

  ghost predicate RecordFits(e: RecordEntry) {
    e.kind <= MAX32 && e.reserved <= MAX32 && e.stem <= MAX64 && e.keys <= MAX64
  }

  lemma SubSlice(s: Bytes, at: nat, n: nat, lo: nat, m: nat)
    requires at + n <= |s| && lo + m <= n
    ensures s[at..at + n][lo..lo + m] == s[at + lo..at + lo + m]
  {
    var a, b := s[at..at + n][lo..lo + m], s[at + lo..at + lo + m];
    forall i | 0 <= i < m
      ensures a[i] == b[i]
    {
      assert a[i] == s[at..at + n][lo + i] == s[at + (lo + i)];
      assert b[i] == s[at + lo + i];
    }
  }

  lemma FrontSlice(a: Bytes, b: Bytes, at: nat, n: nat)
    requires at + n <= |a|
    ensures (a + b)[at..at + n] == a[at..at + n]
  {
  }

  lemma BackSlice(a: Bytes, b: Bytes)
    ensures (a + b)[|a|..|a| + |b|] == b
  {
  }

  /** Reading back a field: the part of s at offset at + lo is the encoding of v. */
  lemma Field(s: Bytes, at: nat, enc: Bytes, lo: nat, v: nat, size: nat)
    requires at + |enc| <= |s| && s[at..at + |enc|] == enc
    requires lo + size <= |enc| && enc[lo..lo + size] == Le(v, size)
    requires (size == 4 && v <= MAX32) || (size == 8 && v <= MAX64)
    ensures Value(s[at + lo..at + lo + size]) == v
  {
    SubSlice(s, at, |enc|, lo, size);
    if size == 4 {
      ValueOfLe32(v);
    } else {
      ValueOfLe64(v);
    }
  }

  lemma LemmaDecoded(s: Bytes, at: nat, e: LemmaEntry)
    requires LemmaFits(e) && at + LEMMA_SIZE <= |s| && s[at..at + LEMMA_SIZE] == EncLemma(e)
    ensures LemmaIn(s, at) == e
  {
    hide Le, Value;
    var enc := EncLemma(e);
    Field(s, at, enc, 0, e.key, 8);
    Field(s, at, enc, 8, e.first, 8);
    Field(s, at, enc, 16, e.count, 4);
    Field(s, at, enc, 20, e.reserved, 4);
  }

  lemma BlockDecoded(s: Bytes, at: nat, e: BlockEntry)
    requires BlockFits(e) && at + BLOCK_SIZE <= |s| && s[at..at + BLOCK_SIZE] == EncBlock(e)
    ensures BlockIn(s, at) == e
  {
    hide Le, Value;
    var enc := EncBlock(e);
    Field(s, at, enc, 0, e.first, 8);
    Field(s, at, enc, 8, e.count, 4);
    Field(s, at, enc, 12, e.reserved, 4);
  }

  lemma RecordDecoded(s: Bytes, at: nat, e: RecordEntry)
    requires RecordFits(e) && at + RECORD_SIZE <= |s| && s[at..at + RECORD_SIZE] == EncRecord(e)
    ensures RecordIn(s, at) == e
  {
    hide Le, Value;
    var enc := EncRecord(e);
    Field(s, at, enc, 0, e.kind, 4);
    Field(s, at, enc, 4, e.reserved, 4);
    Field(s, at, enc, 8, e.stem, 8);
    Field(s, at, enc, 16, e.keys, 8);
  }

  lemma {:induction false} LemmaBytesAt(es: seq<LemmaEntry>, i: nat)
    requires i < |es|
    ensures LemmaBytes(es)[i * LEMMA_SIZE..i * LEMMA_SIZE + LEMMA_SIZE] == EncLemma(es[i])
    decreases |es|
  {
    hide EncLemma;
    var front, last := es[..|es| - 1], es[|es| - 1];
    assert LemmaBytes(es) == LemmaBytes(front) + EncLemma(last);
    if i < |es| - 1 {
      LemmaBytesAt(front, i);
      FrontSlice(LemmaBytes(front), EncLemma(last), i * LEMMA_SIZE, LEMMA_SIZE);
    } else {
      BackSlice(LemmaBytes(front), EncLemma(last));
    }
  }

  lemma {:induction false} BlockBytesAt(es: seq<BlockEntry>, i: nat)
    requires i < |es|
    ensures BlockBytes(es)[i * BLOCK_SIZE..i * BLOCK_SIZE + BLOCK_SIZE] == EncBlock(es[i])
    decreases |es|
  {
    hide EncBlock;
    var front, last := es[..|es| - 1], es[|es| - 1];
    assert BlockBytes(es) == BlockBytes(front) + EncBlock(last);
    if i < |es| - 1 {
      BlockBytesAt(front, i);
      FrontSlice(BlockBytes(front), EncBlock(last), i * BLOCK_SIZE, BLOCK_SIZE);
    } else {
      BackSlice(BlockBytes(front), EncBlock(last));
    }
  }

  lemma {:induction false} RecordBytesAt(es: seq<RecordEntry>, i: nat)
    requires i < |es|
    ensures RecordBytes(es)[i * RECORD_SIZE..i * RECORD_SIZE + RECORD_SIZE] == EncRecord(es[i])
    decreases |es|
  {
    hide EncRecord;
    var front, last := es[..|es| - 1], es[|es| - 1];
    assert RecordBytes(es) == RecordBytes(front) + EncRecord(last);
    if i < |es| - 1 {
      RecordBytesAt(front, i);
      FrontSlice(RecordBytes(front), EncRecord(last), i * RECORD_SIZE, RECORD_SIZE);
    } else {
      BackSlice(RecordBytes(front), EncRecord(last));
    }
  }

  // ----- the payload

  /** Where the areas of the payload begin, and its size. */
  datatype Areas = Areas(blocks: nat, records: nat, strings: nat, size: nat)

  /** x stands at the front of an area whose rest is as calloc left it. */
  ghost predicate Filled(p: Bytes, lo: nat, hi: nat, x: Bytes) {
    && lo + |x| <= hi <= |p|
    && p[lo..lo + |x|] == x
    && forall q {:trigger p[q]} | lo + |x| <= q < hi :: p[q] == 0
  }

  lemma FilledMore(p: Bytes, lo: nat, hi: nat, x: Bytes, y: Bytes)
    requires Filled(p, lo, hi, x) && lo + |x| + |y| <= hi
    ensures Filled(Splice(p, lo + |x|, y), lo, hi, x + y)
  {
    var r := Splice(p, lo + |x|, y);
    assert r[lo..lo + |x + y|] == r[lo..lo + |x|] + r[lo + |x|..lo + |x| + |y|];
    SliceKept(p, r, lo, lo + |x|);
  }

  lemma FilledStill(p: Bytes, lo: nat, hi: nat, x: Bytes, at: nat, y: Bytes)
    requires Filled(p, lo, hi, x) && at + |y| <= |p| && (at + |y| <= lo || hi <= at)
    ensures Filled(Splice(p, at, y), lo, hi, x)
  {
    SliceKept(p, Splice(p, at, y), lo, lo + |x|);
  }

  /** The tables fit their areas. */
  ghost predicate Room(a: Areas, t: Tables) {
    && |t.lemmas| * LEMMA_SIZE <= a.blocks
    && a.blocks + |t.blocks| * BLOCK_SIZE <= a.records
    && a.records + |t.records| * RECORD_SIZE <= a.strings
    && a.strings + |t.strings| <= a.size
  }

  /** The payload holds these tables and nothing else yet. */
  ghost predicate Picture(p: Bytes, a: Areas, t: Tables) {
    && |p| == a.size
    && Filled(p, 0, a.blocks, LemmaBytes(t.lemmas))
    && Filled(p, a.blocks, a.records, BlockBytes(t.blocks))
    && Filled(p, a.records, a.strings, RecordBytes(t.records))
    && Filled(p, a.strings, a.size, t.strings)
  }

  lemma PictureRoom(p: Bytes, a: Areas, t: Tables)
    requires Picture(p, a, t)
    ensures Room(a, t) && |p| == a.size
  {
  }

  /** The place of the next entry is still zero. */
  lemma LemmaGap(p: Bytes, a: Areas, t: Tables)
    requires Picture(p, a, t) && |t.lemmas| * LEMMA_SIZE + LEMMA_SIZE <= a.blocks
    ensures var at := |t.lemmas| * LEMMA_SIZE; forall q | at <= q < at + LEMMA_SIZE :: p[q] == 0
  {
  }

  lemma BlockGap(p: Bytes, a: Areas, t: Tables)
    requires Picture(p, a, t) && a.blocks + |t.blocks| * BLOCK_SIZE + BLOCK_SIZE <= a.records
    ensures var at := a.blocks + |t.blocks| * BLOCK_SIZE; forall q | at <= q < at + BLOCK_SIZE :: p[q] == 0
  {
  }

  lemma RecordGap(p: Bytes, a: Areas, t: Tables)
    requires Picture(p, a, t) && a.records + |t.records| * RECORD_SIZE + RECORD_SIZE <= a.strings
    ensures var at := a.records + |t.records| * RECORD_SIZE; forall q | at <= q < at + RECORD_SIZE :: p[q] == 0
  {
  }

  lemma PictureLemma(p: Bytes, a: Areas, t: Tables, e: LemmaEntry)
    requires Picture(p, a, t) && |t.lemmas| * LEMMA_SIZE + LEMMA_SIZE <= a.blocks
    ensures Picture(Splice(p, |t.lemmas| * LEMMA_SIZE, EncLemma(e)), a, t.(lemmas := t.lemmas + [e]))
  {
    hide Filled, EncLemma, BlockBytes, RecordBytes;
    PictureRoom(p, a, t);
    assert (t.lemmas + [e])[..|t.lemmas|] == t.lemmas;
    var at, y := |t.lemmas| * LEMMA_SIZE, EncLemma(e);
    FilledMore(p, 0, a.blocks, LemmaBytes(t.lemmas), y);
    FilledStill(p, a.blocks, a.records, BlockBytes(t.blocks), at, y);
    FilledStill(p, a.records, a.strings, RecordBytes(t.records), at, y);
    FilledStill(p, a.strings, a.size, t.strings, at, y);
  }

  lemma PictureBlock(p: Bytes, a: Areas, t: Tables, e: BlockEntry)
    requires Picture(p, a, t) && a.blocks + |t.blocks| * BLOCK_SIZE + BLOCK_SIZE <= a.records
    ensures Picture(Splice(p, a.blocks + |t.blocks| * BLOCK_SIZE, EncBlock(e)), a, t.(blocks := t.blocks + [e]))
  {
    hide Filled, EncBlock, LemmaBytes, RecordBytes;
    PictureRoom(p, a, t);
    assert (t.blocks + [e])[..|t.blocks|] == t.blocks;
    var at, y := a.blocks + |t.blocks| * BLOCK_SIZE, EncBlock(e);
    FilledStill(p, 0, a.blocks, LemmaBytes(t.lemmas), at, y);
    FilledMore(p, a.blocks, a.records, BlockBytes(t.blocks), y);
    FilledStill(p, a.records, a.strings, RecordBytes(t.records), at, y);
    FilledStill(p, a.strings, a.size, t.strings, at, y);
  }

  lemma PictureRecord(p: Bytes, a: Areas, t: Tables, e: RecordEntry)
    requires Picture(p, a, t) && a.records + |t.records| * RECORD_SIZE + RECORD_SIZE <= a.strings
    ensures Picture(Splice(p, a.records + |t.records| * RECORD_SIZE, EncRecord(e)), a, t.(records := t.records + [e]))
  {
    hide Filled, EncRecord, LemmaBytes, BlockBytes;
    PictureRoom(p, a, t);
    assert (t.records + [e])[..|t.records|] == t.records;
    var at, y := a.records + |t.records| * RECORD_SIZE, EncRecord(e);
    FilledStill(p, 0, a.blocks, LemmaBytes(t.lemmas), at, y);
    FilledStill(p, a.blocks, a.records, BlockBytes(t.blocks), at, y);
    FilledMore(p, a.records, a.strings, RecordBytes(t.records), y);
    FilledStill(p, a.strings, a.size, t.strings, at, y);
  }

  lemma PictureString(p: Bytes, a: Areas, t: Tables, y: Bytes)
    requires Picture(p, a, t) && a.strings + |t.strings| + |y| <= a.size
    ensures Picture(Splice(p, a.strings + |t.strings|, y), a, t.(strings := t.strings + y))
  {
    hide Filled, LemmaBytes, BlockBytes, RecordBytes;
    PictureRoom(p, a, t);
    var at := a.strings + |t.strings|;
    FilledStill(p, 0, a.blocks, LemmaBytes(t.lemmas), at, y);
    FilledStill(p, a.blocks, a.records, BlockBytes(t.blocks), at, y);
    FilledStill(p, a.records, a.strings, RecordBytes(t.records), at, y);
    FilledMore(p, a.strings, a.size, t.strings, y);
  }

  /** Some entries stand one after the other at an offset of the file. */
  lemma LemmasHeld(header: Bytes, p: Bytes, es: seq<LemmaEntry>, lo: nat)
    requires lo + |es| * LEMMA_SIZE <= |p| && p[lo..lo + |es| * LEMMA_SIZE] == LemmaBytes(es)
    requires forall i {:trigger es[i]} | 0 <= i < |es| :: LemmaFits(es[i])
    ensures forall i {:trigger es[i]} | 0 <= i < |es| :: es[i] == LemmaIn(header + p, |header| + lo + i * LEMMA_SIZE)
  {
    hide LemmaIn, EncLemma, LemmaFits, LemmaBytes;
    forall i | 0 <= i < |es|
      ensures es[i] == LemmaIn(header + p, |header| + lo + i * LEMMA_SIZE)
    {
      OneLemmaHeld(header, p, es, lo, i);
    }
  }

  lemma LemmaHeldAt(header: Bytes, p: Bytes, x: Bytes, lo: nat, at: nat, e: LemmaEntry)
    requires lo + |x| <= |p| && p[lo..lo + |x|] == x && at + LEMMA_SIZE <= |x| && x[at..at + LEMMA_SIZE] == EncLemma(e)
    requires LemmaFits(e)
    ensures |header| + lo + at + LEMMA_SIZE <= |header + p| && LemmaIn(header + p, |header| + lo + at) == e
  {
    hide LemmaIn, EncLemma, LemmaFits;
    Piece(header, p, lo, x, at, LEMMA_SIZE);
    LemmaDecoded(header + p, |header| + lo + at, e);
  }

  lemma OneLemmaHeld(header: Bytes, p: Bytes, es: seq<LemmaEntry>, lo: nat, i: nat)
    requires lo + |es| * LEMMA_SIZE <= |p| && p[lo..lo + |es| * LEMMA_SIZE] == LemmaBytes(es)
    requires i < |es| && LemmaFits(es[i])
    ensures |header| + lo + i * LEMMA_SIZE + LEMMA_SIZE <= |header + p|
    ensures es[i] == LemmaIn(header + p, |header| + lo + i * LEMMA_SIZE)
  {
    hide LemmaIn, EncLemma, LemmaFits, LemmaBytes;
    LemmaBytesAt(es, i);
    LemmaHeldAt(header, p, LemmaBytes(es), lo, i * LEMMA_SIZE, es[i]);
  }

  lemma BlocksHeld(header: Bytes, p: Bytes, es: seq<BlockEntry>, lo: nat)
    requires lo + |es| * BLOCK_SIZE <= |p| && p[lo..lo + |es| * BLOCK_SIZE] == BlockBytes(es)
    requires forall i {:trigger es[i]} | 0 <= i < |es| :: BlockFits(es[i])
    ensures forall i {:trigger es[i]} | 0 <= i < |es| :: es[i] == BlockIn(header + p, |header| + lo + i * BLOCK_SIZE)
  {
    hide BlockIn, EncBlock, BlockFits, BlockBytes;
    forall i | 0 <= i < |es|
      ensures es[i] == BlockIn(header + p, |header| + lo + i * BLOCK_SIZE)
    {
      OneBlockHeld(header, p, es, lo, i);
    }
  }

  lemma BlockHeldAt(header: Bytes, p: Bytes, x: Bytes, lo: nat, at: nat, e: BlockEntry)
    requires lo + |x| <= |p| && p[lo..lo + |x|] == x && at + BLOCK_SIZE <= |x| && x[at..at + BLOCK_SIZE] == EncBlock(e)
    requires BlockFits(e)
    ensures |header| + lo + at + BLOCK_SIZE <= |header + p| && BlockIn(header + p, |header| + lo + at) == e
  {
    hide BlockIn, EncBlock, BlockFits;
    Piece(header, p, lo, x, at, BLOCK_SIZE);
    BlockDecoded(header + p, |header| + lo + at, e);
  }

  lemma OneBlockHeld(header: Bytes, p: Bytes, es: seq<BlockEntry>, lo: nat, i: nat)
    requires lo + |es| * BLOCK_SIZE <= |p| && p[lo..lo + |es| * BLOCK_SIZE] == BlockBytes(es)
    requires i < |es| && BlockFits(es[i])
    ensures |header| + lo + i * BLOCK_SIZE + BLOCK_SIZE <= |header + p|
    ensures es[i] == BlockIn(header + p, |header| + lo + i * BLOCK_SIZE)
  {
    hide BlockIn, EncBlock, BlockFits, BlockBytes;
    BlockBytesAt(es, i);
    BlockHeldAt(header, p, BlockBytes(es), lo, i * BLOCK_SIZE, es[i]);
  }

  lemma RecordsHeld(header: Bytes, p: Bytes, es: seq<RecordEntry>, lo: nat)
    requires lo + |es| * RECORD_SIZE <= |p| && p[lo..lo + |es| * RECORD_SIZE] == RecordBytes(es)
    requires forall i {:trigger es[i]} | 0 <= i < |es| :: RecordFits(es[i])
    ensures forall i {:trigger es[i]} | 0 <= i < |es| :: es[i] == RecordIn(header + p, |header| + lo + i * RECORD_SIZE)
  {
    hide RecordIn, EncRecord, RecordFits, RecordBytes;
    forall i | 0 <= i < |es|
      ensures es[i] == RecordIn(header + p, |header| + lo + i * RECORD_SIZE)
    {
      OneRecordHeld(header, p, es, lo, i);
    }
  }

  lemma RecordHeldAt(header: Bytes, p: Bytes, x: Bytes, lo: nat, at: nat, e: RecordEntry)
    requires lo + |x| <= |p| && p[lo..lo + |x|] == x && at + RECORD_SIZE <= |x| && x[at..at + RECORD_SIZE] == EncRecord(e)
    requires RecordFits(e)
    ensures |header| + lo + at + RECORD_SIZE <= |header + p| && RecordIn(header + p, |header| + lo + at) == e
  {
    hide RecordIn, EncRecord, RecordFits;
    Piece(header, p, lo, x, at, RECORD_SIZE);
    RecordDecoded(header + p, |header| + lo + at, e);
  }

  lemma OneRecordHeld(header: Bytes, p: Bytes, es: seq<RecordEntry>, lo: nat, i: nat)
    requires lo + |es| * RECORD_SIZE <= |p| && p[lo..lo + |es| * RECORD_SIZE] == RecordBytes(es)
    requires i < |es| && RecordFits(es[i])
    ensures |header| + lo + i * RECORD_SIZE + RECORD_SIZE <= |header + p|
    ensures es[i] == RecordIn(header + p, |header| + lo + i * RECORD_SIZE)
  {
    hide RecordIn, EncRecord, RecordFits, RecordBytes;
    RecordBytesAt(es, i);
    RecordHeldAt(header, p, RecordBytes(es), lo, i * RECORD_SIZE, es[i]);
  }

  /** The areas sized for some tables. */
  function AreasFor(t: Tables): Areas {
    Areas(BlockBase(|t.lemmas|) - HEADER_SIZE, RecordBase(|t.lemmas|, |t.blocks|) - HEADER_SIZE,
          StringBase(|t.lemmas|, |t.blocks|, |t.records|) - HEADER_SIZE,
          StringBase(|t.lemmas|, |t.blocks|, |t.records|) - HEADER_SIZE + |t.strings|)
  }

  ghost predicate AllFit(t: Tables) {
    && (forall i {:trigger t.lemmas[i]} | 0 <= i < |t.lemmas| :: LemmaFits(t.lemmas[i]))
    && (forall i {:trigger t.blocks[i]} | 0 <= i < |t.blocks| :: BlockFits(t.blocks[i]))
    && (forall i {:trigger t.records[i]} | 0 <= i < |t.records| :: RecordFits(t.records[i]))
  }

  /** A full payload behind a header is a file that holds the tables. */
  lemma FullPicture(header: Bytes, p: Bytes, t: Tables)
    requires |header| == HEADER_SIZE && Picture(p, AreasFor(t), t) && AllFit(t)
    ensures Holds(header + p, t)
  {
    hide LemmaIn, BlockIn, RecordIn, LemmaFits, BlockFits, RecordFits, LemmaBytes, BlockBytes, RecordBytes;
    var a := AreasFor(t);
    LemmasHeld(header, p, t.lemmas, 0);
    BlocksHeld(header, p, t.blocks, a.blocks);
    RecordsHeld(header, p, t.records, a.records);
    assert (header + p)[HEADER_SIZE + a.strings..] == p[a.strings..];
  }

  /** A piece of an area is a piece of the file. */
  lemma Piece(header: Bytes, p: Bytes, lo: nat, x: Bytes, at: nat, size: nat)
    requires lo + |x| <= |p| && p[lo..lo + |x|] == x && at + size <= |x|
    ensures var h := |header| + lo + at; h + size <= |header + p| && (header + p)[h..h + size] == x[at..at + size]
  {
    SubSlice(p, lo, |x|, at, size);
    assert (header + p)[|header|..|header| + |p|] == p;
    SubSlice(header + p, |header|, |p|, lo + at, size);
  }
}
