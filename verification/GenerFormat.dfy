/** The layout of a generation index file, shared by tools/gener-index-builder.c and
    src/api/gener_index.c: a header, three tables and a string pool. */
module GenerFormat {
  import opened ByteStrings

  const HEADER_SIZE := 64
  const LEMMA_SIZE := 24
  const BLOCK_SIZE := 16
  const RECORD_SIZE := 24
  const FORMAT_VERSION := 1
  const LANGUAGE_GREEK := 1
  const RECORD_NOUN := 1
  const RECORD_IRREGULAR_VERB := 5

  /** "MORPHGEN" */
  const MAGIC: Bytes := [77, 79, 82, 80, 72, 71, 69, 78]

  // ----- the tables

  datatype LemmaEntry = LemmaEntry(key: nat, first: nat, count: nat, reserved: nat)

  datatype BlockEntry = BlockEntry(first: nat, count: nat, reserved: nat)

  datatype RecordEntry = RecordEntry(kind: nat, reserved: nat, stem: nat, keys: nat)

  datatype Tables = Tables(
    lemmas: seq<LemmaEntry>, blocks: seq<BlockEntry>, records: seq<RecordEntry>, strings: Bytes)

  function U32(s: Bytes, at: nat): nat
    requires at + 4 <= |s|
  {
    Value(s[at..at + 4])
  }

  function U64(s: Bytes, at: nat): nat
    requires at + 8 <= |s|
  {
    Value(s[at..at + 8])
  }

  function LemmaIn(s: Bytes, at: nat): LemmaEntry
    requires at + LEMMA_SIZE <= |s|
  {
    LemmaEntry(U64(s, at), U64(s, at + 8), U32(s, at + 16), U32(s, at + 20))
  }

  function BlockIn(s: Bytes, at: nat): BlockEntry
    requires at + BLOCK_SIZE <= |s|
  {
    BlockEntry(U64(s, at), U32(s, at + 8), U32(s, at + 12))
  }

  function RecordIn(s: Bytes, at: nat): RecordEntry
    requires at + RECORD_SIZE <= |s|
  {
    RecordEntry(U32(s, at), U32(s, at + 4), U64(s, at + 8), U64(s, at + 16))
  }

  // ----- where the tables stand

  function BlockBase(lemmas: nat): nat { HEADER_SIZE + lemmas * LEMMA_SIZE }

  function RecordBase(lemmas: nat, blocks: nat): nat { BlockBase(lemmas) + blocks * BLOCK_SIZE }

  function StringBase(lemmas: nat, blocks: nat, records: nat): nat {
    RecordBase(lemmas, blocks) + records * RECORD_SIZE
  }

  /** The file holds exactly these tables after its header. */
  ghost predicate Holds(file: Bytes, t: Tables) {
    var l, b, r := |t.lemmas|, |t.blocks|, |t.records|;
    && |file| == StringBase(l, b, r) + |t.strings|
    && (forall i {:trigger t.lemmas[i]} | 0 <= i < l :: t.lemmas[i] == LemmaIn(file, HEADER_SIZE + i * LEMMA_SIZE))
    && (forall i {:trigger t.blocks[i]} | 0 <= i < b :: t.blocks[i] == BlockIn(file, BlockBase(l) + i * BLOCK_SIZE))
    && (forall i {:trigger t.records[i]} | 0 <= i < r :: t.records[i] == RecordIn(file, RecordBase(l, b) + i * RECORD_SIZE))
    && file[StringBase(l, b, r)..] == t.strings
  }

  /** The header announces these tables. */
  ghost predicate HeaderFor(file: Bytes, t: Tables) {
    && |file| >= HEADER_SIZE
    && file[..8] == MAGIC && U32(file, 8) == FORMAT_VERSION && U32(file, 12) == LANGUAGE_GREEK
    && U64(file, 16) == |t.lemmas| && U64(file, 24) == |t.blocks| && U64(file, 32) == |t.records|
    && U64(file, 40) == |t.strings|
    && U64(file, 48) == PayloadHash(file[HEADER_SIZE..]) && U64(file, 56) == 0
  }

  // ----- canonical tables

  ghost predicate StringOk(strings: Bytes, at: nat) {
    at < |strings| && Terminated(strings, at) && CString(strings, at) != []
  }

  ghost function LemmaEnd(es: seq<LemmaEntry>, i: nat): nat
    requires i <= |es|
  {
    if i == 0 then 0 else es[i - 1].first + es[i - 1].count
  }

  ghost function BlockEnd(es: seq<BlockEntry>, i: nat): nat
    requires i <= |es|
  {
    if i == 0 then 0 else es[i - 1].first + es[i - 1].count
  }

  /** A lemma entry: its key is a nonempty string, later than the key before, and its blocks
      follow those of the entry before. */
  ghost predicate LemmaOk(t: Tables, i: nat)
    requires i < |t.lemmas|
  {
    var e := t.lemmas[i];
    && StringOk(t.strings, e.key) && e.reserved == 0 && e.count > 0
    && e.first == LemmaEnd(t.lemmas, i) && e.first + e.count <= |t.blocks|
    && (i > 0 && t.lemmas[i - 1].key <= |t.strings| ==>
          Compare(CString(t.strings, t.lemmas[i - 1].key), CString(t.strings, e.key)) < 0)
  }

  ghost predicate BlockOk(t: Tables, i: nat)
    requires i < |t.blocks|
  {
    var e := t.blocks[i];
    && e.reserved == 0 && e.count > 0
    && e.first == BlockEnd(t.blocks, i) && e.first + e.count <= |t.records|
  }

  ghost predicate RecordOk(t: Tables, i: nat)
    requires i < |t.records|
  {
    var e := t.records[i];
    && RECORD_NOUN <= e.kind <= RECORD_IRREGULAR_VERB && e.reserved == 0
    && StringOk(t.strings, e.stem) && StringOk(t.strings, e.keys)
  }

  ghost predicate LemmasOk(t: Tables) {
    && (forall i {:trigger LemmaOk(t, i)} | 0 <= i < |t.lemmas| :: LemmaOk(t, i))
    && LemmaEnd(t.lemmas, |t.lemmas|) == |t.blocks|
  }

  ghost predicate BlocksOk(t: Tables) {
    && (forall i {:trigger BlockOk(t, i)} | 0 <= i < |t.blocks| :: BlockOk(t, i))
    && BlockEnd(t.blocks, |t.blocks|) == |t.records|
  }

  ghost predicate RecordsOk(t: Tables) {
    forall i {:trigger RecordOk(t, i)} | 0 <= i < |t.records| :: RecordOk(t, i)
  }

  ghost predicate Canonical(t: Tables) {
    LemmasOk(t) && BlocksOk(t) && RecordsOk(t)
  }

  /** A canonical index file. */
  ghost predicate IsIndex(file: Bytes, t: Tables) {
    HeaderFor(file, t) && Holds(file, t) && Canonical(t)
  }

  // ----- the payload hash

  function XorBits(a: nat, b: nat, bits: nat): nat {
    if bits == 0 then 0 else (a % 2 + b % 2) % 2 + 2 * XorBits(a / 2, b / 2, bits - 1)
  }

  /** Bit by bit. */
  lemma {:induction false} XorIs(a: nat, b: nat, bits: nat, k: nat)
    requires k < bits
    ensures Bit(XorBits(a, b, bits), k) <==> Bit(a, k) != Bit(b, k)
    decreases bits
  {
    var rest := XorBits(a / 2, b / 2, bits - 1);
    var low := (a % 2 + b % 2) % 2;
    assert (low + 2 * rest) / 2 == rest && (low + 2 * rest) % 2 == low;
    if k > 0 {
      XorIs(a / 2, b / 2, bits - 1, k - 1);
    }
  }

  /** One step of FNV-1a on 64 bits: the exclusive or touches the low byte only. */
  function HashStep(hash: nat, b: Byte): (r: nat)
    ensures r <= MAX64
  {
    (hash / 256 * 256 + XorBits(hash % 256, b, 8)) * 1099511628211 % 0x1_0000_0000_0000_0000
  }

  function PayloadHash(payload: Bytes): (r: nat)
    ensures r <= MAX64
  {
    if payload == [] then 14695981039346656037
    else HashStep(PayloadHash(payload[..|payload| - 1]), payload[|payload| - 1])
  }

  lemma XorMore(a: nat, b: nat, bits: nat, x: nat)
    requires bits > 0 && x % 2 == (a % 2 + b % 2) % 2 && XorBits(a / 2, b / 2, bits - 1) == x / 2
    ensures XorBits(a, b, bits) == x
  {
  }

  lemma XorOfA()
    ensures XorBits(37, 97, 8) == 68
  {
    hide XorBits;
    XorNone();
    XorMore(0, 0, 1, 0);
    XorMore(0, 1, 2, 1);
    XorMore(1, 3, 3, 2);
    XorMore(2, 6, 4, 4);
    XorMore(4, 12, 5, 8);
    XorMore(9, 24, 6, 17);
    XorMore(18, 48, 7, 34);
    XorMore(37, 97, 8, 68);
  }

  lemma XorNone()
    ensures XorBits(0, 0, 0) == 0
  {
  }

  /** The published value for the letter a. */
  lemma HashOfA()
    ensures PayloadHash([97]) == 0xaf63_dc4c_8601_ec8c
  {
    hide XorBits;
    var text: Bytes := [97];
    assert text[..0] == [];
    XorOfA();
    assert 14695981039346656037 % 256 == 37;
    assert (14695981039346656037 / 256 * 256 + 68) * 1099511628211 % 0x1_0000_0000_0000_0000 == 0xaf63_dc4c_8601_ec8c;
  }

  method ComputeHash(payload: Bytes) returns (hash: nat)
    ensures hash == PayloadHash(payload)
  {
    hide XorBits, HashStep;
    hash := 14695981039346656037;
    var byte := 0;
    while byte != |payload|
      invariant 0 <= byte <= |payload| && hash == PayloadHash(payload[..byte])
    {
      assert payload[..byte + 1][..byte] == payload[..byte];
      hash := HashStep(hash, payload[byte]);
      byte := byte + 1;
    }
    assert payload[..byte] == payload;
  }

  // ----- what canonical tables mean

  /** Keys increase over the whole table, so a key stands in one entry only. */
  lemma {:induction false} KeysIncrease(t: Tables, i: nat, j: nat)
    requires Canonical(t) && i < j < |t.lemmas|
    ensures t.lemmas[i].key < |t.strings| && t.lemmas[j].key < |t.strings|
    ensures Compare(CString(t.strings, t.lemmas[i].key), CString(t.strings, t.lemmas[j].key)) < 0
    ensures Earlier(CString(t.strings, t.lemmas[i].key), CString(t.strings, t.lemmas[j].key))
    decreases j - i
  {
    hide Earlier;
    assert LemmaOk(t, i) && LemmaOk(t, j) && LemmaOk(t, j - 1);
    if i + 1 < j {
      KeysIncrease(t, i, j - 1);
      CompareTransitive(CString(t.strings, t.lemmas[i].key), CString(t.strings, t.lemmas[j - 1].key),
                        CString(t.strings, t.lemmas[j].key));
    }
    CompareIs(CString(t.strings, t.lemmas[i].key), CString(t.strings, t.lemmas[j].key));
  }

  ghost predicate OwnsBlock(t: Tables, i: nat, b: nat) {
    i < |t.lemmas| && t.lemmas[i].first <= b < t.lemmas[i].first + t.lemmas[i].count
  }

  ghost predicate OwnsRecord(t: Tables, b: nat, r: nat) {
    b < |t.blocks| && t.blocks[b].first <= r < t.blocks[b].first + t.blocks[b].count
  }

  lemma {:induction false} LemmaOrder(t: Tables, i: nat, j: nat)
    requires Canonical(t) && i < j < |t.lemmas|
    ensures t.lemmas[i].first + t.lemmas[i].count <= t.lemmas[j].first
    decreases j - i
  {
    assert LemmaOk(t, j) && LemmaOk(t, i) && LemmaOk(t, j - 1);
    if i + 1 < j {
      LemmaOrder(t, i, j - 1);
    }
  }

  lemma {:induction false} BlockOrder(t: Tables, i: nat, j: nat)
    requires Canonical(t) && i < j < |t.blocks|
    ensures t.blocks[i].first + t.blocks[i].count <= t.blocks[j].first
    decreases j - i
  {
    assert BlockOk(t, j) && BlockOk(t, i) && BlockOk(t, j - 1);
    if i + 1 < j {
      BlockOrder(t, i, j - 1);
    }
  }

  lemma {:induction false} FindLemma(t: Tables, b: nat, n: nat) returns (i: nat)
    requires Canonical(t) && n <= |t.lemmas| && b < LemmaEnd(t.lemmas, n)
    ensures OwnsBlock(t, i, b)
    decreases n
  {
    assert LemmaOk(t, n - 1);
    if t.lemmas[n - 1].first <= b {
      i := n - 1;
    } else {
      i := FindLemma(t, b, n - 1);
    }
  }

  lemma {:induction false} FindBlock(t: Tables, r: nat, n: nat) returns (b: nat)
    requires Canonical(t) && n <= |t.blocks| && r < BlockEnd(t.blocks, n)
    ensures OwnsRecord(t, b, r)
    decreases n
  {
    assert BlockOk(t, n - 1);
    if t.blocks[n - 1].first <= r {
      b := n - 1;
    } else {
      b := FindBlock(t, r, n - 1);
    }
  }

  /** The lemma and block ranges tile the block and record tables: every record belongs to
      exactly one block and exactly one lemma. */
  lemma RecordHasOneLemma(t: Tables, r: nat) returns (i: nat, b: nat)
    requires Canonical(t) && r < |t.records|
    ensures OwnsBlock(t, i, b) && OwnsRecord(t, b, r)
    ensures forall i': nat, b': nat :: OwnsBlock(t, i', b') && OwnsRecord(t, b', r) ==> i' == i && b' == b
  {
    b := FindBlock(t, r, |t.blocks|);
    i := FindLemma(t, b, |t.lemmas|);
    forall i': nat, b': nat | OwnsBlock(t, i', b') && OwnsRecord(t, b', r)
      ensures i' == i && b' == b
    {
      if b' < b {
        BlockOrder(t, b', b);
      } else if b < b' {
        BlockOrder(t, b, b');
      }
      if i' < i {
        LemmaOrder(t, i', i);
      } else if i < i' {
        LemmaOrder(t, i, i');
      }
    }
  }
}
