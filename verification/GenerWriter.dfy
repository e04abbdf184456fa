/** write_index of tools/gener-index-builder.c: the passes over the blocks, the counting pass
    with its overflow tests, and the layout into the payload buffer. */
module GenerWriter {
  import opened ByteStrings
  import opened GenerBlocks
  import opened GenerBytes
  import opened GenerFormat
  import opened GenerLayout
  import GenerIndex
  import Sorting

  // ----- writing entries

  lemma SplicesJoin(s: Bytes, at: nat, x: Bytes, y: Bytes)
    requires at + |x| + |y| <= |s|
    ensures Splice(Splice(s, at, x), at + |x|, y) == Splice(s, at, x + y)
  {
  }

  lemma SpliceSame(s: Bytes, at: nat, n: nat)
    requires at + n <= |s| && forall q | at <= q < at + n :: s[q] == 0
    ensures Splice(s, at, Le(0, n)) == s
  {
    LeZero(n);
  }

  lemma {:induction false} LeZero(n: nat)
    ensures forall i | 0 <= i < n :: Le(0, n)[i] == 0
    decreases n
  {
    if n > 0 {
      LeZero(n - 1);
    }
  }

  method PutLemma(payload: array<Byte>, at: nat, key: nat, first: nat, count: nat)
    requires at + LEMMA_SIZE <= payload.Length
    requires forall q | at <= q < at + LEMMA_SIZE :: payload[..][q] == 0
    modifies payload
    ensures payload[..] == Splice(old(payload[..]), at, EncLemma(LemmaEntry(key, first, count, 0)))
  {
    hide Le;
    ghost var s := payload[..];
    Put(payload, at, key, 8);
    Put(payload, at + 8, first, 8);
    SplicesJoin(s, at, Le(key, 8), Le(first, 8));
    Put(payload, at + 16, count, 4);
    SplicesJoin(s, at, Le(key, 8) + Le(first, 8), Le(count, 4));
    SpliceSame(payload[..], at + 20, 4);
    SplicesJoin(s, at, Le(key, 8) + Le(first, 8) + Le(count, 4), Le(0, 4));
  }

  method PutBlock(payload: array<Byte>, at: nat, first: nat, count: nat)
    requires at + BLOCK_SIZE <= payload.Length
    requires forall q | at <= q < at + BLOCK_SIZE :: payload[..][q] == 0
    modifies payload
    ensures payload[..] == Splice(old(payload[..]), at, EncBlock(BlockEntry(first, count, 0)))
  {
    hide Le;
    ghost var s := payload[..];
    Put(payload, at, first, 8);
    Put(payload, at + 8, count, 4);
    SplicesJoin(s, at, Le(first, 8), Le(count, 4));
    SpliceSame(payload[..], at + 12, 4);
    SplicesJoin(s, at, Le(first, 8) + Le(count, 4), Le(0, 4));
  }

  method PutRecord(payload: array<Byte>, at: nat, kind: nat, stem: nat, keys: nat)
    requires at + RECORD_SIZE <= payload.Length
    requires forall q | at <= q < at + RECORD_SIZE :: payload[..][q] == 0
    modifies payload
    ensures payload[..] == Splice(old(payload[..]), at, EncRecord(RecordEntry(kind, 0, stem, keys)))
  {
    hide Le;
    ghost var s := payload[..];
    Put(payload, at, kind, 4);
    SpliceSame(payload[..], at + 4, 4);
    SplicesJoin(s, at, Le(kind, 4), Le(0, 4));
    Put(payload, at + 8, stem, 8);
    SplicesJoin(s, at, Le(kind, 4) + Le(0, 4), Le(stem, 8));
    Put(payload, at + 16, keys, 8);
    SplicesJoin(s, at, Le(kind, 4) + Le(0, 4) + Le(stem, 8), Le(keys, 8));
  }

  /** memcpy of a string with its terminator. */
  method PutString(payload: array<Byte>, at: nat, s: Bytes)
    requires at + |s| + 1 <= payload.Length
    modifies payload
    ensures payload[..] == Splice(old(payload[..]), at, s + [0])
  {
    forall i | 0 <= i < |s| + 1 {
      payload[at + i] := (s + [0])[i];
    }
    ghost var r := Splice(old(payload[..]), at, s + [0]);
    forall q | 0 <= q < payload.Length
      ensures payload[q] == r[q]
    {
      if at <= q < at + |s| + 1 {
        assert payload[at + (q - at)] == (s + [0])[q - at];
        assert r[at..at + |s| + 1][q - at] == (s + [0])[q - at];
      }
    }
  }

  // ----- the layout pass

  /** The cursors of write_index; first is its first_record. */
  datatype Cursors = Cursors(lemma_: nat, block: nat, record: nat, text: nat, first: nat)

  /** Every cursor stands behind what its area holds. */
  ghost function CursorsAt(a: Areas, t: Tables): Cursors {
    Cursors(|t.lemmas| * LEMMA_SIZE, a.blocks + |t.blocks| * BLOCK_SIZE, a.records + |t.records| * RECORD_SIZE,
            a.strings + |t.strings|, |t.records|)
  }

  method WriteString(payload: array<Byte>, c: Cursors, s: Bytes, a: Areas, ghost t: Tables) returns (c': Cursors)
    requires Picture(payload[..], a, t) && c == CursorsAt(a, t) && a.strings + |t.strings| + |s| + 1 <= a.size
    modifies payload
    ensures Picture(payload[..], a, t.(strings := t.strings + (s + [0])))
    ensures c' == CursorsAt(a, t.(strings := t.strings + (s + [0])))
  {
    hide Picture, Splice, AddRecord, AddRecords;
    PictureRoom(payload[..], a, t);
    PictureString(payload[..], a, t, s + [0]);
    PutString(payload, c.text, s);
    c' := c.(text := c.text + |s| + 1);
  }

  method WriteRecord(payload: array<Byte>, c: Cursors, item: SourceRecord, a: Areas, ghost t: Tables)
    returns (c': Cursors)
    requires Picture(payload[..], a, t) && c == CursorsAt(a, t) && Room(a, AddRecord(t, item))
    modifies payload
    ensures Picture(payload[..], a, AddRecord(t, item)) && c' == CursorsAt(a, AddRecord(t, item))
  {
    hide Picture, Splice;
    var stemOffset := c.text - a.strings;
    c' := WriteString(payload, c, item.stem, a, t);
    ghost var t1 := t.(strings := t.strings + (item.stem + [0]));
    var keysOffset := c'.text - a.strings;
    c' := WriteString(payload, c', item.keys, a, t1);
    ghost var t2 := t1.(strings := t1.strings + (item.keys + [0]));
    ghost var e := RecordEntry(item.kind, 0, stemOffset, keysOffset);
    assert t2.strings == AddRecord(t, item).strings;
    assert t2.(records := t2.records + [e]) == AddRecord(t, item);
    PictureRoom(payload[..], a, t2);
    RecordGap(payload[..], a, t2);
    PictureRecord(payload[..], a, t2, e);
    PutRecord(payload, c'.record, item.kind, stemOffset, keysOffset);
    c' := c'.(record := c'.record + RECORD_SIZE, first := c'.first + 1);
  }

  ghost function BlockOpened(t: Tables, b: SourceBlock): Tables {
    t.(blocks := t.blocks + [BlockEntry(|t.records|, |b.records|, 0)])
  }

  method WriteBlockEntry(payload: array<Byte>, c: Cursors, source: SourceBlock, a: Areas, ghost t: Tables)
    returns (c': Cursors)
    requires Picture(payload[..], a, t) && c == CursorsAt(a, t)
    requires a.blocks + |t.blocks| * BLOCK_SIZE + BLOCK_SIZE <= a.records
    modifies payload
    ensures Picture(payload[..], a, BlockOpened(t, source)) && c' == CursorsAt(a, BlockOpened(t, source))
  {
    hide Picture, Splice;
    PictureRoom(payload[..], a, t);
    BlockGap(payload[..], a, t);
    PictureBlock(payload[..], a, t, BlockEntry(c.first, |source.records|, 0));
    PutBlock(payload, c.block, c.first, |source.records|);
    c' := c.(block := c.block + BLOCK_SIZE);
  }

  method WriteBlock(payload: array<Byte>, c: Cursors, source: SourceBlock, a: Areas, ghost t: Tables)
    returns (c': Cursors)
    requires Picture(payload[..], a, t) && c == CursorsAt(a, t)
    requires Room(a, AddRecords(BlockOpened(t, source), source.records))
    modifies payload
    ensures var r := AddRecords(BlockOpened(t, source), source.records);
      Picture(payload[..], a, r) && c' == CursorsAt(a, r)
  {
    hide Picture, AddRecord, CursorsAt;
    ghost var u, rs := BlockOpened(t, source), source.records;
    AddRecordsGrew(u, rs);
    assert rs[..0] == [] && rs[..|rs|] == rs && AddRecords(u, []) == u;
    c' := WriteBlockEntry(payload, c, source, a, t);
    var record := 0;
    while record != |source.records|
      invariant 0 <= record <= |rs|
      invariant Picture(payload[..], a, AddRecords(u, rs[..record])) && c' == CursorsAt(a, AddRecords(u, rs[..record]))
    {
      RecordRoom(a, u, rs, record);
      c' := WriteRecord(payload, c', source.records[record], a, AddRecords(u, rs[..record]));
      record := record + 1;
    }
  }

  /** What fits in the end fits on the way. */
  lemma RecordRoom(a: Areas, t: Tables, rs: seq<SourceRecord>, k: nat)
    requires k < |rs| && Room(a, AddRecords(t, rs))
    ensures AddRecords(t, rs[..k + 1]) == AddRecord(AddRecords(t, rs[..k]), rs[k])
    ensures Room(a, AddRecords(t, rs[..k + 1]))
  {
    assert rs[..k + 1][..k] == rs[..k];
    AddRecordsWithin(t, rs, k + 1);
  }

  lemma {:induction false} AddRecordsWithin(t: Tables, rs: seq<SourceRecord>, k: nat)
    requires k <= |rs|
    ensures Within(AddRecords(t, rs[..k]), AddRecords(t, rs))
    decreases |rs|
  {
    if k == |rs| {
      assert rs[..k] == rs;
    } else {
      var n := |rs| - 1;
      AddRecordsWithin(t, rs[..n], k);
      assert rs[..n][..k] == rs[..k];
      AddRecordsGrew(AddRecords(t, rs[..n]), [rs[n]]);
      OneRecord(AddRecords(t, rs[..n]), rs[n]);
      WithinOn(AddRecords(t, rs[..k]), AddRecords(t, rs[..n]), AddRecords(t, rs));
    }
  }

  lemma OneRecord(t: Tables, r: SourceRecord)
    ensures Within(t, AddRecord(t, r))
  {
    assert AddRecord(t, r).strings == t.strings + (r.stem + [0] + r.keys + [0]);
  }

  lemma RoomBefore(a: Areas, t: Tables, b: SourceBlock)
    requires Room(a, AddRecords(BlockOpened(t, b), b.records))
    ensures Room(a, t)
  {
    AddRecordsGrew(BlockOpened(t, b), b.records);
  }

  lemma InGroupRoom(a: Areas, bs: seq<SourceBlock>, block: nat, end: nat, k: nat)
    requires Group(bs, block, end) && block <= k <= end && Room(a, Layout(bs))
    ensures Room(a, InGroup(bs, block, end, k))
    decreases end - k
  {
    hide Layout;
    assert bs[..|bs|] == bs;
    if k == block {
      InGroupRoom(a, bs, block, end, k + 1);
      InGroupStep(bs, block, end, block);
      RoomBefore(a, InGroup(bs, block, end, block), bs[block]);
    } else {
      GroupEntry(bs, block, end, k);
      LayoutGrew(bs, k, |bs|);
    }
  }

  /** The end of the group that starts at block. */
  method GroupEnd(bs: seq<SourceBlock>, block: nat) returns (groupEnd: nat)
    requires block < |bs| && StartsGroup(bs, block)
    ensures Group(bs, block, groupEnd) && (groupEnd < |bs| ==> StartsGroup(bs, groupEnd))
  {
    groupEnd := block + 1;
    while groupEnd != |bs| && bs[block].lemma_ == bs[groupEnd].lemma_
      invariant block < groupEnd <= |bs|
      invariant forall k | block <= k < groupEnd :: bs[k].lemma_ == bs[block].lemma_
    {
      groupEnd := groupEnd + 1;
    }
  }

  method CountGroup(bs: seq<SourceBlock>, block: nat, groupEnd: nat) returns (groupBlocks: nat)
    requires block <= groupEnd <= |bs| && forall k | block <= k < groupEnd :: bs[k].records != []
    ensures groupBlocks == groupEnd - block
  {
    groupBlocks := 0;
    var current := block;
    while current != groupEnd
      invariant block <= current <= groupEnd && groupBlocks == current - block
    {
      if bs[current].records != [] {
        groupBlocks := groupBlocks + 1;
      }
      current := current + 1;
    }
  }

  method WriteLemmaEntry(payload: array<Byte>, c: Cursors, key: nat, count: nat, a: Areas, ghost t: Tables)
    returns (c': Cursors)
    requires Picture(payload[..], a, t) && c == CursorsAt(a, t) && |t.lemmas| * LEMMA_SIZE + LEMMA_SIZE <= a.blocks
    modifies payload
    ensures var u := t.(lemmas := t.lemmas + [LemmaEntry(key, |t.blocks|, count, 0)]);
      Picture(payload[..], a, u) && c' == CursorsAt(a, u)
  {
    hide Picture, Splice;
    var first := (c.block - a.blocks) / BLOCK_SIZE;
    PictureRoom(payload[..], a, t);
    LemmaGap(payload[..], a, t);
    PictureLemma(payload[..], a, t, LemmaEntry(key, first, count, 0));
    PutLemma(payload, c.lemma_, key, first, count);
    c' := c.(lemma_ := c.lemma_ + LEMMA_SIZE);
  }

  lemma InGroupOpens(bs: seq<SourceBlock>, block: nat, end: nat)
    requires block < end <= |bs|
    ensures var t := Layout(bs[..block]);
      var u := t.(strings := t.strings + (bs[block].lemma_ + [0]));
      InGroup(bs, block, end, block) == u.(lemmas := u.lemmas + [LemmaEntry(|t.strings|, |t.blocks|, end - block, 0)])
  {
    hide Layout;
    var t := Layout(bs[..block]);
    assert t.strings + (bs[block].lemma_ + [0]) == t.strings + bs[block].lemma_ + [0];
  }

  /** The lemma string and the lemma entry of a group. */
  method WriteLemma(payload: array<Byte>, c: Cursors, bs: seq<SourceBlock>, block: nat, groupEnd: nat, a: Areas)
    returns (c': Cursors)
    requires block < groupEnd <= |bs| && Room(a, InGroup(bs, block, groupEnd, block))
    requires Picture(payload[..], a, Layout(bs[..block])) && c == CursorsAt(a, Layout(bs[..block]))
    modifies payload
    ensures Picture(payload[..], a, InGroup(bs, block, groupEnd, block))
    ensures c' == CursorsAt(a, InGroup(bs, block, groupEnd, block))
  {
    hide Picture, Layout, InGroup;
    InGroupOpens(bs, block, groupEnd);
    ghost var t := Layout(bs[..block]);
    var keyOffset := c.text - a.strings;
    c' := WriteString(payload, c, bs[block].lemma_, a, t);
    ghost var u := t.(strings := t.strings + (bs[block].lemma_ + [0]));
    c' := WriteLemmaEntry(payload, c', keyOffset, groupEnd - block, a, u);
  }

  /** One group of write_index. */
  method WriteGroup(payload: array<Byte>, c: Cursors, bs: seq<SourceBlock>, block: nat, groupEnd: nat, a: Areas)
    returns (c': Cursors)
    requires Group(bs, block, groupEnd) && Room(a, Layout(bs))
    requires forall k | block <= k < groupEnd :: bs[k].records != []
    requires Picture(payload[..], a, Layout(bs[..block])) && c == CursorsAt(a, Layout(bs[..block]))
    modifies payload
    ensures Picture(payload[..], a, Layout(bs[..groupEnd])) && c' == CursorsAt(a, Layout(bs[..groupEnd]))
  {
    hide Picture, Layout, AddRecords, CursorsAt, InGroup, BlockOpened, Room, StartsGroup;
    InGroupRoom(a, bs, block, groupEnd, block);
    InGroupEnd(bs, block, groupEnd);
    c' := WriteLemma(payload, c, bs, block, groupEnd, a);
    var current := block;
    while current != groupEnd
      invariant block <= current <= groupEnd
      invariant Picture(payload[..], a, InGroup(bs, block, groupEnd, current))
      invariant c' == CursorsAt(a, InGroup(bs, block, groupEnd, current))
    {
      InGroupNext(a, bs, block, groupEnd, current);
      if bs[current].records != [] {
        c' := WriteBlock(payload, c', bs[current], a, InGroup(bs, block, groupEnd, current));
      }
      current := current + 1;
    }
  }

  lemma InGroupNext(a: Areas, bs: seq<SourceBlock>, block: nat, end: nat, current: nat)
    requires Group(bs, block, end) && block <= current < end && Room(a, Layout(bs))
    ensures var t, b := InGroup(bs, block, end, current), bs[current];
      && InGroup(bs, block, end, current + 1) == AddRecords(BlockOpened(t, b), b.records)
      && Room(a, InGroup(bs, block, end, current + 1))
  {
    InGroupStep(bs, block, end, current);
    InGroupRoom(a, bs, block, end, current + 1);
  }

  /** Entries of finished groups stay. */
  lemma {:induction false} GroupsStay(bs: seq<SourceBlock>, end: nat, k: nat)
    requires end <= k <= |bs| && (end < |bs| ==> StartsGroup(bs, end))
    ensures Layout(bs[..end]).lemmas <= Layout(bs[..k]).lemmas
    ensures end < k ==> |Layout(bs[..end]).lemmas| < |Layout(bs[..k]).lemmas|
    decreases k
  {
    hide Layout, AddBlock, Grew;
    if end < k {
      GroupsStay(bs, end, k - 1);
      LayoutStep(bs, k - 1);
    }
  }

  /** No group is too large for its count field. */
  ghost predicate GroupsFit(t: Tables) {
    forall i {:trigger t.lemmas[i]} | 0 <= i < |t.lemmas| :: t.lemmas[i].count <= MAX32
  }

  lemma GroupCounted(bs: seq<SourceBlock>, block: nat, end: nat)
    requires Group(bs, block, end) && (end < |bs| ==> StartsGroup(bs, end))
    ensures GroupsFit(Layout(bs[..block])) && end - block <= MAX32 ==> GroupsFit(Layout(bs[..end]))
    ensures end - block > MAX32 ==> !GroupsFit(Layout(bs))
  {
    hide Layout;
    GroupEntry(bs, block, end, end);
    GroupsStay(bs, end, |bs|);
    assert bs[..|bs|] == bs;
    var m := |Layout(bs[..end]).lemmas| - 1;
    assert Layout(bs[..end]).lemmas[m] == Layout(bs).lemmas[m];
  }

  /** The loop of write_index over the groups. */
  method WritePayload(payload: array<Byte>, bs: seq<SourceBlock>, a: Areas) returns (ok: bool, c: Cursors)
    requires a == AreasFor(Layout(bs)) && Picture(payload[..], a, Layout([]))
    requires forall k | 0 <= k < |bs| :: bs[k].records != []
    modifies payload
    ensures ok <==> GroupsFit(Layout(bs))
    ensures ok ==> Picture(payload[..], a, Layout(bs)) && c == CursorsAt(a, Layout(bs))
  {
    hide Picture, Group;
    c := Cursors(0, a.blocks, a.records, a.strings, 0);
    assert bs[..0] == [] && bs[..|bs|] == bs && c == CursorsAt(a, Layout([])) && GroupsFit(Layout([]));
    assert Room(a, Layout(bs));
    var block := 0;
    while block != |bs|
      invariant 0 <= block <= |bs| && (block < |bs| ==> StartsGroup(bs, block))
      invariant Picture(payload[..], a, Layout(bs[..block])) && c == CursorsAt(a, Layout(bs[..block]))
      invariant GroupsFit(Layout(bs[..block]))
    {
      var groupEnd := GroupEnd(bs, block);
      GroupIsRange(bs, block, groupEnd);
      var groupBlocks := CountGroup(bs, block, groupEnd);
      GroupCounted(bs, block, groupEnd);
      if groupBlocks > MAX32 {
        return false, c;
      }
      if groupBlocks != 0 {
        c := WriteGroup(payload, c, bs, block, groupEnd, a);
      }
      block := groupEnd;
    }
    ok := true;
  }

  lemma GroupIsRange(bs: seq<SourceBlock>, block: nat, end: nat)
    requires Group(bs, block, end)
    ensures block < end <= |bs|
  {
  }

  // ----- the counting pass

  ghost predicate RecordCountsFit(bs: seq<SourceBlock>) {
    forall i {:trigger bs[i]} | 0 <= i < |bs| :: |bs[i].records| <= MAX32
  }

  ghost predicate CountsFit(bs: seq<SourceBlock>) {
    RecordCountsFit(bs) && |Layout(bs).records| <= MAX64 && |Layout(bs).strings| <= MAX64
  }

  method CountRecords(rs: seq<SourceRecord>, size: nat, ghost t: Tables) returns (ok: bool, total: nat)
    requires size == |t.strings| <= MAX64
    ensures ok <==> |AddRecords(t, rs).strings| <= MAX64
    ensures ok ==> total == |AddRecords(t, rs).strings|
  {
    hide AddRecords;
    ok, total := true, size;
    var record := 0;
    RecordsNone(t, rs);
    while record != |rs|
      invariant 0 <= record <= |rs| && total == |AddRecords(t, rs[..record]).strings| <= MAX64
    {
      RecordSizes(t, rs, record);
      ok, total := GenerIndex.AddSize(total, |rs[record].stem| + 1);
      if ok {
        ok, total := GenerIndex.AddSize(total, |rs[record].keys| + 1);
      }
      if !ok {
        return;
      }
      record := record + 1;
    }
    ok := true;
  }

  lemma RecordsNone(t: Tables, rs: seq<SourceRecord>)
    ensures AddRecords(t, rs[..0]) == t && rs[..|rs|] == rs
  {
  }

  lemma RecordSizes(t: Tables, rs: seq<SourceRecord>, k: nat)
    requires k < |rs|
    ensures |AddRecords(t, rs[..k + 1]).strings| == |AddRecords(t, rs[..k]).strings| + |rs[k].stem| + 1 + |rs[k].keys| + 1
    ensures |AddRecords(t, rs[..k + 1]).strings| <= |AddRecords(t, rs).strings|
  {
    assert rs[..k + 1][..k] == rs[..k];
    AddRecordsWithin(t, rs, k + 1);
  }

  /** The tables just before the records of block k. */
  ghost function Before(bs: seq<SourceBlock>, k: nat): Tables
    requires k < |bs|
  {
    var t := Layout(bs[..k]);
    OpenBlock(if StartsGroup(bs, k) then OpenGroup(t, bs[k].lemma_) else t, bs[k])
  }

  lemma CountStep(bs: seq<SourceBlock>, k: nat)
    requires k < |bs|
    ensures var s, t, u := Layout(bs[..k]), Layout(bs[..k + 1]), Before(bs, k);
      && |t.lemmas| == |s.lemmas| + (if StartsGroup(bs, k) then 1 else 0)
      && |t.records| == |s.records| + |bs[k].records|
      && |u.strings| == |s.strings| + (if StartsGroup(bs, k) then |bs[k].lemma_| + 1 else 0)
      && t == AddRecords(u, bs[k].records) && |u.strings| <= |t.strings|
      && |t.strings| <= |Layout(bs).strings| && |t.records| <= |Layout(bs).records|
  {
    LayoutStep(bs, k);
    LayoutGrew(bs, k + 1, |bs|);
    assert bs[..|bs|] == bs;
    AddRecordsGrew(Before(bs, k), bs[k].records);
  }

  method CountBlock(bs: seq<SourceBlock>, block: nat, lemmaCount: nat, recordCount: nat, stringSize: nat)
    returns (ok: bool, lemmas: nat, records: nat, strings: nat)
    requires block < |bs| && bs[block].records != []
    requires var t := Layout(bs[..block]);
      lemmaCount == |t.lemmas| && recordCount == |t.records| <= MAX64 && stringSize == |t.strings| <= MAX64
    ensures ok ==> |bs[block].records| <= MAX32
    ensures ok ==> var t := Layout(bs[..block + 1]);
      lemmas == |t.lemmas| && records == |t.records| <= MAX64 && strings == |t.strings| <= MAX64
    ensures !ok ==> !CountsFit(bs)
  {
    hide Layout, AddRecords, Before;
    CountStep(bs, block);
    lemmas, records, strings := lemmaCount, recordCount, stringSize;
    if |bs[block].records| > MAX32 {
      return false, lemmas, records, strings;
    }
    if block == 0 || bs[block - 1].lemma_ != bs[block].lemma_ {
      lemmas := lemmas + 1;
      ok, strings := GenerIndex.AddSize(strings, |bs[block].lemma_| + 1);
      if !ok {
        return;
      }
    }
    ok, records := GenerIndex.AddSize(records, |bs[block].records|);
    if !ok {
      return;
    }
    ok, strings := CountRecords(bs[block].records, strings, Before(bs, block));
  }

  method CountSizes(bs: seq<SourceBlock>) returns (ok: bool, lemmaCount: nat, recordCount: nat, stringSize: nat)
    requires forall k | 0 <= k < |bs| :: bs[k].records != []
    ensures ok <==> CountsFit(bs)
    ensures ok ==> var t := Layout(bs);
      lemmaCount == |t.lemmas| && recordCount == |t.records| && stringSize == |t.strings|
  {
    lemmaCount, recordCount, stringSize := 0, 0, 0;
    assert bs[..0] == [] && bs[..|bs|] == bs;
    var block := 0;
    while block != |bs|
      invariant 0 <= block <= |bs| && forall i | 0 <= i < block :: |bs[i].records| <= MAX32
      invariant var t := Layout(bs[..block]);
        lemmaCount == |t.lemmas| && recordCount == |t.records| <= MAX64 && stringSize == |t.strings| <= MAX64
    {
      ok, lemmaCount, recordCount, stringSize := CountBlock(bs, block, lemmaCount, recordCount, stringSize);
      if !ok {
        return;
      }
      block := block + 1;
    }
    ok := true;
  }

  // multiply_size
  method MultiplySize(count: nat, size: nat) returns (ok: bool, result: nat)
    ensures ok <==> count * size <= MAX64
    ensures ok ==> result == count * size
  {
    if size != 0 {
      GenerIndex.MultiplyFits(size, count);
    }
    if size != 0 && count > MAX64 / size {
      return false, 0;
    }
    return true, count * size;
  }

  /** The size of the payload, if size_t can hold it. */
  method PayloadSize(lemmaCount: nat, blockCount: nat, recordCount: nat, stringSize: nat) returns (ok: bool, size: nat)
    ensures var total := StringBase(lemmaCount, blockCount, recordCount) - HEADER_SIZE + stringSize;
      (ok <==> total <= MAX64) && (ok ==> size == total)
  {
    size := 0;
    var tableSize;
    ok, tableSize := MultiplySize(lemmaCount, LEMMA_SIZE);
    if ok {
      ok, size := GenerIndex.AddSize(size, tableSize);
    }
    if ok {
      ok, tableSize := MultiplySize(blockCount, BLOCK_SIZE);
    }
    if ok {
      ok, size := GenerIndex.AddSize(size, tableSize);
    }
    if ok {
      ok, tableSize := MultiplySize(recordCount, RECORD_SIZE);
    }
    if ok {
      ok, size := GenerIndex.AddSize(size, tableSize);
    }
    if ok {
      ok, size := GenerIndex.AddSize(size, stringSize);
    }
  }

  // ----- the header

  function HeaderBytes(lemmas: nat, blocks: nat, records: nat, strings: nat, hash: nat): Bytes {
    MAGIC + Le(FORMAT_VERSION, 4) + Le(LANGUAGE_GREEK, 4) + Le(lemmas, 8) + Le(blocks, 8) + Le(records, 8) +
    Le(strings, 8) + Le(hash, 8) + Le(0, 8)
  }

  lemma HeaderSplices(s: Bytes, lemmas: nat, blocks: nat, records: nat, strings: nat, hash: nat)
    requires |s| == HEADER_SIZE && s[..8] == MAGIC && forall q | 8 <= q < HEADER_SIZE :: s[q] == 0
    ensures Splice(Splice(Splice(Splice(Splice(Splice(Splice(s, 8, Le(FORMAT_VERSION, 4)), 12, Le(LANGUAGE_GREEK, 4)),
              16, Le(lemmas, 8)), 24, Le(blocks, 8)), 32, Le(records, 8)), 40, Le(strings, 8)), 48, Le(hash, 8))
         == HeaderBytes(lemmas, blocks, records, strings, hash)
  {
    hide Le;
    SpliceSame(s, 56, 8);
    var a := Le(FORMAT_VERSION, 4);
    SplicesJoin(s, 8, a, Le(LANGUAGE_GREEK, 4));
    a := a + Le(LANGUAGE_GREEK, 4);
    SplicesJoin(s, 8, a, Le(lemmas, 8));
    a := a + Le(lemmas, 8);
    SplicesJoin(s, 8, a, Le(blocks, 8));
    a := a + Le(blocks, 8);
    SplicesJoin(s, 8, a, Le(records, 8));
    a := a + Le(records, 8);
    SplicesJoin(s, 8, a, Le(strings, 8));
    a := a + Le(strings, 8);
    SplicesJoin(s, 8, a, Le(hash, 8));
    a := a + Le(hash, 8);
    assert s == MAGIC + s[8..56] + Le(0, 8);
    assert Splice(s, 8, a) == MAGIC + a + Le(0, 8);
  }

  method MakeHeader(lemmas: nat, blocks: nat, records: nat, strings: nat, hash: nat) returns (header: array<Byte>)
    ensures fresh(header) && header[..] == HeaderBytes(lemmas, blocks, records, strings, hash)
  {
    hide Splice, HeaderBytes, Le;
    header := new Byte[HEADER_SIZE](i => if 0 <= i < 8 then MAGIC[i] else 0);
    HeaderSplices(header[..], lemmas, blocks, records, strings, hash);
    Put(header, 8, FORMAT_VERSION, 4);
    Put(header, 12, LANGUAGE_GREEK, 4);
    Put(header, 16, lemmas, 8);
    Put(header, 24, blocks, 8);
    Put(header, 32, records, 8);
    Put(header, 40, strings, 8);
    Put(header, 48, hash, 8);
  }

  lemma HeaderDecoded(t: Tables, p: Bytes)
    requires |t.lemmas| <= MAX64 && |t.blocks| <= MAX64 && |t.records| <= MAX64 && |t.strings| <= MAX64
    ensures HeaderFor(HeaderBytes(|t.lemmas|, |t.blocks|, |t.records|, |t.strings|, PayloadHash(p)) + p, t)
  {
    hide Le, Value, PayloadHash;
    var enc := HeaderBytes(|t.lemmas|, |t.blocks|, |t.records|, |t.strings|, PayloadHash(p));
    var file := enc + p;
    assert file[0..|enc|] == enc && file[HEADER_SIZE..] == p && file[..8] == MAGIC;
    Field(file, 0, enc, 8, FORMAT_VERSION, 4);
    Field(file, 0, enc, 12, LANGUAGE_GREEK, 4);
    Field(file, 0, enc, 16, |t.lemmas|, 8);
    Field(file, 0, enc, 24, |t.blocks|, 8);
    Field(file, 0, enc, 32, |t.records|, 8);
    Field(file, 0, enc, 40, |t.strings|, 8);
    Field(file, 0, enc, 48, PayloadHash(p), 8);
    Field(file, 0, enc, 56, 0, 8);
  }

  // ----- write_index

  datatype Outcome = WRITTEN | OVERFLOW | LAYOUT_ERROR

  /** The host limits of write_index. */
  ghost predicate Fits(bs: seq<SourceBlock>) {
    && RecordCountsFit(bs) && GroupsFit(Layout(bs))
    && AreasFor(Layout(bs)).size <= MAX64
  }

  lemma FieldsFit(bs: seq<SourceBlock>)
    requires Prepared(bs) && Fits(bs)
    ensures AllFit(Layout(bs)) && Canonical(Layout(bs)) && |Layout(bs).blocks| <= MAX64
  {
    hide Layout, Terminated, CString, Compare, RecordsShow;
    LayoutShows(bs);
    ShownIsCanonical(Layout(bs), bs);
    var t := Layout(bs);
    forall i | 0 <= i < |t.lemmas|
      ensures LemmaFits(t.lemmas[i])
    {
      assert LemmaOk(t, i);
    }
    forall i | 0 <= i < |t.blocks|
      ensures BlockFits(t.blocks[i])
    {
      assert BlockOk(t, i) && BlockShows(t, i, bs[i]);
    }
    forall i | 0 <= i < |t.records|
      ensures RecordFits(t.records[i])
    {
      assert RecordOk(t, i);
    }
  }

  /** What stands behind the header is an index. */
  lemma FileIsIndex(bs: seq<SourceBlock>, header: Bytes, p: Bytes)
    requires Prepared(bs) && Fits(bs) && Picture(p, AreasFor(Layout(bs)), Layout(bs))
    requires var t := Layout(bs);
      header == HeaderBytes(|t.lemmas|, |t.blocks|, |t.records|, |t.strings|, PayloadHash(p))
    ensures IsIndex(header + p, Layout(bs))
  {
    hide Layout, HeaderFor, Holds, Canonical, AllFit, PayloadHash, Picture, Prepared, GroupsFit, RecordCountsFit;
    FieldsFit(bs);
    HeaderDecoded(Layout(bs), p);
    FullPicture(header, p, Layout(bs));
  }

  lemma EmptyPicture(p: Bytes, a: Areas)
    requires |p| == a.size && a.blocks <= a.records <= a.strings <= a.size
    requires forall q {:trigger p[q]} | 0 <= q < |p| :: p[q] == 0
    ensures Picture(p, a, Layout([]))
  {
  }

  method Allocate(size: nat) returns (payload: array<Byte>)
    ensures fresh(payload) && payload.Length == size
    ensures forall q {:trigger payload[..][q]} | 0 <= q < size :: payload[..][q] == 0
  {
    payload := new Byte[size](i => 0);
  }

  /** The counting pass, the layout pass and the header. */
  method Emit(bs: seq<SourceBlock>) returns (outcome: Outcome, file: Bytes)
    requires Prepared(bs)
    ensures outcome == if Fits(bs) then WRITTEN else OVERFLOW
    ensures outcome == WRITTEN ==> IsIndex(file, Layout(bs))
  {
    hide Layout, Picture, HeaderBytes, PayloadHash, IsIndex, RecordCountsFit, GroupsFit, Sorted, Parsed;
    ghost var t := Layout(bs);
    file := [];
    LayoutBlocks(bs, |bs|);
    assert bs[..|bs|] == bs;
    var ok, lemmaCount, recordCount, stringSize := CountSizes(bs);
    if !ok {
      return OVERFLOW, file;
    }
    var payloadSize;
    ok, payloadSize := PayloadSize(lemmaCount, |bs|, recordCount, stringSize);
    if !ok {
      return OVERFLOW, file;
    }
    var payload := Allocate(payloadSize);
    var blockBase := lemmaCount * LEMMA_SIZE;
    var recordBase := blockBase + |bs| * BLOCK_SIZE;
    var stringBase := recordBase + recordCount * RECORD_SIZE;
    var a := Areas(blockBase, recordBase, stringBase, payloadSize);
    EmptyPicture(payload[..], a);
    var c;
    ok, c := WritePayload(payload, bs, a);
    if !ok {
      return OVERFLOW, file;
    }
    if c.lemma_ != lemmaCount * LEMMA_SIZE || c.block != lemmaCount * LEMMA_SIZE + |bs| * BLOCK_SIZE ||
       c.record != stringBase || c.text != payloadSize {
      return LAYOUT_ERROR, file;
    }
    var hash := ComputeHash(payload[..]);
    var header := MakeHeader(lemmaCount, |bs|, recordCount, stringSize, hash);
    FileIsIndex(bs, header[..], payload[..]);
    return WRITTEN, header[..] + payload[..];
  }

  /** For every lemma the distinct nonempty record lists of the source, in source order. */
  ghost function SourceLists(source: seq<SourceBlock>, key: Bytes): seq<seq<SourceRecord>> {
    Dedup(ListsFor(NonEmpty(source), key))
  }

  ghost predicate Stands(bs: seq<SourceBlock>, source: seq<SourceBlock>) {
    Prepared(bs) && forall key :: ListsFor(bs, key) == SourceLists(source, key)
  }

  lemma PassesCompose(source: seq<SourceBlock>, sorted: seq<SourceBlock>, bs: seq<SourceBlock>)
    requires Parsed(source) && InSourceOrder(source)
    requires Sorted(sorted) && multiset(sorted) == multiset(NonEmpty(source))
    requires Sorted(bs) && Kept(bs, sorted)
    ensures Stands(bs, source)
  {
    NonEmptyKeeps(source);
    Sorting.SameMembers(sorted, NonEmpty(source));
    forall i | 0 <= i < |bs|
      ensures BlockFit(bs[i]) && bs[i].records != []
    {
      assert bs[i] in sorted && bs[i] in NonEmpty(source);
    }
    forall key
      ensures ListsFor(bs, key) == SourceLists(source, key)
    {
      SortKeepsLists(NonEmpty(source), sorted, key);
    }
  }

  method Store(blocks: array<SourceBlock>, sorted: seq<SourceBlock>)
    requires |sorted| <= blocks.Length
    modifies blocks
    ensures blocks[..|sorted|] == sorted
  {
    forall i | 0 <= i < |sorted| {
      blocks[i] := sorted[i];
    }
  }

  /** The three passes over the blocks. */
  method Prepare(blocks: array<SourceBlock>) returns (count: nat)
    requires Parsed(blocks[..]) && InSourceOrder(blocks[..])
    modifies blocks
    ensures count <= blocks.Length && Stands(blocks[..count], old(blocks[..]))
  {
    hide Sorted, InSourceOrder, Kept, Stands, Parsed, NonEmpty;
    ghost var source := blocks[..];
    count := DiscardEmpty(blocks);
    NonEmptyKeeps(source);
    var sorted := SortBlocks(blocks[..count]);
    Sorting.SameMembers(sorted, NonEmpty(source));
    Store(blocks, sorted);
    count := DiscardDuplicates(blocks, count);
    PassesCompose(source, sorted, blocks[..count]);
  }

  /** write_index writes a canonical index that stands for the source, unless a host limit is
      exceeded; its internal layout test never fails. */
  method WriteIndex(blocks: array<SourceBlock>) returns (outcome: Outcome, file: Bytes, ghost bs: seq<SourceBlock>)
    requires Parsed(blocks[..]) && InSourceOrder(blocks[..])
    modifies blocks
    ensures Stands(bs, old(blocks[..]))
    ensures outcome == if Fits(bs) then WRITTEN else OVERFLOW
    ensures outcome == WRITTEN ==> IsIndex(file, Layout(bs))
  {
    hide Parsed, InSourceOrder, Fits, IsIndex, Layout;
    var count := Prepare(blocks);
    bs := blocks[..count];
    outcome, file := Emit(blocks[..count]);
  }

  // ----- the same source gives the same tables

  lemma LastLists(bs: seq<SourceBlock>, key: Bytes)
    requires bs != []
    ensures bs[|bs| - 1].lemma_ == key ==> ListsFor(bs, key) == ListsFor(bs[..|bs| - 1], key) + [bs[|bs| - 1].records]
    ensures bs[|bs| - 1].lemma_ != key ==> ListsFor(bs, key) == ListsFor(bs[..|bs| - 1], key)
  {
  }

  /** The last block's lemma is the largest that has a list. */
  lemma LastIsLargest(bs: seq<SourceBlock>, key: Bytes)
    requires Sorted(bs) && bs != [] && ListsFor(bs, key) != []
    ensures Compare(key, bs[|bs| - 1].lemma_) <= 0
  {
    var rs := ListsFor(bs, key)[0];
    ListsContain(bs, key, rs);
    var k :| 0 <= k < |bs| && bs[k].lemma_ == key && bs[k].records == rs;
    CompareEqual(key, key);
    if k < |bs| - 1 {
      assert CompareBlocks(bs[k], bs[|bs| - 1]) < 0;
    }
  }

  lemma SameLast(a: seq<SourceBlock>, b: seq<SourceBlock>)
    requires Sorted(a) && Sorted(b) && a != [] && forall key :: ListsFor(a, key) == ListsFor(b, key)
    ensures b != [] && a[|a| - 1].lemma_ == b[|b| - 1].lemma_ && a[|a| - 1].records == b[|b| - 1].records
  {
    hide ListsFor, Sorted, Compare;
    var x := a[|a| - 1];
    LastList(a);
    assert ListsFor(a, x.lemma_) == ListsFor(b, x.lemma_);
    if b == [] {
      NoneList(x.lemma_);
    }
    var y := b[|b| - 1];
    LastList(b);
    assert ListsFor(a, y.lemma_) == ListsFor(b, y.lemma_);
    LastIsLargest(a, y.lemma_);
    LastIsLargest(b, x.lemma_);
    CompareAntisymmetric(x.lemma_, y.lemma_);
    CompareEqual(x.lemma_, y.lemma_);
  }

  lemma NoneList(key: Bytes)
    ensures ListsFor([], key) == []
  {
  }

  lemma LastList(bs: seq<SourceBlock>)
    requires bs != []
    ensures var ls := ListsFor(bs, bs[|bs| - 1].lemma_); ls != [] && ls[|ls| - 1] == bs[|bs| - 1].records
  {
  }

  lemma {:induction false} SameLists(a: seq<SourceBlock>, b: seq<SourceBlock>)
    requires Sorted(a) && Sorted(b) && forall key :: ListsFor(a, key) == ListsFor(b, key)
    ensures |a| == |b| && forall i | 0 <= i < |a| :: a[i].lemma_ == b[i].lemma_ && a[i].records == b[i].records
    decreases |a|
  {
    hide ListsFor, CompareBlocks;
    if a == [] {
      if b != [] {
        SameLast(b, a);
      }
    } else {
      SameLast(a, b);
      var a', b' := a[..|a| - 1], b[..|b| - 1];
      forall key
        ensures ListsFor(a', key) == ListsFor(b', key)
      {
        SameFronts(a, b, key);
      }
      SameLists(a', b');
      assert forall i | 0 <= i < |a'| :: a[i] == a'[i] && b[i] == b'[i];
    }
  }

  lemma SameFronts(a: seq<SourceBlock>, b: seq<SourceBlock>, key: Bytes)
    requires a != [] && b != [] && a[|a| - 1].lemma_ == b[|b| - 1].lemma_ && a[|a| - 1].records == b[|b| - 1].records
    requires ListsFor(a, key) == ListsFor(b, key)
    ensures ListsFor(a[..|a| - 1], key) == ListsFor(b[..|b| - 1], key)
  {
    LastLists(a, key);
    LastLists(b, key);
    if key == a[|a| - 1].lemma_ {
      assert ListsFor(a[..|a| - 1], key) == ListsFor(a, key)[..|ListsFor(a, key)| - 1];
      assert ListsFor(b[..|b| - 1], key) == ListsFor(b, key)[..|ListsFor(b, key)| - 1];
    }
  }

  lemma {:induction false} SameLayout(a: seq<SourceBlock>, b: seq<SourceBlock>)
    requires |a| == |b| && forall i | 0 <= i < |a| :: a[i].lemma_ == b[i].lemma_ && a[i].records == b[i].records
    ensures Layout(a) == Layout(b)
    decreases |a|
  {
    if a != [] {
      var n := |a| - 1;
      SameLayout(a[..n], b[..n]);
      assert StartsGroup(a, n) == StartsGroup(b, n);
      assert OpenBlock(Layout(a[..n]), a[n]) == OpenBlock(Layout(b[..n]), b[n]);
    }
  }

  /** The tables depend on the source only, not on the sort routine. */
  lemma TablesDetermined(a: seq<SourceBlock>, b: seq<SourceBlock>, source: seq<SourceBlock>)
    requires Stands(a, source) && Stands(b, source)
    ensures Layout(a) == Layout(b)
  {
    SameLists(a, b);
    SameLayout(a, b);
  }
}
