/** What the tables of an index say for a list of source blocks, and that they are canonical and
    complete.  GenerWriter shows that write_index writes exactly these tables. */
module GenerLayout {
  import opened ByteStrings
  import opened GenerBlocks
  import opened GenerFormat

  // ----- the source

  ghost predicate RecordFit(r: SourceRecord) {
    && RECORD_NOUN <= r.kind <= RECORD_IRREGULAR_VERB
    && Text(r.stem) && r.stem != [] && Text(r.keys) && r.keys != []
  }

  ghost predicate RecordsFit(rs: seq<SourceRecord>) {
    forall i {:trigger rs[i]} | 0 <= i < |rs| :: RecordFit(rs[i])
  }

  ghost predicate BlockFit(b: SourceBlock) {
    Text(b.lemma_) && b.lemma_ != [] && RecordsFit(b.records)
  }

  /** The blocks as the parser makes them. */
  ghost predicate Parsed(bs: seq<SourceBlock>) {
    forall i {:trigger bs[i]} | 0 <= i < |bs| :: BlockFit(bs[i])
  }

  /** The blocks as the passes leave them for the layout. */
  ghost predicate Prepared(bs: seq<SourceBlock>) {
    && Sorted(bs) && Parsed(bs)
    && forall i {:trigger bs[i]} | 0 <= i < |bs| :: bs[i].records != []
  }

  // ----- the tables, block by block

  predicate StartsGroup(bs: seq<SourceBlock>, i: nat)
    requires i < |bs|
  {
    i == 0 || bs[i - 1].lemma_ != bs[i].lemma_
  }

  /** A group of blocks with one lemma begins. */
  function OpenGroup(t: Tables, key: Bytes): Tables {
    t.(lemmas := t.lemmas + [LemmaEntry(|t.strings|, |t.blocks|, 0, 0)], strings := t.strings + key + [0])
  }

  function OneMore(es: seq<LemmaEntry>): seq<LemmaEntry> {
    if es == [] then [] else es[|es| - 1 := es[|es| - 1].(count := es[|es| - 1].count + 1)]
  }

  function AddRecord(t: Tables, r: SourceRecord): Tables {
    t.(records := t.records + [RecordEntry(r.kind, 0, |t.strings|, |t.strings| + |r.stem| + 1)],
       strings := t.strings + r.stem + [0] + r.keys + [0])
  }

  function AddRecords(t: Tables, rs: seq<SourceRecord>): Tables {
    if rs == [] then t else AddRecord(AddRecords(t, rs[..|rs| - 1]), rs[|rs| - 1])
  }

  function OpenBlock(t: Tables, b: SourceBlock): Tables {
    t.(lemmas := OneMore(t.lemmas), blocks := t.blocks + [BlockEntry(|t.records|, |b.records|, 0)])
  }

  function AddBlock(t: Tables, starts: bool, b: SourceBlock): Tables {
    AddRecords(OpenBlock(if starts then OpenGroup(t, b.lemma_) else t, b), b.records)
  }

  function Layout(bs: seq<SourceBlock>): Tables {
    if bs == [] then Tables([], [], [], [])
    else var n := |bs| - 1; AddBlock(Layout(bs[..n]), StartsGroup(bs, n), bs[n])
  }

  // ----- what the tables stand for

  ghost predicate RecordShows(t: Tables, i: nat, r: SourceRecord) {
    && i < |t.records| && t.records[i].kind == r.kind && t.records[i].reserved == 0
    && StringAt(t.strings, t.records[i].stem, r.stem) && StringAt(t.strings, t.records[i].keys, r.keys)
  }

  ghost predicate RecordsShow(t: Tables, first: nat, rs: seq<SourceRecord>) {
    forall j {:trigger rs[j]} | 0 <= j < |rs| :: RecordShows(t, first + j, rs[j])
  }

  ghost predicate BlockShows(t: Tables, i: nat, b: SourceBlock) {
    && i < |t.blocks| && t.blocks[i].reserved == 0 && t.blocks[i].count == |b.records|
    && t.blocks[i].first == BlockEnd(t.blocks, i) && t.blocks[i].first + t.blocks[i].count <= |t.records|
    && RecordsShow(t, t.blocks[i].first, b.records)
  }

  ghost predicate LemmaShows(t: Tables, i: nat, bs: seq<SourceBlock>) {
    && i < |t.lemmas| && t.lemmas[i].reserved == 0 && 0 < t.lemmas[i].count
    && t.lemmas[i].first == LemmaEnd(t.lemmas, i) && t.lemmas[i].first + t.lemmas[i].count <= |bs|
    && StringAt(t.strings, t.lemmas[i].key, bs[t.lemmas[i].first].lemma_)
    && (forall b {:trigger bs[b]} | t.lemmas[i].first <= b < t.lemmas[i].first + t.lemmas[i].count ::
          bs[b].lemma_ == bs[t.lemmas[i].first].lemma_)
    && StartsGroup(bs, t.lemmas[i].first)
  }

  ghost predicate Shows(t: Tables, bs: seq<SourceBlock>) {
    && |t.blocks| == |bs| && BlockEnd(t.blocks, |bs|) == |t.records|
    && LemmaEnd(t.lemmas, |t.lemmas|) == |bs|
    && (forall i {:trigger BlockShows(t, i, bs[i])} | 0 <= i < |bs| :: BlockShows(t, i, bs[i]))
    && (forall i {:trigger LemmaShows(t, i, bs)} | 0 <= i < |t.lemmas| :: LemmaShows(t, i, bs))
  }

  // ----- it is what the layout gives

  /** The tables grew: nothing written earlier changed, except the last lemma's count. */
  ghost predicate Grew(s: Tables, t: Tables) {
    s.strings <= t.strings && s.records <= t.records && s.blocks <= t.blocks
  }

  lemma GrewOn(s: Tables, t: Tables, u: Tables)
    requires Grew(s, t) && Grew(t, u)
    ensures Grew(s, u)
  {
  }

  lemma {:induction false} AddRecordsShows(t: Tables, rs: seq<SourceRecord>)
    requires RecordsFit(rs)
    ensures var a := AddRecords(t, rs);
      && Grew(t, a) && a.lemmas == t.lemmas && a.blocks == t.blocks
      && |a.records| == |t.records| + |rs| && RecordsShow(a, |t.records|, rs)
    decreases |rs|
  {
    hide RecordShows, RecordFit;
    if rs == [] {
    } else {
      var n := |rs| - 1;
      AddRecordsShows(t, rs[..n]);
      var a, b := AddRecords(t, rs[..n]), AddRecords(t, rs);
      AddRecordShows(a, rs[n]);
      GrewOn(t, a, b);
      forall j | 0 <= j < |rs|
        ensures RecordShows(b, |t.records| + j, rs[j])
      {
        if j < n {
          assert rs[..n][j] == rs[j];
          RecordStays(a, b, |t.records| + j, rs[j]);
        }
      }
    }
  }

  lemma AddRecordShows(t: Tables, r: SourceRecord)
    requires RecordFit(r)
    ensures Grew(t, AddRecord(t, r)) && RecordShows(AddRecord(t, r), |t.records|, r)
  {
    var a := AddRecord(t, r);
    StringAppended(t.strings, r.stem);
    StringGrows(t.strings + r.stem + [0], r.keys + [0], |t.strings|, r.stem);
    assert t.strings + r.stem + [0] + (r.keys + [0]) == a.strings;
    StringAppended(t.strings + r.stem + [0], r.keys);
  }

  lemma RecordStays(t: Tables, a: Tables, i: nat, r: SourceRecord)
    requires Grew(t, a) && RecordShows(t, i, r)
    ensures RecordShows(a, i, r)
  {
    var more := a.strings[|t.strings|..];
    assert a.strings == t.strings + more;
    StringGrows(t.strings, more, t.records[i].stem, r.stem);
    StringGrows(t.strings, more, t.records[i].keys, r.keys);
  }

  lemma BlockStays(t: Tables, a: Tables, i: nat, b: SourceBlock)
    requires Grew(t, a) && BlockShows(t, i, b)
    ensures BlockShows(a, i, b)
  {
    assert a.blocks[i] == t.blocks[i] && BlockEnd(a.blocks, i) == BlockEnd(t.blocks, i);
    forall j | 0 <= j < |b.records|
      ensures RecordShows(a, t.blocks[i].first + j, b.records[j])
    {
      RecordStays(t, a, t.blocks[i].first + j, b.records[j]);
    }
  }

  lemma LemmaStays(t: Tables, a: Tables, i: nat, bs: seq<SourceBlock>, b: SourceBlock)
    requires t.strings <= a.strings && LemmaShows(t, i, bs) && i < |a.lemmas|
    requires t.lemmas[..i + 1] == a.lemmas[..i + 1]
    ensures LemmaShows(a, i, bs + [b])
  {
    assert a.lemmas[i] == a.lemmas[..i + 1][i] == t.lemmas[..i + 1][i];
    if i > 0 {
      assert a.lemmas[i - 1] == a.lemmas[..i + 1][i - 1] == t.lemmas[..i + 1][i - 1];
    }
    var more := a.strings[|t.strings|..];
    assert a.strings == t.strings + more;
    StringGrows(t.strings, more, t.lemmas[i].key, bs[t.lemmas[i].first].lemma_);
    var all := bs + [b];
    forall k | t.lemmas[i].first <= k < t.lemmas[i].first + t.lemmas[i].count
      ensures all[k].lemma_ == all[t.lemmas[i].first].lemma_
    {
      assert all[k] == bs[k];
    }
  }

  lemma OpenBlockGrew(t: Tables, bs: seq<SourceBlock>)
    requires bs != []
    ensures var u := Opened(t, bs); Grew(t, u) && Grew(t, OpenBlock(u, bs[|bs| - 1]))
  {
    assert bs[|bs| - 1].lemma_ + [0] == bs[|bs| - 1].lemma_ + [0];
    var u := Opened(t, bs);
    if StartsGroup(bs, |bs| - 1) {
      assert u.strings == t.strings + (bs[|bs| - 1].lemma_ + [0]);
    }
  }

  /** The tables before the last block, its group opened if need be. */
  function Opened(t: Tables, bs: seq<SourceBlock>): Tables
    requires bs != []
  {
    var n := |bs| - 1;
    if StartsGroup(bs, n) then OpenGroup(t, bs[n].lemma_) else t
  }

  /** The entry of the last group once its last block is in. */
  lemma LastLemmaShows(t: Tables, a: Tables, bs: seq<SourceBlock>)
    requires bs != [] && BlockFit(bs[|bs| - 1]) && Shows(t, bs[..|bs| - 1])
    requires a.lemmas == OneMore(Opened(t, bs).lemmas) && Opened(t, bs).strings <= a.strings
    ensures a.lemmas != [] && LemmaShows(a, |a.lemmas| - 1, bs) && LemmaEnd(a.lemmas, |a.lemmas|) == |bs|
  {
    if StartsGroup(bs, |bs| - 1) {
      FirstOfGroup(t, a, bs);
    } else {
      NextOfGroup(t, a, bs);
    }
  }

  lemma FirstOfGroup(t: Tables, a: Tables, bs: seq<SourceBlock>)
    requires bs != [] && BlockFit(bs[|bs| - 1]) && Shows(t, bs[..|bs| - 1])
    requires StartsGroup(bs, |bs| - 1)
    requires a.lemmas == OneMore(Opened(t, bs).lemmas) && Opened(t, bs).strings <= a.strings
    ensures a.lemmas != [] && LemmaShows(a, |a.lemmas| - 1, bs) && LemmaEnd(a.lemmas, |a.lemmas|) == |bs|
  {
    hide LemmaShows, BlockShows;
    var b, u := bs[|bs| - 1], Opened(t, bs);
    OneMoreLast(t.lemmas, LemmaEntry(|t.strings|, |t.blocks|, 0, 0));
    StringAppended(t.strings, b.lemma_);
    assert a.strings == u.strings + a.strings[|u.strings|..];
    StringGrows(u.strings, a.strings[|u.strings|..], |t.strings|, b.lemma_);
    FreshLemma(a, t.lemmas, |t.strings|, bs);
  }

  lemma FreshLemma(a: Tables, ls: seq<LemmaEntry>, key: nat, bs: seq<SourceBlock>)
    requires bs != [] && StartsGroup(bs, |bs| - 1) && LemmaEnd(ls, |ls|) == |bs| - 1
    requires a.lemmas == ls + [LemmaEntry(key, |bs| - 1, 1, 0)] && StringAt(a.strings, key, bs[|bs| - 1].lemma_)
    ensures LemmaShows(a, |ls|, bs) && LemmaEnd(a.lemmas, |a.lemmas|) == |bs|
  {
    assert LemmaEnd(a.lemmas, |ls|) == LemmaEnd(ls, |ls|);
  }

  lemma NextOfGroup(t: Tables, a: Tables, bs: seq<SourceBlock>)
    requires bs != [] && BlockFit(bs[|bs| - 1]) && Shows(t, bs[..|bs| - 1])
    requires !StartsGroup(bs, |bs| - 1)
    requires a.lemmas == OneMore(t.lemmas) && t.strings <= a.strings
    ensures a.lemmas != [] && LemmaShows(a, |a.lemmas| - 1, bs) && LemmaEnd(a.lemmas, |a.lemmas|) == |bs|
  {
    hide BlockShows, StringAt;
    var n, m := |bs| - 1, |t.lemmas| - 1;
    var front := bs[..n];
    assert LemmaShows(t, m, front);
    var first := t.lemmas[m].first;
    assert front[n - 1].lemma_ == front[first].lemma_;
    assert a.strings == t.strings + a.strings[|t.strings|..];
    StringGrows(t.strings, a.strings[|t.strings|..], t.lemmas[m].key, front[first].lemma_);
    forall k | first <= k < n + 1
      ensures bs[k].lemma_ == bs[first].lemma_
    {
      if k < n {
        assert front[k] == bs[k];
      }
    }
    assert LemmaEnd(a.lemmas, m) == LemmaEnd(t.lemmas, m);
  }

  lemma LemmasShow(t: Tables, a: Tables, bs: seq<SourceBlock>)
    requires bs != [] && BlockFit(bs[|bs| - 1]) && Shows(t, bs[..|bs| - 1])
    requires a.lemmas == OneMore(Opened(t, bs).lemmas) && Opened(t, bs).strings <= a.strings && t.strings <= a.strings
    ensures LemmaEnd(a.lemmas, |a.lemmas|) == |bs|
    ensures forall i {:trigger LemmaShows(a, i, bs)} | 0 <= i < |a.lemmas| :: LemmaShows(a, i, bs)
  {
    hide LemmaShows;
    LastLemmaShows(t, a, bs);
    var n := |bs| - 1;
    assert bs == bs[..n] + [bs[n]];
    forall i | 0 <= i < |a.lemmas|
      ensures LemmaShows(a, i, bs)
    {
      if i < |a.lemmas| - 1 {
        assert t.lemmas[..i + 1] == a.lemmas[..i + 1];
        assert LemmaShows(t, i, bs[..n]);
        LemmaStays(t, a, i, bs[..n], bs[n]);
      }
    }
  }

  lemma BlocksShow(t: Tables, a: Tables, bs: seq<SourceBlock>)
    requires bs != [] && Shows(t, bs[..|bs| - 1]) && Grew(t, a)
    requires a.blocks == t.blocks + [BlockEntry(|t.records|, |bs[|bs| - 1].records|, 0)]
    requires |a.records| == |t.records| + |bs[|bs| - 1].records|
    requires RecordsShow(a, |t.records|, bs[|bs| - 1].records)
    ensures |a.blocks| == |bs| && BlockEnd(a.blocks, |bs|) == |a.records|
    ensures forall i {:trigger BlockShows(a, i, bs[i])} | 0 <= i < |bs| :: BlockShows(a, i, bs[i])
  {
    hide BlockShows, Grew, RecordsShow, LemmaShows;
    var n := |bs| - 1;
    LastBlockShows(t, a, bs[n]);
    forall i | 0 <= i < |bs|
      ensures BlockShows(a, i, bs[i])
    {
      if i < n {
        assert bs[..n][i] == bs[i] && BlockShows(t, i, bs[..n][i]);
        BlockStays(t, a, i, bs[i]);
      }
    }
  }

  lemma LastBlockShows(t: Tables, a: Tables, b: SourceBlock)
    requires a.blocks == t.blocks + [BlockEntry(|t.records|, |b.records|, 0)]
    requires |a.records| == |t.records| + |b.records| && RecordsShow(a, |t.records|, b.records)
    requires BlockEnd(t.blocks, |t.blocks|) == |t.records|
    ensures BlockShows(a, |t.blocks|, b) && BlockEnd(a.blocks, |t.blocks| + 1) == |a.records|
  {
    assert BlockEnd(a.blocks, |t.blocks|) == BlockEnd(t.blocks, |t.blocks|);
  }

  /** The layout's tables stand for the blocks they were made from. */
  lemma {:induction false} LayoutShows(bs: seq<SourceBlock>)
    requires Parsed(bs)
    ensures Shows(Layout(bs), bs)
    decreases |bs|
  {
    if bs == [] {
    } else {
      var n := |bs| - 1;
      LayoutShows(bs[..n]);
      var t := Layout(bs[..n]);
      OpenBlockGrew(t, bs);
      AddRecordsShows(OpenBlock(Opened(t, bs), bs[n]), bs[n].records);
      GrewOn(t, OpenBlock(Opened(t, bs), bs[n]), Layout(bs));
      BlocksShow(t, Layout(bs), bs);
      LemmasShow(t, Layout(bs), bs);
    }
  }

  // ----- the tables are canonical

  /** In sorted blocks a lemma does not come back once another has begun. */
  lemma LaterDiffers(bs: seq<SourceBlock>, i: nat, j: nat, k: nat)
    requires Sorted(bs) && i < j <= k < |bs| && StartsGroup(bs, j)
    ensures Compare(bs[i].lemma_, bs[k].lemma_) < 0
  {
    var a, b := bs[j - 1], bs[j];
    assert CompareBlocks(a, b) < 0;
    CompareEqual(a.lemma_, b.lemma_);
    if i < j - 1 {
      assert CompareBlocks(bs[i], a) < 0;
      CompareTransitive(bs[i].lemma_, a.lemma_, b.lemma_);
    }
    if j < k {
      assert CompareBlocks(b, bs[k]) < 0;
      CompareTransitive(bs[i].lemma_, b.lemma_, bs[k].lemma_);
    }
  }

  lemma StringIsOk(table: Bytes, at: nat, s: Bytes)
    requires StringAt(table, at, s) && s != []
    ensures StringOk(table, at) && CString(table, at) == s
  {
    CStringIs(table, at, s);
    assert table[at + |s|] == 0;
  }

  lemma LemmaIsOk(t: Tables, bs: seq<SourceBlock>, i: nat)
    requires Prepared(bs) && Shows(t, bs) && i < |t.lemmas|
    ensures LemmaOk(t, i)
  {
    assert LemmaShows(t, i, bs);
    var e := t.lemmas[i];
    StringIsOk(t.strings, e.key, bs[e.first].lemma_);
    if i > 0 {
      assert LemmaShows(t, i - 1, bs);
      var d := t.lemmas[i - 1];
      StringIsOk(t.strings, d.key, bs[d.first].lemma_);
      LaterDiffers(bs, d.first, e.first, e.first);
    }
  }

  lemma {:induction false} RecordsAreOk(t: Tables, bs: seq<SourceBlock>, n: nat)
    requires Parsed(bs) && Shows(t, bs) && n <= |bs|
    ensures forall r {:trigger RecordOk(t, r)} | 0 <= r < BlockEnd(t.blocks, n) && r < |t.records| :: RecordOk(t, r)
    decreases n
  {
    if n > 0 {
      RecordsAreOk(t, bs, n - 1);
      var b := bs[n - 1];
      assert BlockShows(t, n - 1, b);
      var first := t.blocks[n - 1].first;
      forall r | first <= r < first + |b.records|
        ensures RecordOk(t, r)
      {
        var j := r - first;
        assert RecordShows(t, first + j, b.records[j]) && RecordFit(b.records[j]);
        StringIsOk(t.strings, t.records[r].stem, b.records[j].stem);
        StringIsOk(t.strings, t.records[r].keys, b.records[j].keys);
      }
    }
  }

  /** Tables that stand for prepared blocks are canonical. */
  lemma ShownIsCanonical(t: Tables, bs: seq<SourceBlock>)
    requires Prepared(bs) && Shows(t, bs)
    ensures Canonical(t)
  {
    hide LemmaOk, RecordOk, LemmaShows, RecordsShow, Sorted;
    forall i: nat | i < |t.lemmas|
      ensures LemmaOk(t, i)
    {
      LemmaIsOk(t, bs, i);
    }
    forall i: nat | i < |t.blocks|
      ensures BlockOk(t, i)
    {
      assert BlockShows(t, i, bs[i]);
    }
    RecordsAreOk(t, bs, |bs|);
  }

  // ----- and complete

  lemma GroupIsAll(t: Tables, bs: seq<SourceBlock>, i: nat, k: nat)
    requires Prepared(bs) && Shows(t, bs) && i < |t.lemmas| && k < |bs|
    ensures LemmaShows(t, i, bs)
    ensures bs[k].lemma_ == bs[t.lemmas[i].first].lemma_ <==> t.lemmas[i].first <= k < t.lemmas[i].first + t.lemmas[i].count
  {
    assert LemmaShows(t, i, bs);
    var first, end := t.lemmas[i].first, t.lemmas[i].first + t.lemmas[i].count;
    CompareEqual(bs[first].lemma_, bs[k].lemma_);
    CompareEqual(bs[k].lemma_, bs[first].lemma_);
    if k < first {
      LaterDiffers(bs, k, first, first);
    } else if end <= k {
      assert i + 1 < |t.lemmas|;
      assert LemmaShows(t, i + 1, bs);
      LaterDiffers(bs, first, end, k);
    }
  }

  /** The record lists of some consecutive blocks. */
  function RangeLists(bs: seq<SourceBlock>, first: nat, count: nat): seq<seq<SourceRecord>>
    requires first + count <= |bs|
  {
    seq(count, j requires 0 <= j < count => bs[first + j].records)
  }

  lemma {:induction false} ListsInRange(bs: seq<SourceBlock>, key: Bytes, first: nat, end: nat, m: nat)
    requires first <= end <= |bs| && m <= |bs|
    requires forall k | 0 <= k < |bs| :: bs[k].lemma_ == key <==> first <= k < end
    ensures ListsFor(bs[..m], key) == RangeLists(bs, first, if m < first then 0 else if m < end then m - first else end - first)
    decreases m
  {
    if m > 0 {
      ListsInRange(bs, key, first, end, m - 1);
      assert bs[..m][..m - 1] == bs[..m - 1];
    }
  }

  /** A lemma entry's blocks carry exactly the record lists of its key, in order. */
  lemma EntryHasLists(t: Tables, bs: seq<SourceBlock>, i: nat, key: Bytes)
    requires Prepared(bs) && Shows(t, bs) && i < |t.lemmas|
    requires t.lemmas[i].key <= |t.strings| && CString(t.strings, t.lemmas[i].key) == key
    ensures t.lemmas[i].first + t.lemmas[i].count <= |bs|
    ensures ListsFor(bs, key) == RangeLists(bs, t.lemmas[i].first, t.lemmas[i].count)
  {
    assert LemmaShows(t, i, bs);
    CStringIs(t.strings, t.lemmas[i].key, bs[t.lemmas[i].first].lemma_);
    forall k | 0 <= k < |bs|
      ensures bs[k].lemma_ == key <==> t.lemmas[i].first <= k < t.lemmas[i].first + t.lemmas[i].count
    {
      GroupIsAll(t, bs, i, k);
    }
    ListsInRange(bs, key, t.lemmas[i].first, t.lemmas[i].first + t.lemmas[i].count, |bs|);
    assert bs[..|bs|] == bs;
  }

  lemma {:induction false} EntryOfBlock(t: Tables, bs: seq<SourceBlock>, k: nat, n: nat) returns (i: nat)
    requires Shows(t, bs) && k < |bs| && n <= |t.lemmas| && k < LemmaEnd(t.lemmas, n)
    ensures i < |t.lemmas| && LemmaShows(t, i, bs) && bs[k].lemma_ == bs[t.lemmas[i].first].lemma_
    decreases n
  {
    assert LemmaShows(t, n - 1, bs);
    if t.lemmas[n - 1].first <= k {
      i := n - 1;
    } else {
      i := EntryOfBlock(t, bs, k, n - 1);
    }
  }

  /** A key without an entry has no blocks. */
  lemma NoEntryNoLists(t: Tables, bs: seq<SourceBlock>, key: Bytes)
    requires Shows(t, bs)
    requires forall i | 0 <= i < |t.lemmas| && t.lemmas[i].key <= |t.strings| :: CString(t.strings, t.lemmas[i].key) != key
    ensures ListsFor(bs, key) == []
  {
    if ListsFor(bs, key) != [] {
      var rs := ListsFor(bs, key)[0];
      ListsContain(bs, key, rs);
      var k :| 0 <= k < |bs| && bs[k].lemma_ == key && bs[k].records == rs;
      var i := EntryOfBlock(t, bs, k, |t.lemmas|);
      CStringIs(t.strings, t.lemmas[i].key, key);
      assert false;
    }
  }

  // ----- the layout of a prefix

  lemma {:induction false} AddRecordsGrew(t: Tables, rs: seq<SourceRecord>)
    ensures var a := AddRecords(t, rs);
      Grew(t, a) && a.lemmas == t.lemmas && a.blocks == t.blocks && |a.records| == |t.records| + |rs|
    decreases |rs|
  {
    if rs == [] {
    } else {
      var n := |rs| - 1;
      AddRecordsGrew(t, rs[..n]);
      var a := AddRecords(t, rs[..n]);
      assert AddRecord(a, rs[n]).strings == a.strings + (rs[n].stem + [0] + rs[n].keys + [0]);
      GrewOn(t, a, AddRecord(a, rs[n]));
    }
  }

  lemma {:induction false} AddRecordsElsewhere(t: Tables, ls: seq<LemmaEntry>, rs: seq<SourceRecord>)
    ensures AddRecords(t.(lemmas := ls), rs) == AddRecords(t, rs).(lemmas := ls)
    decreases |rs|
  {
    if rs != [] {
      AddRecordsElsewhere(t, ls, rs[..|rs| - 1]);
    }
  }

  lemma LayoutStep(bs: seq<SourceBlock>, k: nat)
    requires k < |bs|
    ensures Layout(bs[..k + 1]) == AddBlock(Layout(bs[..k]), StartsGroup(bs, k), bs[k])
    ensures |Layout(bs[..k + 1]).blocks| == |Layout(bs[..k]).blocks| + 1
    ensures |Layout(bs[..k + 1]).records| == |Layout(bs[..k]).records| + |bs[k].records|
    ensures Grew(Layout(bs[..k]), Layout(bs[..k + 1]))
    ensures var t := Layout(bs[..k]);
      Layout(bs[..k + 1]).lemmas ==
        if StartsGroup(bs, k) then t.lemmas + [LemmaEntry(|t.strings|, |t.blocks|, 1, 0)] else OneMore(t.lemmas)
  {
    var front := bs[..k + 1];
    assert front[..k] == bs[..k];
    var t := Layout(bs[..k]);
    OpenBlockGrew(t, front);
    AddRecordsGrew(OpenBlock(Opened(t, front), bs[k]), bs[k].records);
    GrewOn(t, OpenBlock(Opened(t, front), bs[k]), Layout(front));
  }

  lemma NoLayout(bs: seq<SourceBlock>)
    ensures Layout(bs[..0]) == Tables([], [], [], [])
  {
  }

  lemma {:induction false} LayoutBlocks(bs: seq<SourceBlock>, k: nat)
    requires k <= |bs|
    ensures |Layout(bs[..k]).blocks| == k
    decreases k
  {
    hide Layout, AddBlock, Grew, OneMore;
    if k == 0 {
      NoLayout(bs);
    } else {
      LayoutStep(bs, k - 1);
      LayoutBlocks(bs, k - 1);
    }
  }

  /** No area of the layout shrinks. */
  ghost predicate Within(s: Tables, t: Tables) {
    Grew(s, t) && |s.lemmas| <= |t.lemmas|
  }

  lemma LayoutStepWithin(bs: seq<SourceBlock>, k: nat)
    requires k < |bs|
    ensures Within(Layout(bs[..k]), Layout(bs[..k + 1]))
  {
    hide Layout, AddBlock, Grew;
    LayoutStep(bs, k);
  }

  lemma WithinOn(s: Tables, t: Tables, u: Tables)
    requires Within(s, t) && Within(t, u)
    ensures Within(s, u)
  {
  }

  lemma {:induction false} LayoutGrew(bs: seq<SourceBlock>, j: nat, k: nat)
    requires j <= k <= |bs|
    ensures Within(Layout(bs[..j]), Layout(bs[..k]))
    decreases k
  {
    hide Layout;
    if j < k {
      LayoutGrew(bs, j, k - 1);
      LayoutStepWithin(bs, k - 1);
      WithinOn(Layout(bs[..j]), Layout(bs[..k - 1]), Layout(bs[..k]));
    }
  }

  /** The tables while write_index is at block current of a group: the lemma entry already has
      its final count. */
  function InGroup(bs: seq<SourceBlock>, block: nat, end: nat, current: nat): Tables
    requires block <= current <= end <= |bs| && block < |bs|
  {
    var t := Layout(bs[..block]);
    (if current == block then OpenGroup(t, bs[block].lemma_) else Layout(bs[..current]))
      .(lemmas := t.lemmas + [LemmaEntry(|t.strings|, |t.blocks|, end - block, 0)])
  }

  /** A group: no later block of it starts another. */
  ghost predicate Group(bs: seq<SourceBlock>, block: nat, end: nat) {
    && block < end <= |bs| && StartsGroup(bs, block)
    && forall k {:trigger StartsGroup(bs, k)} | block < k < end :: !StartsGroup(bs, k)
  }

  lemma {:induction false} GroupEntry(bs: seq<SourceBlock>, block: nat, end: nat, k: nat)
    requires Group(bs, block, end) && block < k <= end
    ensures var t := Layout(bs[..block]);
      Layout(bs[..k]).lemmas == t.lemmas + [LemmaEntry(|t.strings|, |t.blocks|, k - block, 0)]
    decreases k
  {
    hide Layout, AddBlock, Grew, OneMore;
    LayoutStep(bs, k - 1);
    if block < k - 1 {
      GroupEntry(bs, block, end, k - 1);
      var t := Layout(bs[..block]);
      OneMoreLast(t.lemmas, LemmaEntry(|t.strings|, |t.blocks|, k - 1 - block, 0));
    }
  }

  lemma OneMoreLast(es: seq<LemmaEntry>, e: LemmaEntry)
    ensures OneMore(es + [e]) == es + [e.(count := e.count + 1)]
  {
  }

  lemma InGroupStep(bs: seq<SourceBlock>, block: nat, end: nat, current: nat)
    requires Group(bs, block, end) && block <= current < end
    ensures var t, b := InGroup(bs, block, end, current), bs[current];
      InGroup(bs, block, end, current + 1) ==
        AddRecords(t.(blocks := t.blocks + [BlockEntry(|t.records|, |b.records|, 0)]), b.records)
  {
    LayoutStep(bs, current);
    var t, b := InGroup(bs, block, end, current), bs[current];
    var u := if current == block then OpenGroup(Layout(bs[..block]), bs[block].lemma_) else Layout(bs[..current]);
    AddRecordsElsewhere(OpenBlock(u, b), t.lemmas, b.records);
  }

  lemma InGroupEnd(bs: seq<SourceBlock>, block: nat, end: nat)
    requires Group(bs, block, end)
    ensures InGroup(bs, block, end, end) == Layout(bs[..end])
  {
    GroupEntry(bs, block, end, end);
  }
}
