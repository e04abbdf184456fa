/** The source blocks of tools/gener-index-builder.c and the passes over them that precede the
    layout: discarding empty blocks, sorting, discarding duplicates. */
module GenerBlocks {
  import opened ByteStrings
  import Sorting

  datatype SourceRecord = SourceRecord(kind: nat, stem: Bytes, keys: Bytes)

  datatype SourceBlock = SourceBlock(lemma_: Bytes, ordinal: nat, records: seq<SourceRecord>)

  // ----- the specification

  /** The record lists entered for a lemma, in order. */
  function ListsFor(bs: seq<SourceBlock>, key: Bytes): seq<seq<SourceRecord>> {
    if bs == [] then []
    else ListsFor(bs[..|bs| - 1], key) +
         if bs[|bs| - 1].lemma_ == key then [bs[|bs| - 1].records] else []
  }

  /** The blocks of a lemma, in order. */
  function BlocksOf(bs: seq<SourceBlock>, key: Bytes): seq<SourceBlock> {
    if bs == [] then []
    else BlocksOf(bs[..|bs| - 1], key) + if bs[|bs| - 1].lemma_ == key then [bs[|bs| - 1]] else []
  }

  function NonEmpty(bs: seq<SourceBlock>): seq<SourceBlock> {
    if bs == [] then []
    else NonEmpty(bs[..|bs| - 1]) + if bs[|bs| - 1].records == [] then [] else [bs[|bs| - 1]]
  }

  /** The first copy of each list. */
  function Dedup<T(==)>(ls: seq<T>): seq<T> {
    if ls == [] then []
    else Dedup(ls[..|ls| - 1]) + if ls[|ls| - 1] in ls[..|ls| - 1] then [] else [ls[|ls| - 1]]
  }

  lemma {:induction false} DedupKeeps<T>(ls: seq<T>)
    ensures forall x :: x in Dedup(ls) <==> x in ls
    ensures forall i, j | 0 <= i < j < |Dedup(ls)| :: Dedup(ls)[i] != Dedup(ls)[j]
    decreases |ls|
  {
    if ls != [] {
      DedupKeeps(ls[..|ls| - 1]);
      assert ls == ls[..|ls| - 1] + [ls[|ls| - 1]];
    }
  }

  // compare_blocks
  function CompareBlocks(a: SourceBlock, b: SourceBlock): int {
    var order := Compare(a.lemma_, b.lemma_);
    if order != 0 then order
    else if a.ordinal < b.ordinal then -1 else if a.ordinal != b.ordinal then 1 else 0
  }

  ghost predicate Sorted(bs: seq<SourceBlock>) {
    forall i, j | 0 <= i < j < |bs| :: CompareBlocks(bs[i], bs[j]) < 0
  }

  /** Blocks carry the ordinals of their source order. */
  ghost predicate InSourceOrder(bs: seq<SourceBlock>) {
    forall i, j | 0 <= i < j < |bs| :: bs[i].ordinal < bs[j].ordinal
  }

  lemma CompareBlocksAntisymmetric(a: SourceBlock, b: SourceBlock)
    ensures CompareBlocks(a, b) == -CompareBlocks(b, a)
  {
    CompareAntisymmetric(a.lemma_, b.lemma_);
  }

  lemma CompareBlocksTransitive(a: SourceBlock, b: SourceBlock, c: SourceBlock)
    requires CompareBlocks(a, b) < 0 && CompareBlocks(b, c) < 0
    ensures CompareBlocks(a, c) < 0
  {
    CompareTransitive(a.lemma_, b.lemma_, c.lemma_);
    CompareEqual(a.lemma_, b.lemma_);
    CompareEqual(b.lemma_, c.lemma_);
    CompareEqual(a.lemma_, c.lemma_);
  }

  lemma CompareBlocksTotal(a: SourceBlock, b: SourceBlock)
    ensures CompareBlocks(a, b) == 0 <==> a.lemma_ == b.lemma_ && a.ordinal == b.ordinal
  {
    CompareEqual(a.lemma_, b.lemma_);
  }

  // ----- sorting

  lemma {:induction false} CountBlocksOf(bs: seq<SourceBlock>, key: Bytes, x: SourceBlock)
    ensures multiset(BlocksOf(bs, key))[x] == if x.lemma_ == key then multiset(bs)[x] else 0
    decreases |bs|
  {
    if bs != [] {
      CountBlocksOf(bs[..|bs| - 1], key, x);
      assert bs == bs[..|bs| - 1] + [bs[|bs| - 1]];
    }
  }

  lemma {:induction false} BlocksOfFrom(bs: seq<SourceBlock>, key: Bytes)
    ensures forall x | x in BlocksOf(bs, key) :: x in bs && x.lemma_ == key
    decreases |bs|
  {
    if bs != [] {
      BlocksOfFrom(bs[..|bs| - 1], key);
    }
  }

  /** The blocks of a lemma stand in source order. */
  lemma LastIsLatest(bs: seq<SourceBlock>, k: nat)
    requires bs != [] && (Sorted(bs) || InSourceOrder(bs))
    requires k < |bs| - 1 && bs[k].lemma_ == bs[|bs| - 1].lemma_
    ensures bs[k].ordinal < bs[|bs| - 1].ordinal
  {
    CompareEqual(bs[k].lemma_, bs[|bs| - 1].lemma_);
  }

  lemma OrderedFront(bs: seq<SourceBlock>)
    requires bs != [] && (Sorted(bs) || InSourceOrder(bs))
    ensures Sorted(bs[..|bs| - 1]) || InSourceOrder(bs[..|bs| - 1])
  {
    hide CompareBlocks;
  }

  lemma {:induction false} BlocksOfOrdered(bs: seq<SourceBlock>, key: Bytes)
    requires Sorted(bs) || InSourceOrder(bs)
    ensures InSourceOrder(BlocksOf(bs, key))
    decreases |bs|
  {
    hide Sorted;
    if bs != [] {
      var front, last := bs[..|bs| - 1], bs[|bs| - 1];
      OrderedFront(bs);
      BlocksOfOrdered(front, key);
      BlocksOfFrom(front, key);
      var kept := BlocksOf(front, key);
      if last.lemma_ == key {
        forall i | 0 <= i < |kept|
          ensures kept[i].ordinal < last.ordinal
        {
          assert kept[i] in front;
          var k :| 0 <= k < |front| && front[k] == kept[i];
          LastIsLatest(bs, k);
        }
      }
    }
  }

  /** Two lists in source order with the same blocks are the same list. */
  lemma {:induction false} OrderedUnique(a: seq<SourceBlock>, b: seq<SourceBlock>)
    requires InSourceOrder(a) && InSourceOrder(b) && multiset(a) == multiset(b)
    ensures a == b
    decreases |a|
  {
    if a == [] {
      assert |multiset(b)| == 0;
    } else {
      Sorting.SameMembers(a, b);
      var x, y := a[|a| - 1], b[|b| - 1];
      assert x in a && y in b;
      var k :| 0 <= k < |b| && b[k] == x;
      var m :| 0 <= m < |a| && a[m] == y;
      assert x == y;
      Sorting.DropLast(a, b);
      OrderedUnique(a[..|a| - 1], b[..|b| - 1]);
    }
  }

  lemma {:induction false} ListsOfBlocks(bs: seq<SourceBlock>, key: Bytes)
    ensures |ListsFor(bs, key)| == |BlocksOf(bs, key)|
    ensures forall i | 0 <= i < |ListsFor(bs, key)| :: ListsFor(bs, key)[i] == BlocksOf(bs, key)[i].records
    decreases |bs|
  {
    if bs != [] {
      ListsOfBlocks(bs[..|bs| - 1], key);
    }
  }

  /** Whatever sort routine puts the blocks in order, each lemma keeps its lists in source
      order. */
  lemma SortKeepsLists(bs: seq<SourceBlock>, s: seq<SourceBlock>, key: Bytes)
    requires InSourceOrder(bs) && Sorted(s) && multiset(s) == multiset(bs)
    ensures ListsFor(s, key) == ListsFor(bs, key)
  {
    var a, b := BlocksOf(s, key), BlocksOf(bs, key);
    BlocksOfOrdered(s, key);
    BlocksOfOrdered(bs, key);
    forall x
      ensures multiset(a)[x] == multiset(b)[x]
    {
      CountBlocksOf(s, key, x);
      CountBlocksOf(bs, key, x);
    }
    assert multiset(a) == multiset(b);
    OrderedUnique(a, b);
    ListsOfBlocks(s, key);
    ListsOfBlocks(bs, key);
    assert ListsFor(s, key) == ListsFor(bs, key);
  }

  const BY_LEMMA := (a: SourceBlock, b: SourceBlock) => CompareBlocks(a, b)

  lemma ByLemmaCompares()
    ensures Sorting.Comparator(BY_LEMMA)
  {
    hide CompareBlocks;
    forall a, b
      ensures BY_LEMMA(a, b) < 0 <==> BY_LEMMA(b, a) > 0
    {
      CompareBlocksAntisymmetric(a, b);
    }
    forall a, b, c | BY_LEMMA(a, b) < 0 && BY_LEMMA(b, c) < 0
      ensures BY_LEMMA(a, c) < 0
    {
      CompareBlocksTransitive(a, b, c);
    }
  }

  /** qsort with compare_blocks: ordinals leave no ties, so every sort routine gives this
      list. */
  method SortBlocks(bs: seq<SourceBlock>) returns (s: seq<SourceBlock>)
    requires InSourceOrder(bs)
    ensures Sorted(s) && multiset(s) == multiset(bs)
    ensures forall r | Sorted(r) && multiset(r) == multiset(bs) :: r == s
  {
    hide Sorting.Comparator, Sorting.NoTies, InSourceOrder, CompareBlocks;
    ByLemmaCompares();
    NoBlockTies(bs);
    s := Sorting.QSort(BY_LEMMA, bs);
    forall r | Sorted(r) && multiset(r) == multiset(bs)
      ensures r == s
    {
      Sorting.SortUnique(BY_LEMMA, r, s);
    }
  }

  lemma NoBlockTies(bs: seq<SourceBlock>)
    requires InSourceOrder(bs)
    ensures Sorting.NoTies(BY_LEMMA, bs)
  {
    forall i, j | 0 <= i < j < |bs|
      ensures BY_LEMMA(bs[i], bs[j]) != 0
    {
      CompareBlocksTotal(bs[i], bs[j]);
    }
  }

  // ----- the passes in place

  /** discard_empty_blocks */
  method DiscardEmpty(blocks: array<SourceBlock>) returns (count: nat)
    modifies blocks
    ensures count <= blocks.Length && blocks[..count] == NonEmpty(old(blocks[..]))
  {
    ghost var was := blocks[..];
    count := 0;
    var input := 0;
    while input != blocks.Length
      invariant 0 <= count <= input <= blocks.Length
      invariant blocks[..count] == NonEmpty(was[..input])
      invariant blocks[input..] == was[input..]
    {
      assert was[..input + 1][..input] == was[..input];
      assert blocks[input] == was[input..][0];
      if blocks[input].records != [] {
        if count != input {
          blocks[count] := blocks[input];
        }
        count := count + 1;
      }
      assert blocks[input + 1..] == was[input + 1..] by {
        assert was[input + 1..] == was[input..][1..];
      }
      input := input + 1;
    }
    assert was[..input] == was;
  }

  // same_block
  predicate SameBlock(a: SourceBlock, b: SourceBlock) {
    a.lemma_ == b.lemma_ && a.records == b.records
  }

  /** The blocks kept so far and what they stand for. */
  ghost predicate Kept(out: seq<SourceBlock>, done: seq<SourceBlock>) {
    && (forall key :: ListsFor(out, key) == Dedup(ListsFor(done, key)))
    && (forall k | 0 <= k < |out| :: out[k] in done)
    && (forall k | 0 <= k < |out| :: FirstCopy(out[k], done))
  }

  /** No copy of the block has a lower ordinal. */
  ghost predicate FirstCopy(b: SourceBlock, done: seq<SourceBlock>) {
    forall j | 0 <= j < |done| && SameBlock(done[j], b) :: b.ordinal <= done[j].ordinal
  }

  lemma {:induction false} ListsContain(bs: seq<SourceBlock>, key: Bytes, rs: seq<SourceRecord>)
    ensures rs in ListsFor(bs, key) <==> exists k :: 0 <= k < |bs| && bs[k].lemma_ == key && bs[k].records == rs
    decreases |bs|
  {
    if bs != [] {
      var n := |bs| - 1;
      ListsContain(bs[..n], key, rs);
      if exists k :: 0 <= k < |bs| && bs[k].lemma_ == key && bs[k].records == rs {
        var k :| 0 <= k < |bs| && bs[k].lemma_ == key && bs[k].records == rs;
        if k < n {
          assert bs[..n][k] == bs[k];
        }
      }
      if rs in ListsFor(bs[..n], key) {
        var k :| 0 <= k < n && bs[..n][k].lemma_ == key && bs[..n][k].records == rs;
        assert bs[k].lemma_ == key && bs[k].records == rs;
      }
    }
  }

  /** Dropping a block whose list is there already, or keeping one whose list is new. */
  lemma KeptStep(out: seq<SourceBlock>, done: seq<SourceBlock>, b: SourceBlock, duplicate: bool)
    requires Kept(out, done) && Sorted(out + [b])
    requires duplicate <==> exists k :: 0 <= k < |out| && SameBlock(out[k], b)
    ensures Kept(if duplicate then out else out + [b], done + [b])
  {
    var out' := if duplicate then out else out + [b];
    KeptLists(out, done, b, duplicate);
    assert forall k | 0 <= k < |out'| :: out'[k] == b || (k < |out| && out'[k] == out[k]);
    assert forall x | x in done :: x in done + [b];
    assert (done + [b])[|done|] == b;
    forall k | 0 <= k < |out'|
      ensures FirstCopy(out'[k], done + [b])
    {
      if k < |out| {
        OldCopy(out, done, b, k);
      } else {
        NewCopy(out, done, b);
      }
    }
  }

  lemma OldCopy(out: seq<SourceBlock>, done: seq<SourceBlock>, b: SourceBlock, k: nat)
    requires k < |out| && FirstCopy(out[k], done) && Sorted(out + [b])
    ensures FirstCopy(out[k], done + [b])
  {
    var all := out + [b];
    assert all[k] == out[k] && all[|out|] == b && CompareBlocks(all[k], all[|out|]) < 0;
    CompareEqual(out[k].lemma_, b.lemma_);
  }

  lemma NewCopy(out: seq<SourceBlock>, done: seq<SourceBlock>, b: SourceBlock)
    requires Kept(out, done) && !exists k :: 0 <= k < |out| && SameBlock(out[k], b)
    ensures FirstCopy(b, done + [b])
  {
    hide ListsFor, Dedup;
    ListsContain(done, b.lemma_, b.records);
    ListsContain(out, b.lemma_, b.records);
    assert ListsFor(out, b.lemma_) == Dedup(ListsFor(done, b.lemma_));
    DedupKeeps(ListsFor(done, b.lemma_));
    assert forall k | 0 <= k < |out| :: !SameBlock(out[k], b);
    forall j | 0 <= j < |done|
      ensures !SameBlock(done[j], b)
    {
    }
  }

  lemma KeptLists(out: seq<SourceBlock>, done: seq<SourceBlock>, b: SourceBlock, duplicate: bool)
    requires Kept(out, done)
    requires duplicate <==> exists k :: 0 <= k < |out| && SameBlock(out[k], b)
    ensures forall key :: ListsFor(if duplicate then out else out + [b], key) == Dedup(ListsFor(done + [b], key))
  {
    var out' := if duplicate then out else out + [b];
    var done' := done + [b];
    assert done'[..|done|] == done;
    assert (out + [b])[..|out|] == out;
    forall key
      ensures ListsFor(out', key) == Dedup(ListsFor(done', key))
    {
      assert ListsFor(out, key) == Dedup(ListsFor(done, key));
      if b.lemma_ == key {
        KeptList(out, ListsFor(done, key), b, duplicate);
      } else {
        assert ListsFor(done', key) == ListsFor(done, key);
        assert ListsFor(out', key) == ListsFor(out, key);
      }
    }
  }

  lemma KeptList(out: seq<SourceBlock>, ls: seq<seq<SourceRecord>>, b: SourceBlock, duplicate: bool)
    requires ListsFor(out, b.lemma_) == Dedup(ls)
    requires duplicate <==> exists k :: 0 <= k < |out| && SameBlock(out[k], b)
    ensures Dedup(ls + [b.records]) == ListsFor(if duplicate then out else out + [b], b.lemma_)
  {
    assert (ls + [b.records])[..|ls|] == ls;
    assert (out + [b])[..|out|] == out;
    DedupKeeps(ls);
    ListsContain(out, b.lemma_, b.records);
    if duplicate {
      var k :| 0 <= k < |out| && SameBlock(out[k], b);
      assert b.records in ls;
    } else {
      forall k | 0 <= k < |out|
        ensures !(out[k].lemma_ == b.lemma_ && out[k].records == b.records)
      {
        assert !SameBlock(out[k], b);
      }
      assert b.records !in ls;
    }
  }

  /** The backward scan of discard_duplicate_blocks stops at the first block of another lemma;
      in a sorted list that is far enough. */
  lemma ScanReaches(out: seq<SourceBlock>, b: SourceBlock, previous: nat)
    requires Sorted(out + [b]) && previous <= |out|
    requires previous == 0 || out[previous - 1].lemma_ != b.lemma_
    ensures forall k | 0 <= k < previous :: out[k].lemma_ != b.lemma_
  {
    forall k | 0 <= k < previous
      ensures out[k].lemma_ != b.lemma_
    {
      var all, last := out + [b], out[previous - 1];
      assert all[k] == out[k] && all[previous - 1] == last && all[|out|] == b;
      assert CompareBlocks(last, b) < 0;
      CompareEqual(last.lemma_, b.lemma_);
      CompareEqual(out[k].lemma_, last.lemma_);
      CompareEqual(out[k].lemma_, b.lemma_);
      if k < previous - 1 {
        assert CompareBlocks(out[k], last) < 0;
        CompareTransitive(out[k].lemma_, last.lemma_, b.lemma_);
      }
    }
  }

  lemma SortedPart(out: seq<SourceBlock>, b: SourceBlock, rest: seq<SourceBlock>)
    requires Sorted(out + ([b] + rest))
    ensures Sorted(out + [b]) && Sorted(out + rest) && Sorted((out + [b]) + rest)
  {
    var all := out + ([b] + rest);
    assert (out + [b]) + rest == all;
    forall i, j | 0 <= i < j < |out + [b]|
      ensures CompareBlocks((out + [b])[i], (out + [b])[j]) < 0
    {
      assert (out + [b])[i] == all[i] && (out + [b])[j] == all[j];
    }
    forall i, j | 0 <= i < j < |out + rest|
      ensures CompareBlocks((out + rest)[i], (out + rest)[j]) < 0
    {
      var i' := if i < |out| then i else i + 1;
      var j' := if j < |out| then j else j + 1;
      assert (out + rest)[i] == all[i'] && (out + rest)[j] == all[j'];
    }
  }

  lemma KeptNothing()
    ensures Kept([], [])
  {
  }

  /** What discard_duplicate_blocks has done with the first blocks. */
  ghost predicate Progress(out: seq<SourceBlock>, was: seq<SourceBlock>, input: nat) {
    input <= |was| && Sorted(out + was[input..]) && Kept(out, was[..input])
  }

  lemma ProgressStart(was: seq<SourceBlock>)
    requires Sorted(was)
    ensures Progress([], was, 0)
  {
    KeptNothing();
    assert was[..0] == [] && [] + was[0..] == was;
  }

  lemma ProgressNext(out: seq<SourceBlock>, was: seq<SourceBlock>, input: nat)
    requires input < |was| && Progress(out, was, input)
    ensures Sorted(out + [was[input]])
    ensures (exists k :: 0 <= k < |out| && SameBlock(out[k], was[input])) ==> Progress(out, was, input + 1)
    ensures !(exists k :: 0 <= k < |out| && SameBlock(out[k], was[input])) ==>
              Progress(out + [was[input]], was, input + 1)
  {
    assert was[input..] == [was[input]] + was[input + 1..];
    assert was[..input + 1] == was[..input] + [was[input]];
    SortedPart(out, was[input], was[input + 1..]);
    KeptStep(out, was[..input], was[input], exists k :: 0 <= k < |out| && SameBlock(out[k], was[input]));
  }

  lemma ProgressEnd(out: seq<SourceBlock>, was: seq<SourceBlock>)
    requires Progress(out, was, |was|)
    ensures Sorted(out) && Kept(out, was)
  {
    assert was[..|was|] == was && out + was[|was|..] == out;
  }

  /** discard_duplicate_blocks */
  method DiscardDuplicates(blocks: array<SourceBlock>, n: nat) returns (output: nat)
    requires n <= blocks.Length && Sorted(blocks[..n])
    modifies blocks
    ensures output <= n && Sorted(blocks[..output]) && Kept(blocks[..output], old(blocks[..n]))
  {
    hide Kept, Sorted, SameBlock, Progress;
    ghost var was, out := blocks[..n], [];
    output := 0;
    var input := 0;
    ProgressStart(was);
    while input != n
      invariant 0 <= output <= input <= n && |out| == output
      invariant forall k | 0 <= k < output :: blocks[k] == out[k]
      invariant forall k | input <= k < n :: blocks[k] == was[k]
      invariant Progress(out, was, input)
    {
      ProgressNext(out, was, input);
      var duplicate := IsDuplicate(blocks, output, input, out);
      if !duplicate {
        if output != input {
          MoveDown(blocks, output, input);
        }
        out := out + [was[input]];
        output := output + 1;
      }
      input := input + 1;
    }
    ProgressEnd(out, was);
    assert blocks[..output] == out;
  }

  /** The block moves and leaves an empty one. */
  method MoveDown(blocks: array<SourceBlock>, output: nat, input: nat)
    requires output < input < blocks.Length
    modifies blocks
    ensures blocks[output] == old(blocks[input])
    ensures forall k | 0 <= k < blocks.Length && k != output && k != input :: blocks[k] == old(blocks[k])
  {
    blocks[output] := blocks[input];
    blocks[input] := SourceBlock([], 0, []);
  }

  method IsDuplicate(blocks: array<SourceBlock>, output: nat, input: nat, ghost out: seq<SourceBlock>)
    returns (duplicate: bool)
    requires output <= input < blocks.Length && |out| == output && Sorted(out + [blocks[input]])
    requires forall k | 0 <= k < output :: blocks[k] == out[k]
    ensures duplicate <==> exists k :: 0 <= k < |out| && SameBlock(out[k], blocks[input])
  {
    var previous := output;
    while previous != 0
      invariant 0 <= previous <= output
      invariant forall k | previous <= k < output :: !SameBlock(out[k], blocks[input])
    {
      if blocks[previous - 1].lemma_ != blocks[input].lemma_ {
        ScanReaches(out, blocks[input], previous);
        return false;
      }
      if SameBlock(blocks[previous - 1], blocks[input]) {
        assert SameBlock(out[previous - 1], blocks[input]);
        return true;
      }
      previous := previous - 1;
    }
    return false;
  }

  /** Only blocks with records are left, in the order they had. */
  lemma {:induction false} NonEmptyKeeps(bs: seq<SourceBlock>)
    ensures forall i {:trigger NonEmpty(bs)[i]} | 0 <= i < |NonEmpty(bs)| :: NonEmpty(bs)[i] in bs && NonEmpty(bs)[i].records != []
    ensures InSourceOrder(bs) ==> InSourceOrder(NonEmpty(bs))
    decreases |bs|
  {
    if bs != [] {
      var front, last := bs[..|bs| - 1], bs[|bs| - 1];
      NonEmptyKeeps(front);
      var kept := NonEmpty(front);
      if InSourceOrder(bs) && last.records != [] {
        forall i | 0 <= i < |kept|
          ensures kept[i].ordinal < last.ordinal
        {
          var k :| 0 <= k < |front| && front[k] == kept[i];
          assert bs[k] == kept[i];
        }
      }
    }
  }
}
