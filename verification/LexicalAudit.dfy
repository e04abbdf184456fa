/** tools/audit-stemlib-lexical.py: the split of a lexical input into lemma records and the
    bisection that isolates the failing ones. */
module LexicalAudit {
  import opened ByteStrings
  import GenerParse

  const CR: Byte := 13

  // ----- bytes.splitlines(keepends=True)

  /** The end of the first line: after LF, CR or CR LF. */
  function LineEnd(s: Bytes, k: nat): (n: nat)
    requires k < |s|
    ensures k < n <= |s|
    decreases |s| - k
  {
    if s[k] == GenerParse.LF then k + 1
    else if s[k] == CR then if k + 1 < |s| && s[k + 1] == GenerParse.LF then k + 2 else k + 1
    else if k + 1 == |s| then k + 1
    else LineEnd(s, k + 1)
  }

  function SplitLines(s: Bytes): seq<Bytes> {
    if s == [] then [] else [s[..LineEnd(s, 0)]] + SplitLines(s[LineEnd(s, 0)..])
  }

  function Join(parts: seq<Bytes>): Bytes {
    if parts == [] then [] else parts[0] + Join(parts[1..])
  }

  lemma {:induction false} JoinAppend(a: seq<Bytes>, b: seq<Bytes>)
    ensures Join(a + b) == Join(a) + Join(b)
    decreases |a|
  {
    if a == [] {
      assert a + b == b;
    } else {
      JoinAppend(a[1..], b);
      assert (a + b)[1..] == a[1..] + b;
    }
  }

  lemma {:induction false} JoinLines(s: Bytes)
    ensures Join(SplitLines(s)) == s
    decreases |s|
  {
    if s != [] {
      JoinLines(s[LineEnd(s, 0)..]);
      assert SplitLines(s)[1..] == SplitLines(s[LineEnd(s, 0)..]);
    }
  }

  lemma {:induction false} LineEndOfPrefix(s: Bytes, t: Bytes, k: nat)
    requires t <= s && k < |t| && LineEnd(s, k) <= |t|
    ensures LineEnd(t, k) == LineEnd(s, k)
    decreases |s| - k
  {
    if s[k] != GenerParse.LF && s[k] != CR && k + 1 < |s| {
      LineEndOfPrefix(s, t, k + 1);
    }
  }

  lemma SplitCons(line: Bytes, tail: Bytes)
    requires line != [] && LineEnd(line + tail, 0) == |line|
    ensures SplitLines(line + tail) == [line] + SplitLines(tail)
  {
    assert (line + tail)[..|line|] == line && (line + tail)[|line|..] == tail;
  }

  lemma JoinCons(line: Bytes, lines: seq<Bytes>)
    ensures Join([line] + lines) == line + Join(lines)
  {
    assert ([line] + lines)[1..] == lines;
  }

  lemma PrefixAfter(a: Bytes, b: Bytes, c: Bytes)
    requires b <= c
    ensures a + b <= a + c
  {
  }

  /** Lines put together again split into the same lines. */
  lemma {:induction false} SplitAgain(s: Bytes, n: nat)
    requires n <= |SplitLines(s)|
    ensures Join(SplitLines(s)[..n]) <= s
    ensures SplitLines(Join(SplitLines(s)[..n])) == SplitLines(s)[..n]
    decreases n
  {
    hide LineEnd;
    if n > 0 {
      var e := LineEnd(s, 0);
      var line, rest := s[..e], s[e..];
      assert SplitLines(s) == [line] + SplitLines(rest);
      SplitAgain(rest, n - 1);
      var front := SplitLines(rest)[..n - 1];
      assert SplitLines(s)[..n] == [line] + front;
      JoinCons(line, front);
      assert s == line + rest;
      PrefixAfter(line, Join(front), rest);
      LineEndOfPrefix(s, line + Join(front), 0);
      SplitCons(line, Join(front));
    }
  }

  lemma {:induction false} SplitSuffix(s: Bytes, n: nat)
    requires n <= |SplitLines(s)|
    ensures SplitLines(Join(SplitLines(s)[n..])) == SplitLines(s)[n..]
    decreases n
  {
    JoinLines(s);
    if n > 0 {
      var rest := s[LineEnd(s, 0)..];
      SplitSuffix(rest, n - 1);
      assert SplitLines(s)[n..] == SplitLines(rest)[n - 1..];
    }
  }

  /** One line: CR, LF or CR LF stand at its end only. */
  ghost predicate OneLine(l: Bytes) {
    && l != []
    && (forall k | 0 <= k < |l| - 1 :: l[k] != 10 && (l[k] == 13 ==> k == |l| - 2 && l[k + 1] == 10))
  }

  /** The line ends before these bytes: they do not go on with the LF of a CR LF. */
  ghost predicate Ends(l: Bytes, rest: Bytes) {
    && (rest != [] ==> l != [] && (l[|l| - 1] == 10 || (l[|l| - 1] == 13 && rest[0] != 10)))
  }

  lemma {:induction false} LineEndIs(s: Bytes, k: nat)
    requires k < |s| && forall i | 0 <= i < k :: s[i] != 10 && s[i] != 13
    ensures OneLine(s[..LineEnd(s, k)]) && Ends(s[..LineEnd(s, k)], s[LineEnd(s, k)..])
    decreases |s| - k
  {
    if s[k] != 10 && s[k] != 13 && k + 1 < |s| {
      LineEndIs(s, k + 1);
    }
  }

  /** The lines are those of the input, and each is one. */
  lemma {:induction false} LinesAre(s: Bytes)
    ensures forall i | 0 <= i < |SplitLines(s)| ::
              OneLine(SplitLines(s)[i]) && Ends(SplitLines(s)[i], Join(SplitLines(s)[i + 1..]))
    decreases |s|
  {
    hide LineEnd, OneLine, Ends, Join;
    if s != [] {
      var e := LineEnd(s, 0);
      LineEndIs(s, 0);
      LinesAre(s[e..]);
      JoinLines(s[e..]);
      var all, rest := SplitLines(s), SplitLines(s[e..]);
      assert all == [s[..e]] + rest;
      forall i | 0 <= i < |all|
        ensures OneLine(all[i]) && Ends(all[i], Join(all[i + 1..]))
      {
        assert all[i + 1..] == rest[i..];
        if i > 0 {
          assert all[i] == rest[i - 1] && rest[i - 1 + 1..] == rest[i..];
        }
      }
    }
  }

  /** What startswith and strip look at. */
  lemma LineKinds(line: Bytes)
    ensures StartsRecord(line) <==> [58, 108, 101, 58] <= line
    ensures BlankLine(line) <==> forall i | 0 <= i < |line| :: line[i] in [32, 9, 10, 11, 12, 13]
  {
    assert forall i | 0 <= i < |line| :: line[i] in line;
  }

  // ----- the split into records

  predicate StartsRecord(line: Bytes) {
    GenerParse.LE_TAG <= line
  }

  /** bytes.strip() leaves nothing. */
  predicate BlankLine(line: Bytes) {
    forall b | b in line :: b == 32 || 9 <= b <= 13
  }

  /** The line numbers that start records, in order, within the first n lines. */
  ghost predicate AllStarts(lines: seq<Bytes>, n: nat, starts: seq<nat>)
    requires n <= |lines|
  {
    && (forall i, j | 0 <= i < j < |starts| :: starts[i] < starts[j])
    && (forall i | 0 <= i < |starts| :: starts[i] < n && StartsRecord(lines[starts[i]]))
    && (forall k | 0 <= k < n && StartsRecord(lines[k]) :: k in starts)
  }

  /** Where the records begin and end. */
  ghost predicate Cut(lines: seq<Bytes>, starts: seq<nat>, ends: seq<nat>) {
    && |starts| == |ends| > 0 && starts[0] == 0 && ends[|ends| - 1] == |lines|
    && (forall i {:trigger ends[i]} | 0 <= i < |ends| - 1 :: ends[i] == starts[i + 1])
    && (forall i {:trigger starts[i]} | 0 <= i < |starts| :: starts[i] < |lines|)
    && (forall i {:trigger ends[i]} | 0 <= i < |ends| :: starts[i] < ends[i] <= |lines|)
  }

  ghost predicate RecordsAre(lines: seq<Bytes>, starts: seq<nat>, ends: seq<nat>, records: seq<Bytes>)
    requires Cut(lines, starts, ends)
  {
    && |records| == |starts|
    && forall i {:trigger records[i]} | 0 <= i < |records| :: records[i] == Join(lines[starts[i]..ends[i]])
  }

  /** Exactly one line of every record starts with the tag, and it is not preceded by more than
      blank lines. */
  ghost predicate OneLemmaEach(lines: seq<Bytes>, starts: seq<nat>, ends: seq<nat>)
    requires Cut(lines, starts, ends)
  {
    forall i | 0 <= i < |ends| :: HasOneLemma(lines, starts, ends, i)
  }

  ghost predicate HasOneLemma(lines: seq<Bytes>, starts: seq<nat>, ends: seq<nat>, i: nat)
    requires Cut(lines, starts, ends) && i < |ends|
  {
    exists m: nat :: OnlyLemma(lines, starts[i], ends[i], m) && (i > 0 ==> m == starts[i])
  }

  ghost predicate OnlyLemma(lines: seq<Bytes>, lo: nat, hi: nat, m: nat)
    requires hi <= |lines|
  {
    && lo <= m < hi && StartsRecord(lines[m])
    && (forall k | lo <= k < m :: BlankLine(lines[k]))
    && (forall k | lo <= k < hi && StartsRecord(lines[k]) :: k == m)
  }

  /** The records put together are the input. */
  lemma {:induction false} RecordsJoin(lines: seq<Bytes>, starts: seq<nat>, ends: seq<nat>, records: seq<Bytes>, n: nat)
    requires Cut(lines, starts, ends) && RecordsAre(lines, starts, ends, records) && n <= |records|
    ensures Join(records[..n]) == Join(lines[..if n == 0 then 0 else ends[n - 1]])
    decreases n
  {
    if n > 0 {
      RecordsJoin(lines, starts, ends, records, n - 1);
      assert records[..n] == records[..n - 1] + [records[n - 1]];
      JoinAppend(records[..n - 1], [records[n - 1]]);
      assert Join([records[n - 1]]) == records[n - 1] by {
        var one: seq<Bytes> := [records[n - 1]];
        assert one[1..] == [];
      }
      var a, b := starts[n - 1], ends[n - 1];
      assert n > 1 ==> ends[n - 2] == a;
      assert lines[..b] == lines[..a] + lines[a..b];
      JoinAppend(lines[..a], lines[a..b]);
    }
  }

  datatype SplitResult = NoLemma | Records(starts: seq<nat>, ends: seq<nat>, records: seq<Bytes>)

  method FindStarts(lines: seq<Bytes>) returns (starts: seq<nat>)
    ensures AllStarts(lines, |lines|, starts)
  {
    starts := [];
    var i := 0;
    while i < |lines|
      invariant 0 <= i <= |lines| && AllStarts(lines, i, starts)
    {
      ghost var was := starts;
      if StartsRecord(lines[i]) {
        starts := starts + [i];
        assert forall k | k in was :: k in starts;
        assert starts[|was|] == i;
      }
      i := i + 1;
    }
  }

  /** Some line starts a record, and only blank lines come before the first such line. */
  ghost predicate Accepted(lines: seq<Bytes>) {
    exists m :: 0 <= m < |lines| && StartsRecord(lines[m]) && forall k | 0 <= k < m :: BlankLine(lines[k])
  }

  method CutRecords(lines: seq<Bytes>, starts: seq<nat>, ends: seq<nat>) returns (records: seq<Bytes>)
    requires Cut(lines, starts, ends)
    ensures RecordsAre(lines, starts, ends, records)
  {
    records := [];
    var i := 0;
    while i < |starts|
      invariant 0 <= i <= |starts| && |records| == i
      invariant forall j {:trigger records[j]} | 0 <= j < i :: records[j] == Join(lines[starts[j]..ends[j]])
    {
      records := records + [Join(lines[starts[i]..ends[i]])];
      i := i + 1;
    }
  }

  /** The input is refused exactly if it does not begin with a lemma after blank lines;
      otherwise the records split it without loss, one lemma each. */
  method SplitRecords(data: Bytes) returns (r: SplitResult)
    ensures r.Records? <==> Accepted(SplitLines(data))
    ensures r.Records? ==>
      && Cut(SplitLines(data), r.starts, r.ends)
      && RecordsAre(SplitLines(data), r.starts, r.ends, r.records)
      && OneLemmaEach(SplitLines(data), r.starts, r.ends)
      && Join(r.records) == data
  {
    hide Cut, RecordsAre, OneLemmaEach, AllStarts, Join, SplitLines, Accepted;
    var lines := SplitLines(data);
    var starts := FindStarts(lines);
    StartsDecide(lines, starts);
    if starts == [] || exists k :: 0 <= k < starts[0] && !BlankLine(lines[k]) {
      return NoLemma;
    }
    ghost var was := starts;
    starts := starts[0 := 0];
    var ends := starts[1..] + [|lines|];
    EachHasOne(lines, was, starts, ends);
    var records := CutRecords(lines, starts, ends);
    AllJoined(data, starts, ends, records);
    r := Records(starts, ends, records);
  }

  lemma StartsDecide(lines: seq<Bytes>, starts: seq<nat>)
    requires AllStarts(lines, |lines|, starts)
    ensures starts != [] && (forall k | 0 <= k < starts[0] :: BlankLine(lines[k])) <==> Accepted(lines)
  {
    if starts != [] && forall k | 0 <= k < starts[0] :: BlankLine(lines[k]) {
      assert StartsRecord(lines[starts[0]]);
    }
  }

  lemma AllJoined(data: Bytes, starts: seq<nat>, ends: seq<nat>, records: seq<Bytes>)
    requires Cut(SplitLines(data), starts, ends) && RecordsAre(SplitLines(data), starts, ends, records)
    ensures Join(records) == data
  {
    var lines := SplitLines(data);
    RecordsJoin(lines, starts, ends, records, |records|);
    assert records[..|records|] == records && lines[..|lines|] == lines;
    JoinLines(data);
  }

  lemma IsCut(lines: seq<Bytes>, was: seq<nat>, starts: seq<nat>, ends: seq<nat>)
    requires AllStarts(lines, |lines|, was) && was != []
    requires starts == was[0 := 0] && ends == starts[1..] + [|lines|]
    ensures Cut(lines, starts, ends)
  {
    forall i | 0 <= i < |starts|
      ensures starts[i] < ends[i] <= |lines|
    {
      assert was[i] < |lines|;
      if i + 1 < |starts| {
        assert ends[i] == starts[i + 1] == was[i + 1] && was[i] < was[i + 1] < |lines|;
      }
    }
  }

  lemma StartsOrder(was: seq<nat>, i: nat, j: nat)
    requires i < |was| && j < |was| && forall a, b | 0 <= a < b < |was| :: was[a] < was[b]
    ensures j < i ==> was[j] < was[i]
    ensures i < j ==> was[i] < was[i + 1] <= was[j]
  {
  }

  lemma OneLemma(lines: seq<Bytes>, was: seq<nat>, lo: nat, hi: nat, i: nat)
    requires AllStarts(lines, |lines|, was) && i < |was| && hi == if i + 1 < |was| then was[i + 1] else |lines|
    requires if i == 0 then lo == 0 && forall k | 0 <= k < was[0] :: BlankLine(lines[k]) else lo == was[i]
    ensures hi <= |lines| && OnlyLemma(lines, lo, hi, was[i])
  {
    assert was[i] < |lines| && StartsRecord(lines[was[i]]);
    if i + 1 < |was| {
      assert was[i] < was[i + 1] < |lines|;
    }
    forall k | lo <= k < hi && StartsRecord(lines[k])
      ensures k == was[i]
    {
      var j :| 0 <= j < |was| && was[j] == k;
      StartsOrder(was, i, j);
    }
    if i == 0 {
      assert forall k | lo <= k < was[0] :: BlankLine(lines[k]);
    }
  }

  lemma EachHasOne(lines: seq<Bytes>, was: seq<nat>, starts: seq<nat>, ends: seq<nat>)
    requires AllStarts(lines, |lines|, was) && was != [] && forall k | 0 <= k < was[0] :: BlankLine(lines[k])
    requires starts == was[0 := 0] && ends == starts[1..] + [|lines|]
    ensures Cut(lines, starts, ends) && OneLemmaEach(lines, starts, ends)
  {
    hide AllStarts, OnlyLemma, StartsRecord;
    IsCut(lines, was, starts, ends);
    forall i | 0 <= i < |ends|
      ensures HasOneLemma(lines, starts, ends, i)
    {
      OneLemma(lines, was, starts[i], ends[i], i);
      assert OnlyLemma(lines, starts[i], ends[i], was[i]);
    }
  }

  // ----- the bisection

  datatype Failure =
    | RecordFailure(firstLine: nat, lastLine: nat, exitCode: int, record: nat, lemmaLine: Bytes)
    | BatchFailure(firstLine: nat, lastLine: nat, exitCode: int)

  /** The smallest L with n <= 2^L. */
  function CeilLog(n: nat): nat
    requires n > 0
  {
    if n == 1 then 0 else 1 + CeilLog((n + 1) / 2)
  }

  function Power2(e: nat): nat {
    if e == 0 then 1 else 2 * Power2(e - 1)
  }

  lemma {:induction false} CeilLogIs(n: nat)
    requires n > 0
    ensures n <= Power2(CeilLog(n)) && (n > 1 ==> Power2(CeilLog(n) - 1) < n)
    decreases n
  {
    if n > 1 {
      CeilLogIs((n + 1) / 2);
      if n > 2 {
        assert Power2(CeilLog(n) - 1) == 2 * Power2(CeilLog(n) - 2);
      }
    }
  }

  lemma {:induction false} CeilLogMonotone(m: nat, n: nat)
    requires 0 < m <= n
    ensures CeilLog(m) <= CeilLog(n)
    decreases n
  {
    if m > 1 {
      CeilLogMonotone((m + 1) / 2, (n + 1) / 2);
    }
  }

  /** The tool's exit code; it sees nothing but the batch. */
  type Tool = Bytes -> int

  ghost predicate Fails(tool: Tool, records: seq<Bytes>, first: nat, last: nat)
    requires first <= last <= |records|
  {
    tool(Join(records[first..last])) != 0
  }

  /** Every batch of the bisection around record i fails, down to the record itself. */
  ghost predicate Reached(tool: Tool, records: seq<Bytes>, first: nat, last: nat, i: nat)
    requires first <= i < last <= |records|
    decreases last - first
  {
    && Fails(tool, records, first, last)
    && (last - first == 1 ||
        var middle := (first + last) / 2;
        if i < middle then Reached(tool, records, first, middle, i) else Reached(tool, records, middle, last, i))
  }

  /** A batch that fails though neither half does. */
  ghost predicate FailsTogether(tool: Tool, records: seq<Bytes>, batch: (nat, nat)) {
    var (first, last) := batch;
    && first + 1 < last <= |records| && Fails(tool, records, first, last)
    && !Fails(tool, records, first, (first + last) / 2) && !Fails(tool, records, (first + last) / 2, last)
  }

  /** Every batch of the bisection around this one fails, and it fails though neither half does. */
  ghost predicate Isolated(tool: Tool, records: seq<Bytes>, first: nat, last: nat, batch: (nat, nat))
    requires first < last <= |records|
    decreases last - first
  {
    if batch == (first, last) then FailsTogether(tool, records, batch)
    else
      && last - first > 1 && Fails(tool, records, first, last)
      && var middle := (first + last) / 2;
        if batch.1 <= middle then Isolated(tool, records, first, middle, batch) else Isolated(tool, records, middle, last, batch)
  }

  lemma {:induction false} IsolatedFails(tool: Tool, records: seq<Bytes>, first: nat, last: nat, batch: (nat, nat))
    requires first < last <= |records| && Isolated(tool, records, first, last, batch)
    ensures first <= batch.0 && batch.1 <= last && FailsTogether(tool, records, batch)
    decreases last - first
  {
    if batch != (first, last) {
      var middle := (first + last) / 2;
      if batch.1 <= middle {
        IsolatedFails(tool, records, first, middle, batch);
      } else {
        IsolatedFails(tool, records, middle, last, batch);
      }
    }
  }

  /** A batch fails exactly if it contains a record that fails alone. */
  ghost predicate Separable(tool: Tool, records: seq<Bytes>) {
    forall a: nat, b: nat {:trigger Fails(tool, records, a, b)} | a < b <= |records| ::
      Fails(tool, records, a, b) <==> HasBad(tool, records, a, b)
  }

  ghost predicate Bad(tool: Tool, records: seq<Bytes>, i: nat) {
    i < |records| && Fails(tool, records, i, i + 1)
  }

  ghost predicate HasBad(tool: Tool, records: seq<Bytes>, a: nat, b: nat) {
    exists i: nat :: a <= i < b && Bad(tool, records, i)
  }

  /** What one call of the probe adds to the report: ns are the records, bs the batches. */
  ghost predicate Found(tool: Tool, records: seq<Bytes>, first: nat, last: nat, ns: seq<nat>, bs: seq<(nat, nat)>)
    requires first < last <= |records|
  {
    && FoundRecords(tool, records, first, last, ns) && FoundBatches(tool, records, first, last, bs)
    && (Fails(tool, records, first, last) <==> ns != [] || bs != [])
  }

  ghost predicate FoundRecords(tool: Tool, records: seq<Bytes>, first: nat, last: nat, ns: seq<nat>)
    requires first < last <= |records|
  {
    && Increasing(ns)
    && (forall i | i in ns :: first <= i < last)
    && (forall i: nat {:trigger i in ns} | first <= i < last :: i in ns <==> Reached(tool, records, first, last, i))
  }

  ghost predicate FoundBatches(tool: Tool, records: seq<Bytes>, first: nat, last: nat, bs: seq<(nat, nat)>)
    requires first < last <= |records|
  {
    && (forall j, k | 0 <= j < k < |bs| :: bs[j] != bs[k])
    && (forall b {:trigger b in bs} :: b in bs <==> Isolated(tool, records, first, last, b))
  }

  lemma FoundNothing(tool: Tool, records: seq<Bytes>, first: nat, last: nat)
    requires first < last <= |records| && !Fails(tool, records, first, last)
    ensures Found(tool, records, first, last, [], [])
  {
  }

  lemma FoundRecord(tool: Tool, records: seq<Bytes>, first: nat)
    requires first < |records| && Fails(tool, records, first, first + 1)
    ensures Found(tool, records, first, first + 1, [first], [])
  {
  }

  lemma HalvesRecords(tool: Tool, records: seq<Bytes>, first: nat, last: nat, ns: seq<nat>, ns': seq<nat>)
    requires first + 1 < last <= |records| && Fails(tool, records, first, last)
    requires var middle := (first + last) / 2;
      FoundRecords(tool, records, first, middle, ns) && FoundRecords(tool, records, middle, last, ns')
    ensures FoundRecords(tool, records, first, last, ns + ns')
  {
    hide Fails;
    var middle := (first + last) / 2;
    forall j, k | 0 <= j < k < |ns + ns'|
      ensures (ns + ns')[j] < (ns + ns')[k]
    {
      if j < |ns| <= k {
        assert ns[j] in ns && ns'[k - |ns|] in ns';
      }
    }
    forall i: nat | first <= i < last
      ensures i in ns + ns' <==> Reached(tool, records, first, last, i)
    {
      if i < middle {
        assert i !in ns';
      } else {
        assert i !in ns;
      }
    }
  }

  lemma HalvesBatches(tool: Tool, records: seq<Bytes>, first: nat, last: nat, bs: seq<(nat, nat)>, bs': seq<(nat, nat)>)
    requires first + 1 < last <= |records| && Fails(tool, records, first, last)
    requires var middle := (first + last) / 2;
      FoundBatches(tool, records, first, middle, bs) && FoundBatches(tool, records, middle, last, bs')
    ensures FoundBatches(tool, records, first, last,
                         bs + bs' + if FailsTogether(tool, records, (first, last)) then [(first, last)] else [])
  {
    hide FailsTogether, Fails;
    var middle, whole := (first + last) / 2, if FailsTogether(tool, records, (first, last)) then [(first, last)] else [];
    var all := bs + bs' + whole;
    BatchesWithin(tool, records, first, middle, bs);
    BatchesWithin(tool, records, middle, last, bs');
    forall j, k | 0 <= j < k < |all|
      ensures all[j] != all[k]
    {
      assert j < |bs| ==> all[j] == bs[j] && bs[j] in bs;
      assert |bs| <= k < |bs| + |bs'| ==> all[k] == bs'[k - |bs|] && bs'[k - |bs|] in bs';
      assert |bs| <= j < |bs| + |bs'| ==> all[j] == bs'[j - |bs|] && bs'[j - |bs|] in bs';
    }
    forall b
      ensures b in all <==> Isolated(tool, records, first, last, b)
    {
      assert b in all <==> b in bs || b in bs' || b in whole;
      HalvesIsolated(tool, records, first, last, b);
    }
  }

  lemma BatchesWithin(tool: Tool, records: seq<Bytes>, first: nat, last: nat, bs: seq<(nat, nat)>)
    requires first < last <= |records| && FoundBatches(tool, records, first, last, bs)
    ensures forall b | b in bs :: first <= b.0 && b.0 < b.1 <= last
  {
    forall b | b in bs
      ensures first <= b.0 && b.0 < b.1 <= last
    {
      IsolatedFails(tool, records, first, last, b);
    }
  }

  lemma HalvesIsolated(tool: Tool, records: seq<Bytes>, first: nat, last: nat, b: (nat, nat))
    requires first + 1 < last <= |records| && Fails(tool, records, first, last)
    ensures var middle := (first + last) / 2;
      Isolated(tool, records, first, last, b) <==>
        Isolated(tool, records, first, middle, b) || Isolated(tool, records, middle, last, b)
        || (b == (first, last) && FailsTogether(tool, records, b))
  {
    hide FailsTogether, Fails;
    var middle := (first + last) / 2;
    if Isolated(tool, records, first, middle, b) {
      IsolatedWithin(tool, records, first, middle, b);
    }
    if Isolated(tool, records, middle, last, b) {
      IsolatedWithin(tool, records, middle, last, b);
    }
  }

  lemma IsolatedWithin(tool: Tool, records: seq<Bytes>, first: nat, last: nat, b: (nat, nat))
    requires first < last <= |records| && Isolated(tool, records, first, last, b)
    ensures first <= b.0 < b.1 <= last
  {
    IsolatedFails(tool, records, first, last, b);
  }

  lemma FoundHalves(tool: Tool, records: seq<Bytes>, first: nat, last: nat,
                    ns: seq<nat>, bs: seq<(nat, nat)>, ns': seq<nat>, bs': seq<(nat, nat)>)
    requires first + 1 < last <= |records| && Fails(tool, records, first, last)
    requires var middle := (first + last) / 2;
      Found(tool, records, first, middle, ns, bs) && Found(tool, records, middle, last, ns', bs')
    ensures var middle := (first + last) / 2;
      Found(tool, records, first, last, ns + ns',
            if Fails(tool, records, first, middle) || Fails(tool, records, middle, last) then bs + bs'
            else bs + bs' + [(first, last)])
  {
    hide FoundRecords, FoundBatches, Fails;
    assert bs + bs' + [] == bs + bs';
    HalvesRecords(tool, records, first, last, ns, ns');
    HalvesBatches(tool, records, first, last, bs, bs');
  }

  // ----- how many runs it takes

  ghost function Runs(tool: Tool, records: seq<Bytes>, first: nat, last: nat): (r: nat)
    requires first < last <= |records|
    decreases last - first
  {
    if !Fails(tool, records, first, last) || last - first == 1 then 1
    else
      var middle := (first + last) / 2;
      1 + Runs(tool, records, first, middle) + Runs(tool, records, middle, last)
  }

  lemma RunsHalves(tool: Tool, records: seq<Bytes>, first: nat, last: nat)
    requires first + 1 < last <= |records| && Fails(tool, records, first, last)
    ensures var middle := (first + last) / 2;
      Runs(tool, records, first, last) == 1 + Runs(tool, records, first, middle) + Runs(tool, records, middle, last)
  {
  }

  lemma {:induction false} RunsBound(tool: Tool, records: seq<Bytes>, first: nat, last: nat)
    requires first < last <= |records|
    ensures 1 <= Runs(tool, records, first, last) <= 2 * (last - first) - 1
    decreases last - first
  {
    if Fails(tool, records, first, last) && last - first > 1 {
      RunsBound(tool, records, first, (first + last) / 2);
      RunsBound(tool, records, (first + last) / 2, last);
    }
  }

  ghost function BadList(tool: Tool, records: seq<Bytes>, first: nat, last: nat): seq<nat>
    requires first <= last <= |records|
    decreases last
  {
    if first == last then []
    else BadList(tool, records, first, last - 1) + if Bad(tool, records, last - 1) then [last - 1] else []
  }

  ghost predicate Increasing(s: seq<nat>) {
    forall j, k | 0 <= j < k < |s| :: s[j] < s[k]
  }

  lemma {:induction false} BadListIs(tool: Tool, records: seq<Bytes>, first: nat, last: nat)
    requires first <= last <= |records|
    ensures forall i: nat :: i in BadList(tool, records, first, last) <==> first <= i < last && Bad(tool, records, i)
    decreases last
  {
    hide Bad;
    if first == last {
      assert BadList(tool, records, first, last) == [];
    } else {
      BadListIs(tool, records, first, last - 1);
      var l, r := BadList(tool, records, first, last - 1), BadList(tool, records, first, last);
      assert r == if Bad(tool, records, last - 1) then l + [last - 1] else l;
      forall i: nat
        ensures i in r <==> first <= i < last && Bad(tool, records, i)
      {
        assert i in r <==> i in l || (i == last - 1 && Bad(tool, records, last - 1));
      }
    }
  }

  lemma {:induction false} BadListIncreases(tool: Tool, records: seq<Bytes>, first: nat, last: nat)
    requires first <= last <= |records|
    ensures Increasing(BadList(tool, records, first, last))
    decreases last
  {
    if first < last {
      BadListIncreases(tool, records, first, last - 1);
      BadListIs(tool, records, first, last - 1);
      var l := BadList(tool, records, first, last - 1);
      assert forall j | 0 <= j < |l| :: l[j] in l;
    }
  }

  lemma {:induction false} BadListSplit(tool: Tool, records: seq<Bytes>, first: nat, middle: nat, last: nat)
    requires first <= middle <= last <= |records|
    ensures BadList(tool, records, first, last) == BadList(tool, records, first, middle) + BadList(tool, records, middle, last)
    decreases last
  {
    if middle < last {
      BadListSplit(tool, records, first, middle, last - 1);
    }
  }

  /** The bound on the runs for k failing records, l halvings deep. */
  function RunLimit(k: nat, l: nat): (r: nat)
    ensures r >= 1
  {
    1 + 2 * (k * l)
  }

  lemma HalvesBound(k: nat, m: nat, l: nat, p: nat, q: nat, x: nat, y: nat)
    requires k + m >= 1 && l >= 1 && p <= l - 1 && q <= l - 1
    requires x <= RunLimit(k, p) && y <= RunLimit(m, q)
    ensures 1 + x + y <= RunLimit(k + m, l)
  {
    Smaller(k, p, l - 1);
    Smaller(m, q, l - 1);
    assert (k + m) * l == k * (l - 1) + m * (l - 1) + (k + m);
  }

  lemma Smaller(k: nat, p: nat, q: nat)
    requires p <= q
    ensures k * p <= k * q
  {
  }

  lemma OneRun(tool: Tool, records: seq<Bytes>, first: nat, last: nat, k: nat)
    requires first < last <= |records| && (!Fails(tool, records, first, last) || last - first == 1)
    ensures Runs(tool, records, first, last) <= RunLimit(k, CeilLog(last - first))
  {
    hide Fails;
  }

  lemma SomeBad(tool: Tool, records: seq<Bytes>, first: nat, last: nat)
    requires Separable(tool, records) && first < last <= |records| && Fails(tool, records, first, last)
    ensures |BadList(tool, records, first, last)| >= 1
  {
    hide BadList, Bad, Fails;
    BadListIs(tool, records, first, last);
    assert HasBad(tool, records, first, last);
    var i: nat :| first <= i < last && Bad(tool, records, i);
    assert i in BadList(tool, records, first, last);
  }

  lemma HalvesAreLower(n: nat)
    requires n > 1
    ensures CeilLog(n) >= 1 && CeilLog(n / 2) <= CeilLog(n) - 1 && CeilLog(n - n / 2) <= CeilLog(n) - 1
  {
    CeilLogMonotone(n / 2, (n + 1) / 2);
    CeilLogMonotone(n - n / 2, (n + 1) / 2);
  }

  lemma {:induction false} RunsOfSeparable(tool: Tool, records: seq<Bytes>, first: nat, last: nat)
    requires Separable(tool, records) && first < last <= |records|
    ensures Runs(tool, records, first, last) <= RunLimit(|BadList(tool, records, first, last)|, CeilLog(last - first))
    decreases last - first
  {
    hide RunLimit, BadList, Runs, Fails, CeilLog, Separable;
    if Fails(tool, records, first, last) && last - first > 1 {
      var middle := (first + last) / 2;
      SomeBad(tool, records, first, last);
      RunsHalves(tool, records, first, last);
      RunsOfSeparable(tool, records, first, middle);
      RunsOfSeparable(tool, records, middle, last);
      BadListSplit(tool, records, first, middle, last);
      HalvesAreLower(last - first);
      HalvesBound(|BadList(tool, records, first, middle)|, |BadList(tool, records, middle, last)|, CeilLog(last - first),
                  CeilLog(middle - first), CeilLog(last - middle),
                  Runs(tool, records, first, middle), Runs(tool, records, middle, last));
    } else {
      OneRun(tool, records, first, last, |BadList(tool, records, first, last)|);
    }
  }

  lemma {:induction false} ReachedIsBad(tool: Tool, records: seq<Bytes>, first: nat, last: nat, i: nat)
    requires Separable(tool, records) && first <= i < last <= |records|
    ensures Reached(tool, records, first, last, i) <==> Bad(tool, records, i)
    decreases last - first
  {
    assert Bad(tool, records, i) ==> HasBad(tool, records, first, last);
    assert Fails(tool, records, first, last) <==> HasBad(tool, records, first, last);
    if last - first > 1 {
      var middle := (first + last) / 2;
      if i < middle {
        ReachedIsBad(tool, records, first, middle, i);
      } else {
        ReachedIsBad(tool, records, middle, last, i);
      }
    }
  }

  lemma FirstOf(s: seq<nat>)
    ensures s == [] || exists i: nat :: i in s
  {
    if s != [] {
      assert s[0] in s;
    }
  }

  lemma {:induction false} IncreasingUnique(a: seq<nat>, b: seq<nat>)
    requires Increasing(a) && Increasing(b)
    requires forall i: nat {:trigger i in a} {:trigger i in b} :: i in a <==> i in b
    ensures a == b
    decreases |a|
  {
    if a == [] {
      FirstOf(b);
    } else {
      var x := a[|a| - 1];
      assert x in a && x in b;
      var y := b[|b| - 1];
      assert y in b && y in a;
      assert x == y;
      var a', b' := a[..|a| - 1], b[..|b| - 1];
      forall i: nat
        ensures i in a' <==> i in b'
      {
        assert i in a <==> i in a' || i == x;
        assert i in b <==> i in b' || i == x;
        assert x !in a' && x !in b';
      }
      IncreasingUnique(a', b');
    }
  }

  lemma SeparableRecords(tool: Tool, records: seq<Bytes>, ns: seq<nat>, bs: seq<(nat, nat)>)
    requires records != [] && Separable(tool, records) && Found(tool, records, 0, |records|, ns, bs)
    ensures ns == BadList(tool, records, 0, |records|)
  {
    hide BadList, Bad, FailsTogether, Fails, Increasing;
    var n, bad := |records|, BadList(tool, records, 0, |records|);
    BadListIs(tool, records, 0, n);
    BadListIncreases(tool, records, 0, n);
    forall i: nat
      ensures i in ns <==> i in bad
    {
      if i < n {
        ReachedIsBad(tool, records, 0, n, i);
      }
    }
    IncreasingUnique(ns, bad);
  }

  /** If batches fail exactly for the records in them that fail alone, the report lists exactly
      those records, in order, no batch is left unexplained, and for k of them among n records
      at most 1 + 2 k ceil(log2 n) runs are made. */
  lemma SeparableIsExact(tool: Tool, records: seq<Bytes>, ns: seq<nat>, bs: seq<(nat, nat)>)
    requires records != [] && Separable(tool, records) && Found(tool, records, 0, |records|, ns, bs)
    ensures ns == BadList(tool, records, 0, |records|) && bs == []
    ensures Runs(tool, records, 0, |records|) <= 1 + 2 * (|ns| * CeilLog(|records|))
  {
    hide Reached, Bad, FailsTogether, Fails, BadList, Separable;
    SeparableRecords(tool, records, ns, bs);
    RunsOfSeparable(tool, records, 0, |records|);
    if bs != [] {
      assert bs[0] in bs;
      IsolatedFails(tool, records, 0, |records|, bs[0]);
      NoBatchAlone(tool, records, bs[0]);
      assert false;
    }
  }

  lemma NoBatchAlone(tool: Tool, records: seq<Bytes>, batch: (nat, nat))
    requires Separable(tool, records)
    ensures !FailsTogether(tool, records, batch)
  {
    var (first, last) := batch;
    forall i: nat | first <= i < last && last <= |records| && Bad(tool, records, i)
      ensures !FailsTogether(tool, records, batch)
    {
      var middle := (first + last) / 2;
      if i < middle {
        assert HasBad(tool, records, first, middle);
      } else {
        assert HasBad(tool, records, middle, last);
      }
    }
  }

  // ----- the program

  /** bytes.strip() */
  function Stripped(s: Bytes): Bytes
    decreases |s|
  {
    if s != [] && BlankLine(s[..1]) then Stripped(s[1..])
    else if s != [] && BlankLine(s[|s| - 1..]) then Stripped(s[..|s| - 1])
    else s
  }

  ghost predicate Space(s: Bytes) {
    forall i | 0 <= i < |s| :: s[i] in [32, 9, 10, 11, 12, 13]
  }

  /** It takes the white space at both ends and nothing else. */
  lemma {:induction false} StrippedIs(lead: Bytes, s: Bytes, trail: Bytes)
    requires Space(lead) && Space(trail) && (s != [] ==> !Space(s[..1]) && !Space(s[|s| - 1..]))
    ensures Stripped(lead + s + trail) == s
    decreases |lead| + |trail|
  {
    var t := lead + s + trail;
    if t != [] {
      LineKinds(t[..1]);
      LineKinds(t[|t| - 1..]);
      if lead != [] {
        assert t[..1] == lead[..1] && t[1..] == lead[1..] + s + trail;
        StrippedIs(lead[1..], s, trail);
      } else if s == [] {
        assert t[..1] == trail[..1] && t[1..] == [] + s + trail[1..];
        StrippedIs([], s, trail[1..]);
      } else {
        assert t[..1] == s[..1];
        if trail != [] {
          assert t[|t| - 1..] == trail[|trail| - 1..] && t[..|t| - 1] == [] + s + trail[..|trail| - 1];
          StrippedIs([], s, trail[..|trail| - 1]);
        } else {
          assert t == s && t[|t| - 1..] == s[|s| - 1..];
        }
      }
    }
  }

  class Audit {
    const lines: seq<Bytes>
    const starts: seq<nat>
    const ends: seq<nat>
    const records: seq<Bytes>
    const tool: Tool
    var invocations: nat
    var failures: seq<Failure>
    var batchOnlyFailures: seq<Failure>

    /** The split the report works on. */
    ghost predicate Valid() {
      && Cut(lines, starts, ends) && RecordsAre(lines, starts, ends, records) && OneLemmaEach(lines, starts, ends)
      && lines == SplitLines(Join(lines))
    }

    constructor (data: Bytes, r: SplitResult, tool': Tool)
      requires r.Records? && Cut(SplitLines(data), r.starts, r.ends)
      requires RecordsAre(SplitLines(data), r.starts, r.ends, r.records)
      requires OneLemmaEach(SplitLines(data), r.starts, r.ends)
      ensures Valid() && records == r.records && tool == tool'
      ensures invocations == 0 && failures == [] && batchOnlyFailures == []
    {
      lines, starts, ends, records, tool := SplitLines(data), r.starts, r.ends, r.records, tool';
      invocations, failures, batchOnlyFailures := 0, [], [];
      JoinLines(data);
    }

    /** The line that names record i's lemma. */
    ghost function LemmaLine(i: nat): (m: nat)
      requires Valid() && i < |records|
      ensures OnlyLemma(lines, starts[i], ends[i], m)
    {
      assert HasOneLemma(lines, starts, ends, i);
      var m: nat :| OnlyLemma(lines, starts[i], ends[i], m);
      m
    }

    /** The report entries for single records and for batches. */
    ghost function RecordEntry(i: nat): Failure
      requires Valid() && i < |records|
    {
      RecordFailure(starts[i] + 1, ends[i], tool(Join(records[i..i + 1])), i + 1, Stripped(lines[LemmaLine(i)][4..]))
    }

    ghost function BatchEntry(batch: (nat, nat)): Failure
      requires Valid() && batch.0 < batch.1 <= |records|
    {
      BatchFailure(starts[batch.0] + 1, ends[batch.1 - 1], tool(Join(records[batch.0..batch.1])))
    }

    ghost predicate NumbersFit(ns: seq<nat>) {
      forall i | i in ns :: i < |records|
    }

    ghost predicate BatchesFit(bs: seq<(nat, nat)>) {
      forall b | b in bs :: b.0 < b.1 <= |records|
    }

    ghost function RecordEntries(ns: seq<nat>): seq<Failure>
      requires Valid() && NumbersFit(ns)
    {
      seq(|ns|, k requires 0 <= k < |ns| => assert ns[k] in ns; RecordEntry(ns[k]))
    }

    ghost function BatchEntries(bs: seq<(nat, nat)>): seq<Failure>
      requires Valid() && BatchesFit(bs)
    {
      seq(|bs|, k requires 0 <= k < |bs| => assert bs[k] in bs; BatchEntry(bs[k]))
    }

    /** A record splits again into its own lines. */
    lemma RecordLines(i: nat)
      requires Valid() && i < |records|
      ensures SplitLines(records[i]) == lines[starts[i]..ends[i]]
    {
      var a, b := starts[i], ends[i];
      assert a < b <= |lines|;
      SplitSuffix(Join(lines), a);
      SplitAgain(Join(lines[a..]), b - a);
      assert lines[a..][..b - a] == lines[a..b];
    }

    /** The generator over the record's lines: it always finds one. */
    method FindLemma(i: nat) returns (lemma': Bytes)
      requires Valid() && i < |records|
      ensures lemma' == Stripped(lines[LemmaLine(i)][4..])
    {
      hide SplitLines, Join, Stripped, OneLemmaEach;
      RecordLines(i);
      ghost var a, m := starts[i], LemmaLine(i);
      var own := SplitLines(records[i]);
      assert own == lines[a..ends[i]] && StartsRecord(own[m - a]);
      var k := 0;
      while !StartsRecord(own[k])
        invariant 0 <= k <= m - a
        decreases m - a - k
      {
        k := k + 1;
      }
      assert own[k] == lines[a + k];
      lemma' := Stripped(own[k][4..]);
    }

    lemma ItFails(first: nat, last: nat, exitCode: int)
      requires first <= last <= |records| && exitCode == tool(Join(records[first..last])) != 0
      ensures Fails(tool, records, first, last)
    {
    }

    lemma Lengths()
      requires Valid()
      ensures |starts| == |ends| == |records|
    {
    }

    lemma NoEntries()
      requires Valid()
      ensures NumbersFit([]) && BatchesFit([]) && RecordEntries([]) == [] && BatchEntries([]) == []
    {
    }

    lemma EntriesAppend(ns: seq<nat>, ns': seq<nat>, bs: seq<(nat, nat)>, bs': seq<(nat, nat)>)
      requires Valid() && NumbersFit(ns) && NumbersFit(ns') && BatchesFit(bs) && BatchesFit(bs')
      ensures NumbersFit(ns + ns') && BatchesFit(bs + bs')
      ensures RecordEntries(ns + ns') == RecordEntries(ns) + RecordEntries(ns')
      ensures BatchEntries(bs + bs') == BatchEntries(bs) + BatchEntries(bs')
    {
    }

    lemma OneEntry(i: nat, batch: (nat, nat))
      requires Valid() && i < |records| && batch.0 < batch.1 <= |records|
      ensures NumbersFit([i]) && BatchesFit([batch])
      ensures RecordEntries([i]) == [RecordEntry(i)] && BatchEntries([batch]) == [BatchEntry(batch)]
    {
    }

    /** What a probe of a batch did: it found ns and bs, added their entries to the report and
        made the runs it takes. */
    ghost predicate Summary(first: nat, last: nat, ns: seq<nat>, bs: seq<(nat, nat)>, fs: seq<Failure>, fs': seq<Failure>,
                            gs: seq<Failure>, gs': seq<Failure>)
      requires Valid() && first < last <= |records|
    {
      && Found(tool, records, first, last, ns, bs) && NumbersFit(ns) && BatchesFit(bs)
      && fs' == fs + RecordEntries(ns) && gs' == gs + BatchEntries(bs)
    }

    /** The recursive probe of audit. */
    method Probe(first: nat, last: nat) returns (failed: bool, ghost ns: seq<nat>, ghost bs: seq<(nat, nat)>)
      requires Valid() && first < last <= |records|
      modifies this
      ensures failed <==> Fails(tool, records, first, last)
      ensures Summary(first, last, ns, bs, old(failures), failures, old(batchOnlyFailures), batchOnlyFailures)
      ensures invocations == old(invocations) + Runs(tool, records, first, last)
      decreases last - first, 1
    {
      hide Found, Valid, FailsTogether, RecordEntries, BatchEntries, NumbersFit, BatchesFit, Join, Summary;
      Lengths();
      invocations := invocations + 1;
      ns, bs := [], [];
      var exitCode := tool(Join(records[first..last]));
      if exitCode == 0 {
        NothingFound(first, last, failures, batchOnlyFailures);
        return false, ns, bs;
      }
      if last - first == 1 {
        var lemma' := FindLemma(first);
        var failure := RecordFailure(starts[first] + 1, ends[last - 1], exitCode, first + 1, lemma');
        RecordFound(first, failures, batchOnlyFailures);
        ns := [first];
        failures := failures + [failure];
      } else {
        ns, bs := Halve(first, last, exitCode);
      }
      failed := true;
    }

    /** The part of the probe for a failing batch. */
    method Halve(first: nat, last: nat, exitCode: int) returns (ghost ns: seq<nat>, ghost bs: seq<(nat, nat)>)
      requires Valid() && first + 1 < last <= |records|
      requires exitCode == tool(Join(records[first..last])) != 0
      modifies this
      ensures Summary(first, last, ns, bs, old(failures), failures, old(batchOnlyFailures), batchOnlyFailures)
      ensures invocations == old(invocations) + Runs(tool, records, first, last) - 1
      decreases last - first, 0
    {
      hide Valid, BatchEntries, Join, Fails, Summary, Runs;
      Lengths();
      ItFails(first, last, exitCode);
      RunsHalves(tool, records, first, last);
      var middle := (first + last) / 2;
      ghost var fs, gs := failures, batchOnlyFailures;
      var left, right;
      ghost var ns', bs';
      left, ns, bs := Probe(first, middle);
      ghost var fs', gs' := failures, batchOnlyFailures;
      right, ns', bs' := Probe(middle, last);
      HalvesFound(first, last, ns, ns', bs, bs', fs, fs', failures, gs, gs', batchOnlyFailures);
      ns, bs := ns + ns', bs + bs';
      if !left && !right {
        batchOnlyFailures := batchOnlyFailures + [BatchFailure(starts[first] + 1, ends[last - 1], exitCode)];
        bs := bs + [(first, last)];
      }
    }

    lemma NothingFound(first: nat, last: nat, fs: seq<Failure>, gs: seq<Failure>)
      requires Valid() && first < last <= |records| && !Fails(tool, records, first, last)
      ensures Summary(first, last, [], [], fs, fs, gs, gs)
    {
      FoundNothing(tool, records, first, last);
      NoEntries();
    }

    lemma RecordFound(first: nat, fs: seq<Failure>, gs: seq<Failure>)
      requires Valid() && first < |records| && Fails(tool, records, first, first + 1)
      ensures Summary(first, first + 1, [first], [], fs, fs + [RecordEntry(first)], gs, gs)
    {
      hide Found, Valid, RecordEntries, BatchEntries;
      FoundRecord(tool, records, first);
      NoEntries();
      OneEntry(first, (first, first + 1));
    }

    lemma HalvesFound(first: nat, last: nat, ns: seq<nat>, ns': seq<nat>, bs: seq<(nat, nat)>, bs': seq<(nat, nat)>,
                      fs: seq<Failure>, fs': seq<Failure>, fs'': seq<Failure>,
                      gs: seq<Failure>, gs': seq<Failure>, gs'': seq<Failure>)
      requires Valid() && first + 1 < last <= |records| && Fails(tool, records, first, last)
      requires var middle := (first + last) / 2;
        Summary(first, middle, ns, bs, fs, fs', gs, gs') && Summary(middle, last, ns', bs', fs', fs'', gs', gs'')
      ensures var middle := (first + last) / 2;
        if Fails(tool, records, first, middle) || Fails(tool, records, middle, last)
        then Summary(first, last, ns + ns', bs + bs', fs, fs'', gs, gs'')
        else Summary(first, last, ns + ns', bs + bs' + [(first, last)], fs, fs'', gs, gs'' + [BatchEntry((first, last))])
    {
      hide Valid, RecordEntries, BatchEntries, NumbersFit, BatchesFit, Fails, Found;
      FoundHalves(tool, records, first, last, ns, bs, ns', bs');
      NoEntries();
      BatchAlone((first, last));
      EntriesAppend(ns, ns', bs, bs');
      EntriesAppend([], [], bs + bs', [(first, last)]);
      Associate(fs, RecordEntries(ns), RecordEntries(ns'));
      Associate(gs, BatchEntries(bs), BatchEntries(bs'));
      Associate(gs, BatchEntries(bs + bs'), [BatchEntry((first, last))]);
    }

    lemma BatchAlone(batch: (nat, nat))
      requires Valid() && batch.0 < batch.1 <= |records|
      ensures BatchesFit([batch]) && BatchEntries([batch]) == [BatchEntry(batch)]
    {
    }
  }

  lemma Associate<T>(a: seq<T>, b: seq<T>, c: seq<T>)
    ensures a + b + c == a + (b + c)
  {
  }

  /** audit: a failing input always leaves a failing record or a batch-only entry; if batches
      fail exactly for the bad records in them, the report lists exactly those. */
  method RunAudit(data: Bytes, tool: Tool) returns (report: Audit?, failed: bool)
    ensures report != null <==> Accepted(SplitLines(data))
    ensures report != null ==>
      && fresh(report) && report.Valid() && Join(report.records) == data
      && (failed <==> tool(data) != 0)
      && (failed <==> report.failures != [] || report.batchOnlyFailures != [])
      && report.invocations <= 2 * |report.records| - 1
    ensures report != null && Separable(tool, report.records) ==>
      && report.NumbersFit(BadList(tool, report.records, 0, |report.records|))
      && report.failures == report.RecordEntries(BadList(tool, report.records, 0, |report.records|))
      && report.batchOnlyFailures == []
      && report.invocations <= 1 + 2 * (|report.failures| * CeilLog(|report.records|))
  {
    var r := SplitRecords(data);
    report, failed := null, false;
    if r.Records? {
      var audit := new Audit(data, r, tool);
      assert audit.records != [];
      ghost var ns, bs;
      failed, ns, bs := audit.Probe(0, |audit.records|);
      assert [] + audit.RecordEntries(ns) == audit.RecordEntries(ns) && [] + audit.BatchEntries(bs) == audit.BatchEntries(bs);
      Outcome(audit, ns, bs);
      assert audit.records[0..|audit.records|] == audit.records;
      report := audit;
    }
  }

  lemma Outcome(audit: Audit, ns: seq<nat>, bs: seq<(nat, nat)>)
    requires audit.Valid() && audit.records != [] && audit.NumbersFit(ns) && audit.BatchesFit(bs)
    requires Found(audit.tool, audit.records, 0, |audit.records|, ns, bs)
    requires audit.failures == audit.RecordEntries(ns) && audit.batchOnlyFailures == audit.BatchEntries(bs)
    requires audit.invocations == Runs(audit.tool, audit.records, 0, |audit.records|)
    ensures Fails(audit.tool, audit.records, 0, |audit.records|) <==> audit.failures != [] || audit.batchOnlyFailures != []
    ensures audit.invocations <= 2 * |audit.records| - 1
    ensures Separable(audit.tool, audit.records) ==>
      && ns == BadList(audit.tool, audit.records, 0, |audit.records|) && bs == []
      && audit.invocations <= 1 + 2 * (|audit.failures| * CeilLog(|audit.records|))
  {
    hide RunLimit, Fails, BadList;
    RunsBound(audit.tool, audit.records, 0, |audit.records|);
    if Separable(audit.tool, audit.records) {
      SeparableIsExact(audit.tool, audit.records, ns, bs);
    }
  }
}
