/** Generated forms on their way to the caller: collection and order in
    src/bridge/generation_normalizer.c, the filter and its limit in src/api/generation.c. */
module GeneratedForms {
  import opened ByteStrings
  import Sorting

  const HARD_LIMIT := 65536
  const NUMBER_DUAL := 2

  /** morpheus_normalized_generation; masks are numbers whose bits are the members. */
  datatype Generation = Generation(
    partOfSpeech: nat, tense: nat, voice: nat, mood: nat, degree: nat, number: nat, person: nat, grammaticalCase: nat,
    gender: nat, dialect: nat, geographicRegion: nat, surface: Bytes, lemma_: Bytes, morphFlags: Bytes, sourceOrder: nat)

  datatype Options = Options(
    partOfSpeech: nat, person: nat, number: nat, tense: nat, mood: nat, degree: nat, dialect: nat,
    geographicRegion: nat, gender: nat, grammaticalCase: nat, voice: nat, excludeDuals: bool)

  // ----- the order

  // compare_u32 and compare_u64
  function CompareNumbers(left: nat, right: nat): int {
    if left > right then 1 else if left < right then -1 else 0
  }

  /** A comparison that decides only what the one before leaves open. */
  function Then(order: int, next: int): int {
    if order != 0 then order else next
  }

  // morpheus_normalized_generation_compare
  function CompareGenerations(left: Generation, right: Generation): int {
    Then(CompareNumbers(left.partOfSpeech, right.partOfSpeech),
    Then(CompareNumbers(left.tense, right.tense),
    Then(CompareNumbers(left.voice, right.voice),
    Then(CompareNumbers(left.mood, right.mood),
    Then(CompareNumbers(left.degree, right.degree),
    Then(CompareNumbers(left.number, right.number),
    Then(CompareNumbers(left.person, right.person),
    Then(CompareNumbers(left.grammaticalCase, right.grammaticalCase),
    Then(CompareNumbers(left.gender, right.gender),
    Then(CompareNumbers(left.dialect, right.dialect),
    Then(CompareNumbers(left.geographicRegion, right.geographicRegion),
    Then(Compare(left.surface, right.surface),
    Then(Compare(left.lemma_, right.lemma_),
    Then(Compare(left.morphFlags, right.morphFlags),
    CompareNumbers(left.sourceOrder, right.sourceOrder)))))))))))))))
  }

  lemma CompareAntisymmetricGenerations(a: Generation, b: Generation)
    ensures CompareGenerations(a, b) == -CompareGenerations(b, a)
  {
    CompareAntisymmetric(a.surface, b.surface);
    CompareAntisymmetric(a.lemma_, b.lemma_);
    CompareAntisymmetric(a.morphFlags, b.morphFlags);
  }

  lemma CompareTransitiveGenerations(a: Generation, b: Generation, c: Generation)
    requires CompareGenerations(a, b) < 0 && CompareGenerations(b, c) < 0
    ensures CompareGenerations(a, c) < 0
  {
    hide Compare;
    CompareEqual(a.surface, b.surface);
    CompareEqual(b.surface, c.surface);
    CompareEqual(a.lemma_, b.lemma_);
    CompareEqual(b.lemma_, c.lemma_);
    CompareEqual(a.morphFlags, b.morphFlags);
    CompareEqual(b.morphFlags, c.morphFlags);
    if Compare(a.surface, b.surface) <= 0 && Compare(b.surface, c.surface) <= 0 {
      CompareTransitive(a.surface, b.surface, c.surface);
    }
    if Compare(a.lemma_, b.lemma_) <= 0 && Compare(b.lemma_, c.lemma_) <= 0 {
      CompareTransitive(a.lemma_, b.lemma_, c.lemma_);
    }
    if Compare(a.morphFlags, b.morphFlags) <= 0 && Compare(b.morphFlags, c.morphFlags) <= 0 {
      CompareTransitive(a.morphFlags, b.morphFlags, c.morphFlags);
    }
  }

  lemma CompareTotal(a: Generation, b: Generation)
    ensures CompareGenerations(a, b) == 0 <==> a == b
  {
    CompareEqual(a.surface, b.surface);
    CompareEqual(a.lemma_, b.lemma_);
    CompareEqual(a.morphFlags, b.morphFlags);
  }

  const IN_ORDER := (a: Generation, b: Generation) => CompareGenerations(a, b)

  lemma InOrderCompares()
    ensures Sorting.Comparator(IN_ORDER)
  {
    hide CompareGenerations;
    forall a, b
      ensures IN_ORDER(a, b) < 0 <==> IN_ORDER(b, a) > 0
    {
      CompareAntisymmetricGenerations(a, b);
    }
    forall a, b, c | IN_ORDER(a, b) < 0 && IN_ORDER(b, c) < 0
      ensures IN_ORDER(a, c) < 0
    {
      CompareTransitiveGenerations(a, b, c);
    }
  }

  ghost predicate Ordered(rs: seq<Generation>) {
    Sorting.SortedBy(IN_ORDER, rs)
  }

  // ----- what the order means

  /** The fields that decide, the first difference first. */
  ghost predicate Ahead(a: Generation, b: Generation) {
    a.partOfSpeech < b.partOfSpeech || (a.partOfSpeech == b.partOfSpeech && (
    a.tense < b.tense || (a.tense == b.tense && (
    a.voice < b.voice || (a.voice == b.voice && (
    a.mood < b.mood || (a.mood == b.mood && (
    a.degree < b.degree || (a.degree == b.degree && (
    a.number < b.number || (a.number == b.number && (
    a.person < b.person || (a.person == b.person && (
    a.grammaticalCase < b.grammaticalCase || (a.grammaticalCase == b.grammaticalCase && (
    a.gender < b.gender || (a.gender == b.gender && (
    a.dialect < b.dialect || (a.dialect == b.dialect && (
    a.geographicRegion < b.geographicRegion || (a.geographicRegion == b.geographicRegion && (
    TextsAhead(a, b)))))))))))))))))))))))
  }

  /** Then the texts, and in the end the order of arrival. */
  ghost predicate TextsAhead(a: Generation, b: Generation) {
    Earlier(a.surface, b.surface) || (a.surface == b.surface && (
    Earlier(a.lemma_, b.lemma_) || (a.lemma_ == b.lemma_ && (
    Earlier(a.morphFlags, b.morphFlags) || (a.morphFlags == b.morphFlags && (
    a.sourceOrder < b.sourceOrder))))))
  }

  lemma ComparedIsAhead(a: Generation, b: Generation)
    requires CompareGenerations(a, b) < 0
    ensures Ahead(a, b)
  {
    hide Compare, Earlier;
    CompareIs(a.surface, b.surface);
    CompareIs(a.lemma_, b.lemma_);
    CompareIs(a.morphFlags, b.morphFlags);
    CompareEqual(a.surface, b.surface);
    CompareEqual(a.lemma_, b.lemma_);
    CompareEqual(a.morphFlags, b.morphFlags);
  }

  // ----- collection

  /** The forms with the numbers of their arrival. */
  function Numbered(forms: seq<Generation>): seq<Generation> {
    seq(|forms|, i requires 0 <= i < |forms| => forms[i].(sourceOrder := i))
  }

  lemma NumberedHasNoTies(forms: seq<Generation>)
    ensures Sorting.NoTies(IN_ORDER, Numbered(forms))
  {
    forall i, j | 0 <= i < j < |forms|
      ensures IN_ORDER(Numbered(forms)[i], Numbered(forms)[j]) != 0
    {
      CompareTotal(Numbered(forms)[i], Numbered(forms)[j]);
    }
  }

  /** struct collector and its result, a growing array. */
  class Collector {
    var records: array<Generation>
    var count: nat
    const limit: nat
    var limitExceeded: bool
    var noMemory: bool

    ghost predicate Valid()
      reads this, records
    {
      && count <= records.Length <= limit && 0 < limit <= HARD_LIMIT && !noMemory
      && (limitExceeded ==> count == limit)
    }

    constructor (limit': nat)
      requires 0 < limit' <= HARD_LIMIT
      ensures Valid() && fresh(records) && count == 0 && limit == limit' && !limitExceeded
    {
      limit, count, limitExceeded, noMemory := limit', 0, false, false;
      records := new Generation[0];
    }

    /** grow_result: below the limit there is always room for more. */
    method Grow() returns (ok: bool)
      requires Valid() && count < limit
      modifies this`records
      ensures Valid() && (records == old(records) || fresh(records)) && records[..count] == old(records[..count])
      ensures ok <==> old(records.Length) < limit
      ensures ok ==> records.Length == (var c := old(records.Length); var d := if c == 0 then 32 else c * 2; if d > limit then limit else d)
    {
      var capacity := if records.Length != 0 then records.Length * 2 else 32;
      if capacity < records.Length || capacity > limit {
        capacity := limit;
      }
      if capacity <= records.Length {
        return false;
      }
      var grown := new Generation[capacity](i => Generation(0, 0, 0, 0, 0, 0, 0, 0, 0, 0, 0, [], [], [], 0));
      forall i | 0 <= i < count {
        grown[i] := records[i];
      }
      assert grown[..count] == records[..count];
      records := grown;
      ok := true;
    }

    /** collect_form: below the limit the array can always grow, so no_memory stays unset. */
    method CollectForm(form: Generation) returns (more: bool)
      requires Valid() && !limitExceeded
      modifies this`records, this`count, this`limitExceeded, this`noMemory, records
      ensures Valid() && (records == old(records) || fresh(records))
      ensures more <==> old(count) < limit
      ensures limitExceeded <==> !more
      ensures records[..count] == if more then old(records[..count]) + [form.(sourceOrder := old(count))] else old(records[..count])
      ensures count == if more then old(count) + 1 else old(count)
    {
      if count == limit {
        limitExceeded := true;
        return false;
      }
      ghost var was := records[..count];
      if count == records.Length {
        var grown := Grow();
        noMemory := !grown;
      }
      records[count] := form.(sourceOrder := count);
      assert records[..count] == was;
      assert records[..count + 1] == was + [form.(sourceOrder := count)];
      count := count + 1;
      more := true;
    }
  }

  datatype NormalizeStatus = NORMALIZE_OK | NORMALIZE_LIMIT

  /** morpheus_generation_normalize on the forms of a lemma: too many for the limit, or all of
      them in the one order the comparator allows. */
  method Normalize(forms: seq<Generation>, limit: nat) returns (status: NormalizeStatus, records: seq<Generation>)
    requires 0 < limit <= HARD_LIMIT
    ensures status == if |forms| > limit then NORMALIZE_LIMIT else NORMALIZE_OK
    ensures status == NORMALIZE_OK ==> InOrder(records, forms) && forall i, j | 0 <= i < j < |records| :: Ahead(records[i], records[j])
  {
    hide Ahead;
    var collect := new Collector(limit);
    records := [];
    var i := 0;
    while i < |forms|
      invariant 0 <= i <= |forms| && fresh(collect) && fresh(collect.records)
      invariant collect.Valid() && !collect.limitExceeded && collect.limit == limit && collect.count == i
      invariant collect.records[..i] == Numbered(forms[..i])
    {
      hide Sorting.Comparator, Sorting.NoTies, Sorting.SortedBy;
      var more := collect.CollectForm(forms[i]);
      if !more {
        return NORMALIZE_LIMIT, records;
      }
      assert Numbered(forms[..i + 1]) == Numbered(forms[..i]) + [forms[i].(sourceOrder := i)];
      i := i + 1;
    }
    assert forms[..i] == forms;
    InOrderCompares();
    NumberedHasNoTies(forms);
    records := Sorting.QSort(IN_ORDER, collect.records[..i]);
    OrderedIsAhead(records);
    status := NORMALIZE_OK;
  }

  // ----- the filter

  /** The bitwise and of two masks is not 0. */
  predicate Overlap(a: nat, b: nat) {
    a != 0 && b != 0 && ((a % 2 == 1 && b % 2 == 1) || Overlap(a / 2, b / 2))
  }

  // mask_matches
  predicate MaskMatches(filter: nat, value: nat) {
    filter == 0 || Overlap(filter, value)
  }

  /** generation_matches: an option of 0 leaves its field open, and a form without dialect
      matches every dialect. */
  predicate Matches(g: Generation, o: Options) {
    && (o.partOfSpeech != 0 ==> o.partOfSpeech == g.partOfSpeech)
    && (o.person != 0 ==> o.person == g.person)
    && (o.number != 0 ==> o.number == g.number)
    && (o.tense != 0 ==> o.tense == g.tense)
    && (o.mood != 0 ==> o.mood == g.mood)
    && (o.degree != 0 ==> o.degree == g.degree)
    && (o.dialect != 0 && g.dialect != 0 ==> Overlap(o.dialect, g.dialect))
    && MaskMatches(o.geographicRegion, g.geographicRegion) && MaskMatches(o.gender, g.gender)
    && MaskMatches(o.grammaticalCase, g.grammaticalCase) && MaskMatches(o.voice, g.voice)
    && !(o.excludeDuals && g.number == NUMBER_DUAL)
  }

  function Filter(rs: seq<Generation>, o: Options): (r: seq<Generation>)
    ensures |r| <= |rs|
  {
    if rs == [] then []
    else Filter(rs[..|rs| - 1], o) + if Matches(rs[|rs| - 1], o) then [rs[|rs| - 1]] else []
  }

  lemma {:induction false} FilterPrefix(rs: seq<Generation>, o: Options, k: nat)
    requires k <= |rs|
    ensures |Filter(rs[..k], o)| <= |Filter(rs, o)|
    decreases |rs|
  {
    if k < |rs| {
      FilterPrefix(rs[..|rs| - 1], o, k);
      assert rs[..|rs| - 1][..k] == rs[..k];
    } else {
      assert rs[..k] == rs;
    }
  }

  /** What the filter leaves: the matching records, in the order they had. */
  lemma {:induction false} FilterIs(rs: seq<Generation>, o: Options)
    ensures forall g :: g in Filter(rs, o) <==> g in rs && Matches(g, o)
    ensures Ordered(rs) ==> Ordered(Filter(rs, o))
    decreases |rs|
  {
    hide Matches, CompareGenerations;
    if rs != [] {
      var front, last := rs[..|rs| - 1], rs[|rs| - 1];
      FilterIs(front, o);
      assert rs == front + [last];
      var kept := Filter(front, o);
      if Ordered(rs) {
        OrderedMore(front, last, kept);
      }
    }
  }

  lemma OrderedMore(front: seq<Generation>, last: Generation, kept: seq<Generation>)
    requires Ordered(front + [last]) && (Ordered(front) ==> Ordered(kept)) && forall g | g in kept :: g in front
    ensures Ordered(kept) && Ordered(kept + [last])
  {
    hide CompareGenerations;
    var rs := front + [last];
    forall i, j | 0 <= i < j < |front|
      ensures IN_ORDER(front[i], front[j]) < 0
    {
      assert rs[i] == front[i] && rs[j] == front[j];
    }
    forall i | 0 <= i < |kept|
      ensures IN_ORDER(kept[i], last) < 0
    {
      assert kept[i] in front;
      var k :| 0 <= k < |front| && front[k] == kept[i];
      assert rs[k] == front[k] && rs[|front|] == last;
    }
  }

  datatype GenerateStatus = GENERATE_OK | RESULT_LIMIT_EXCEEDED

  /** The forms in the order of the comparator. */
  ghost predicate InOrder(rs: seq<Generation>, forms: seq<Generation>) {
    Ordered(rs) && multiset(rs) == multiset(Numbered(forms))
  }

  /** There is only one such order. */
  lemma OneOrder(a: seq<Generation>, b: seq<Generation>, forms: seq<Generation>)
    requires InOrder(a, forms) && InOrder(b, forms)
    ensures a == b
  {
    InOrderCompares();
    Sorting.SortUnique(IN_ORDER, a, b);
  }

  // ----- what the filter means

  /** Two masks have a bit in common. */
  ghost predicate Common(a: nat, b: nat) {
    exists k: nat :: Bit(a, k) && Bit(b, k)
  }

  lemma {:induction false} OverlapIs(a: nat, b: nat)
    ensures Overlap(a, b) <==> Common(a, b)
    decreases a
  {
    if a == 0 || b == 0 {
      forall k: nat
        ensures !(Bit(a, k) && Bit(b, k))
      {
        NoBits(k);
      }
    } else if a % 2 == 1 && b % 2 == 1 {
      assert Bit(a, 0) && Bit(b, 0);
    } else {
      OverlapIs(a / 2, b / 2);
      HalvesCommon(a, b);
    }
  }

  lemma HalvesCommon(a: nat, b: nat)
    requires !(a % 2 == 1 && b % 2 == 1)
    ensures Common(a, b) <==> Common(a / 2, b / 2)
  {
    forall k: nat
      ensures Bit(a, k + 1) == Bit(a / 2, k) && Bit(b, k + 1) == Bit(b / 2, k)
    {
    }
    if k: nat :| Bit(a, k) && Bit(b, k) {
      assert k > 0;
      assert Bit(a / 2, k - 1) && Bit(b / 2, k - 1);
    }
    if k: nat :| Bit(a / 2, k) && Bit(b / 2, k) {
      assert Bit(a, k + 1) && Bit(b, k + 1);
    }
  }

  lemma {:induction false} NoBits(k: nat)
    ensures !Bit(0, k)
    decreases k
  {
    if k > 0 {
      NoBits(k - 1);
    }
  }

  /** An option that is set asks for that value, or for a bit in common; a form without dialect has
      every one. */
  ghost predicate Wanted(g: Generation, o: Options) {
    && (o.partOfSpeech == 0 || g.partOfSpeech == o.partOfSpeech)
    && (o.person == 0 || g.person == o.person)
    && (o.number == 0 || g.number == o.number)
    && (o.tense == 0 || g.tense == o.tense)
    && (o.mood == 0 || g.mood == o.mood)
    && (o.degree == 0 || g.degree == o.degree)
    && (o.dialect == 0 || g.dialect == 0 || Common(o.dialect, g.dialect))
    && (o.geographicRegion == 0 || Common(o.geographicRegion, g.geographicRegion))
    && (o.gender == 0 || Common(o.gender, g.gender))
    && (o.grammaticalCase == 0 || Common(o.grammaticalCase, g.grammaticalCase))
    && (o.voice == 0 || Common(o.voice, g.voice))
    && (o.excludeDuals ==> g.number != 2)
  }

  lemma MatchesIs(g: Generation, o: Options)
    ensures Matches(g, o) <==> Wanted(g, o)
  {
    hide Overlap, Common;
    OverlapIs(o.dialect, g.dialect);
    OverlapIs(o.geographicRegion, g.geographicRegion);
    OverlapIs(o.gender, g.gender);
    OverlapIs(o.grammaticalCase, g.grammaticalCase);
    OverlapIs(o.voice, g.voice);
  }

  /** The wanted forms, by number of arrival. */
  ghost function WantedNumbers(forms: seq<Generation>, o: Options): set<nat> {
    set i: nat | 0 <= i < |forms| && Wanted(forms[i], o)
  }

  /** Each wanted form with its number of arrival, in order. */
  ghost predicate Lists(rs: seq<Generation>, forms: seq<Generation>, o: Options) {
    && (forall i, j | 0 <= i < j < |rs| :: Ahead(rs[i], rs[j]))
    && (forall k | 0 <= k < |rs| :: rs[k].sourceOrder in WantedNumbers(forms, o)
                                    && rs[k] == forms[rs[k].sourceOrder].(sourceOrder := rs[k].sourceOrder))
    && (forall i | i in WantedNumbers(forms, o) :: exists k :: 0 <= k < |rs| && rs[k].sourceOrder == i)
  }

  lemma NumberedMember(forms: seq<Generation>, rs: seq<Generation>, g: Generation)
    requires InOrder(rs, forms)
    ensures g in rs <==> g.sourceOrder < |forms| && g == forms[g.sourceOrder].(sourceOrder := g.sourceOrder)
  {
    hide Ordered;
    Sorting.SameMembers(rs, Numbered(forms));
    if g in Numbered(forms) {
      var i :| 0 <= i < |forms| && Numbered(forms)[i] == g;
    }
    if g.sourceOrder < |forms| && g == forms[g.sourceOrder].(sourceOrder := g.sourceOrder) {
      assert Numbered(forms)[g.sourceOrder] == g;
    }
  }

  lemma WantedKept(g: Generation, n: nat, o: Options)
    ensures Wanted(g.(sourceOrder := n), o) <==> Wanted(g, o)
  {
  }

  /** That is what the filter leaves of the ordered forms, and how many. */
  lemma FilterLists(forms: seq<Generation>, rs: seq<Generation>, o: Options)
    requires InOrder(rs, forms)
    ensures Lists(Filter(rs, o), forms, o) && |Filter(rs, o)| == |WantedNumbers(forms, o)|
  {
    hide Ordered, InOrder, Wanted, Matches, Filter, Ahead;
    var kept := Filter(rs, o);
    FilterIs(rs, o);
    OrderOf(rs, forms);
    OrderedIsAhead(kept);
    forall k | 0 <= k < |kept|
      ensures kept[k].sourceOrder in WantedNumbers(forms, o)
      ensures kept[k] == forms[kept[k].sourceOrder].(sourceOrder := kept[k].sourceOrder)
    {
      assert kept[k] in kept;
      NumberedMember(forms, rs, kept[k]);
      MatchesIs(kept[k], o);
      WantedKept(forms[kept[k].sourceOrder], kept[k].sourceOrder, o);
    }
    forall i | i in WantedNumbers(forms, o)
      ensures exists k :: 0 <= k < |kept| && kept[k].sourceOrder == i
    {
      var g := forms[i].(sourceOrder := i);
      NumberedMember(forms, rs, g);
      WantedKept(forms[i], i, o);
      MatchesIs(g, o);
      assert g in kept;
    }
    ListsCount(kept, forms, o);
  }

  lemma OrderOf(rs: seq<Generation>, forms: seq<Generation>)
    requires InOrder(rs, forms)
    ensures Ordered(rs)
  {
  }

  lemma OrderedIsAhead(rs: seq<Generation>)
    requires Ordered(rs)
    ensures forall i, j | 0 <= i < j < |rs| :: Ahead(rs[i], rs[j])
  {
    hide CompareGenerations, Ahead;
    forall i, j | 0 <= i < j < |rs|
      ensures Ahead(rs[i], rs[j])
    {
      assert IN_ORDER(rs[i], rs[j]) < 0;
      ComparedIsAhead(rs[i], rs[j]);
    }
  }

  lemma AheadOfItself(g: Generation)
    ensures !Ahead(g, g)
  {
  }

  lemma ListsCount(rs: seq<Generation>, forms: seq<Generation>, o: Options)
    requires Lists(rs, forms, o)
    ensures |rs| == |WantedNumbers(forms, o)|
  {
    hide Ahead, Wanted;
    var ns := seq(|rs|, k requires 0 <= k < |rs| => rs[k].sourceOrder);
    forall i, j | 0 <= i < j < |ns|
      ensures ns[i] != ns[j]
    {
      AheadOfItself(rs[i]);
    }
    var all := CountedOnce(ns);
    forall i
      ensures i in all <==> i in WantedNumbers(forms, o)
    {
      if i in all {
        var k :| 0 <= k < |ns| && ns[k] == i;
        assert rs[k].sourceOrder == i;
      }
      if i in WantedNumbers(forms, o) {
        var k :| 0 <= k < |rs| && rs[k].sourceOrder == i;
        assert ns[k] == i;
      }
    }
    assert all == WantedNumbers(forms, o);
  }

  lemma {:induction false} CountedOnce(ns: seq<nat>) returns (all: set<nat>)
    requires forall i, j | 0 <= i < j < |ns| :: ns[i] != ns[j]
    ensures |all| == |ns| && forall n :: n in all <==> exists k :: 0 <= k < |ns| && ns[k] == n
    decreases |ns|
  {
    all := {};
    if ns != [] {
      var last := ns[|ns| - 1];
      all := CountedOnce(ns[..|ns| - 1]);
      forall n
        ensures n in all + {last} <==> exists k :: 0 <= k < |ns| && ns[k] == n
      {
        if n in all {
          var k :| 0 <= k < |ns| - 1 && ns[..|ns| - 1][k] == n;
          assert ns[k] == n;
        }
      }
      all := all + {last};
    }
  }

  /** The rest of morpheus_generate: more than HARD_LIMIT forms, or more than limit matching
      ones, are an error; otherwise the result is the wanted forms in order. */
  method Generate(forms: seq<Generation>, options: Options, limit: nat)
    returns (status: GenerateStatus, result: seq<Generation>)
    ensures status == RESULT_LIMIT_EXCEEDED <==> |forms| > HARD_LIMIT || |WantedNumbers(forms, options)| > limit
    ensures if status == GENERATE_OK then Lists(result, forms, options) else result == []
    ensures |result| <= limit
  {
    hide Matches, Ordered, Lists, WantedNumbers, InOrder, Ahead, TextsAhead, Wanted;
    result := [];
    var normalized, records := Normalize(forms, HARD_LIMIT);
    if normalized == NORMALIZE_LIMIT {
      return RESULT_LIMIT_EXCEEDED, result;
    }
    FilterLists(forms, records, options);
    var output := 0;
    var input := 0;
    while input != |records|
      invariant 0 <= input <= |records| && output == |Filter(records[..input], options)| <= limit
    {
      assert records[..input + 1][..input] == records[..input];
      if Matches(records[input], options) {
        output := output + 1;
        if output > limit {
          FilterPrefix(records, options, input + 1);
          return RESULT_LIMIT_EXCEEDED, result;
        }
      }
      input := input + 1;
    }
    assert records[..|records|] == records;
    result := Copy(records, options, output);
    status := GENERATE_OK;
  }

  /** The second pass, into a result of the counted size. */
  method Copy(records: seq<Generation>, options: Options, count: nat) returns (result: seq<Generation>)
    requires count == |Filter(records, options)|
    ensures result == Filter(records, options)
  {
    hide Matches;
    var owned := new Generation[count](i => Generation(0, 0, 0, 0, 0, 0, 0, 0, 0, 0, 0, [], [], [], 0));
    var output := 0;
    var input := 0;
    while input != |records|
      invariant 0 <= input <= |records| && output == |Filter(records[..input], options)| <= count
      invariant owned[..output] == Filter(records[..input], options)
    {
      assert records[..input + 1][..input] == records[..input];
      FilterPrefix(records, options, input + 1);
      if Matches(records[input], options) {
        owned[output] := records[input];
        output := output + 1;
        assert owned[..output] == owned[..output - 1] + [records[input]];
      }
      input := input + 1;
    }
    assert records[..|records|] == records;
    result := owned[..];
    assert owned[..] == owned[..output];
  }
}
