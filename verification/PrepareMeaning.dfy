/** What a run of the preparer that PrepareHistory accepts amounts to: what is copied, what is
    expanded and when, and that the index builder can read it. */
module PrepareMeaning {
  import opened ByteStrings
  import opened GenerParse
  import opened PreparedLines
  import opened PrepareHistory
  import Spelling

  // ----- the lines and the paths

  /** The tags of the lines: le, de, and no, aj, vs, wd and vb for the five kinds of record. */
  lemma RoleIs(content: Bytes)
    ensures RoleOf(content) == LEMMA <==> [58, 108, 101, 58] <= content
    ensures RoleOf(content) == DERIVATION <==> [58, 100, 101, 58] <= content
    ensures RoleOf(content) == RECORD <==> 1 <= RecordKind(content) <= 5
    ensures RecordKind(content) == 1 <==> [58, 110, 111, 58] <= content
    ensures RecordKind(content) == 2 <==> [58, 97, 106, 58] <= content
    ensures RecordKind(content) == 3 <==> [58, 118, 115, 58] <= content
    ensures RecordKind(content) == 4 <==> [58, 119, 100, 58] <= content
    ensures RecordKind(content) == 5 <==> [58, 118, 98, 58] <= content
    ensures RoleOf(content) == REQUEST <==> [59] <= content
    ensures RoleOf(content) == CONTINUATION <==> [64] <= content
    ensures Ignored(content) <==> content == [] || [35] <= content || [63] <= content
  {
    TagIs(content, LE_TAG);
    TagIs(content, DE_TAG);
    TagIs(content, NO_TAG);
    TagIs(content, AJ_TAG);
    TagIs(content, VS_TAG);
    TagIs(content, WD_TAG);
    TagIs(content, VB_TAG);
  }

  /** What opens and closes a derivation, and what asks it for a form. */
  lemma KindsOfEvents(e: Event)
    ensures Opens(e) <==> e.Line? && [58, 100, 101, 58] <= e.content
    ensures Closes(e) <==> if e.Line? then [58, 108, 101, 58] <= e.content || 1 <= RecordKind(e.content) <= 3
                           else e.kind == INVALID_DERIVATION
    ensures Asks(e) <==> if e.Line? then [59] <= e.content else e.kind == ZERO_REQUEST
  {
    hide RecordKind, RoleOf;
    RoleIs(e.content);
    OneTag(e.content);
  }

  lemma OneTag(content: Bytes)
    ensures [58, 108, 101, 58] <= content ==> RecordKind(content) == 0
  {
    RoleIs(content);
  }

  /** What an exception is for. */
  lemma AllowsIs(h: seq<Event>, content: Bytes)
    ensures Allows(h, INVALID_DERIVATION, content) <==> [58, 100, 101, 58] <= content
    ensures Allows(h, INVALID_RECORD, content) <==>
            1 <= RecordKind(content) <= 5 && |content| > 4 && (content[4] == 32 || content[4] == 9)
    ensures Allows(h, ORPHAN_CONTINUATION, content) <==> [64] <= content
    ensures Allows(h, ORPHAN_REQUEST, content) <==> [59] <= content && Live(h) == NoDerivation
    ensures Allows(h, ZERO_CONTINUATION, content) <==> [64] <= content && BaseOf(h) == Derived
    ensures Allows(h, ZERO_REQUEST, content) <==>
            [59] <= content && Live(h).Some? && 0 < |FirstToken(content[1..])| < 1024
  {
    hide Live, BaseOf, FirstToken;
    TagIs(content, DE_TAG);
  }

  /** A line that an exception names is read as excepted, by the first that does; any other as
      itself. */
  lemma EventIs(es: seq<SourceException>, path: Bytes, n: nat, content: Bytes)
    ensures var e := EventFor(es, path, n, content);
      if exists i :: 0 <= i < |es| && Matches(es[i], path, n) then
        e.Excepted? && e.index < |es| && Matches(es[e.index], path, n) && e.kind == es[e.index].kind && e.content == content
        && forall i | 0 <= i < e.index :: !Matches(es[i], path, n)
      else e == Line(content)
  {
    hide Matches;
  }

  lemma TagIs(content: Bytes, tag: Bytes)
    requires |tag| == 4
    ensures tag <= content <==> |content| >= 4 && content[..4] == tag
    ensures tag <= content ==> content[0] == tag[0] && content[1] == tag[1] && content[2] == tag[2]
  {
  }

  /** The path of an exception is a file name or the end of a path, after a slash. */
  lemma SuffixIs(path: Bytes, suffix: Bytes)
    ensures PathHasSuffix(path, suffix) <==> path == suffix || exists dir :: path == dir + [47] + suffix
  {
    if PathHasSuffix(path, suffix) && |path| != |suffix| {
      var n := |path| - |suffix|;
      assert path == path[..n - 1] + [47] + suffix;
    }
    forall dir | path == dir + [47] + suffix
      ensures PathHasSuffix(path, suffix)
    {
      assert path[|dir| + 1..] == suffix && path[|dir|] == 47;
    }
  }

  // ----- the state of the machine

  /** A continuation of a derivation needs a live one, and nothing is live or continued before the
      first lemma. */
  lemma {:induction false} BaseNeedsLive(f: Expander, h: seq<Event>)
    requires Accepted(f, h)
    ensures BaseOf(h) == Derived ==> Live(h).Some?
    ensures Live(h).Some? || BaseOf(h) != NoBase ==> Started(h)
    decreases |h|
  {
    hide FlushOk, Started, RoleOf, DerivationOf, BasePrefix, ContinuationOk, RequestOk;
    if h != [] {
      var front, e := h[..|h| - 1], h[|h| - 1];
      BaseNeedsLive(f, front);
      assert h == front + [e];
      StartedMore(front, e);
    }
  }

  /** A derivation is live as long as nothing opens another one or closes it, and it has been asked
      for a form exactly if there was a request since. */
  lemma {:induction false} LiveSince(h: seq<Event>, i: nat, k: nat)
    requires i < k <= |h| && Opens(h[i]) && forall j | i < j < k :: !Opens(h[j]) && !Closes(h[j])
    ensures |h[i].content| >= 4 && Live(h[..k]) == DerivationOf(h[i].content[4..])
    ensures Asked(h[..k]) <==> exists j :: i < j < k && Asks(h[j])
    decreases k
  {
    hide DerivationOf, Closes, Asks;
    var n := k - 1;
    assert h[..k][..n] == h[..n] && h[..k][n] == h[n];
    if n == i {
      OpensAsksNot(h[i]);
    } else {
      LiveSince(h, i, n);
    }
  }

  lemma OpensAsksNot(e: Event)
    requires Opens(e)
    ensures !Asks(e) && !Closes(e)
  {
  }

  /** A :de: line: the stem, the name and the keys, which may be empty. */
  ghost predicate Derives(s: Bytes, stem: Bytes, name: Bytes, keys: Bytes) {
    && 0 < |stem| < Spelling.MAXWORDSIZE && NoBlank(stem)
    && 0 < |name| < Spelling.MAXWORDSIZE && NoBlank(name) && |keys| < LONGSTRING && Bounded(keys)
    && (forall i | 0 <= i < |name| :: 97 <= name[i] <= 122 || 65 <= name[i] <= 90 || 48 <= name[i] <= 57 || name[i] == 95)
    && exists lead, gap, more, trail ::
         DerivesBy(s, stem, name, keys, lead, gap, more, trail)
  }

  ghost predicate DerivesBy(s: Bytes, stem: Bytes, name: Bytes, keys: Bytes, lead: Bytes, gap: Bytes, more: Bytes, trail: Bytes) {
    && s == lead + stem + gap + name + more + keys + trail
    && Blanks(lead) && gap != [] && Blanks(gap) && Blanks(more) && Whites(trail)
    && (keys != [] ==> more != []) && (keys == [] ==> more == [] ==> trail == [])
    && (keys == [] && trail != [] ==> trail[0] !in [32, 9])
  }

  /** They are what the line is read as. */
  lemma DerivationIs(s: Bytes, stem: Bytes, name: Bytes, keys: Bytes)
    ensures DerivationOf(s) == Some(Derivation(stem, name, keys)) <==> Derives(s, stem, name, keys)
  {
    hide FirstToken, AfterToken, Trimmed, Blanks, NoBlank, Bounded, Whites, DerivesBy;
    if Derives(s, stem, name, keys) {
      var lead, gap, more, trail :| DerivesBy(s, stem, name, keys, lead, gap, more, trail);
      DerivationRead(s, stem, name, keys, lead, gap, more, trail);
    }
    if DerivationOf(s) == Some(Derivation(stem, name, keys)) {
      DerivationSpelled(s, stem, name, keys);
    }
  }

  lemma DerivationRead(s: Bytes, stem: Bytes, name: Bytes, keys: Bytes, lead: Bytes, gap: Bytes, more: Bytes, trail: Bytes)
    requires DerivesBy(s, stem, name, keys, lead, gap, more, trail)
    requires stem != [] && NoBlank(stem) && name != [] && NoBlank(name) && Bounded(keys)
    ensures FirstToken(s) == stem && FirstToken(AfterToken(s)) == name && Trimmed(AfterToken(AfterToken(s))) == keys
  {
    hide FirstToken, AfterToken, Trimmed;
    var end := more + keys + trail;
    var rest := gap + name + end;
    assert s == lead + stem + rest;
    assert rest[0] == gap[0];
    assert more != [] ==> end[0] == more[0];
    assert more == [] ==> end == [];
    TokenIs(lead, stem, rest);
    TokenIs(gap, name, end);
    TrimmedIs(more, keys, trail);
  }

  lemma DerivationSpelled(s: Bytes, stem: Bytes, name: Bytes, keys: Bytes)
    requires FirstToken(s) == stem && FirstToken(AfterToken(s)) == name && Trimmed(AfterToken(AfterToken(s))) == keys
    requires stem != [] && name != []
    ensures NoBlank(stem) && NoBlank(name) && Bounded(keys)
    ensures exists lead, gap, more, trail :: DerivesBy(s, stem, name, keys, lead, gap, more, trail)
  {
    hide FirstToken, AfterToken, Trimmed;
    var lead := TokenSplits(s);
    var rest := AfterToken(s);
    var gap := TokenSplits(rest);
    var end := AfterToken(rest);
    var more, k, trail := Margins(end);
    TrimmedIs(more, k, trail);
    assert s == lead + stem + gap + name + more + keys + trail;
    assert DerivesBy(s, stem, name, keys, lead, gap, more, trail);
  }

  /** What is written for a derivation without being asked for: on the event k, or at the end of
      the file. */
  function UnaskedAt(f: Expander, h: seq<Event>, k: nat): seq<Item>
    requires k <= |h|
  {
    if k == |h| || Flushes(h[k]) then Flush(f, h[..k]) else []
  }

  /** A derivation that is opened is expanded of itself at most once: at the event that ends it,
      or at the end of the file, if it was not asked for a form before, unless the event is a
      noun, adjective or verb record, which drops it. */
  lemma ExpandedOnce(f: Expander, h: seq<Event>, i: nat, k: nat)
    requires FileAccepted(f, h) && i < k <= |h| && Opens(h[i])
    requires forall j | i < j < k :: !Opens(h[j]) && !Closes(h[j])
    requires k == |h| || Opens(h[k]) || Closes(h[k])
    ensures DerivationOf(h[i].content[4..]).Some?
    ensures forall j | i < j < k :: UnaskedAt(f, h, j) == []
    ensures var d := DerivationOf(h[i].content[4..]).derivation;
      UnaskedAt(f, h, k) ==
      if (exists j :: i < j < k && Asks(h[j])) || (k < |h| && Reads(h[k], RECORD)) then []
      else [Expanded(f(d, [112, 114]), d, [112, 114])]
  {
    hide Opens, Closes, Asks, DerivationOf, Expands, Flushes, Live, Asked, Accepts, RoleOf;
    LiveSince(h, i, k);
    AcceptedTo(f, h, i + 1);
    AcceptedTo(f, h, k);
    OpenedIsSome(f, h[..i + 1]);
    assert h[..i + 1][i] == h[i];
    FlushKinds(h, k);
    forall j | i < j < k
      ensures UnaskedAt(f, h, j) == []
    {
      FlushKinds(h, j);
    }
    if k < |h| {
      AcceptedTo(f, h, k + 1);
      assert h[..k + 1][..k] == h[..k];
      FlushNeeded(f, h[..k], h[k]);
    } else {
      assert h[..k] == h;
    }
  }

  lemma FlushNeeded(f: Expander, h: seq<Event>, e: Event)
    requires Accepts(f, h, e)
    ensures Flushes(e) ==> FlushOk(f, h)
  {
    hide FlushOk, Flushes, RoleOf;
  }

  /** An event that ends a derivation expands it, unless it is a record. */
  lemma FlushKinds(h: seq<Event>, k: nat)
    requires k <= |h|
    ensures k < |h| && Flushes(h[k]) ==> Opens(h[k]) || Closes(h[k])
    ensures k < |h| && (Opens(h[k]) || Closes(h[k])) ==> (Flushes(h[k]) <==> !Reads(h[k], RECORD))
  {
    hide RecordKind;
  }

  lemma OpenedIsSome(f: Expander, h: seq<Event>)
    requires Accepted(f, h) && h != [] && Opens(h[|h| - 1])
    ensures |h[|h| - 1].content| >= 4 && DerivationOf(h[|h| - 1].content[4..]).Some?
  {
    hide FlushOk, DerivationOf, RecordKind;
  }

  lemma {:induction false} AcceptedTo(f: Expander, h: seq<Event>, k: nat)
    requires Accepted(f, h) && k <= |h|
    ensures Accepted(f, h[..k])
    decreases |h|
  {
    hide Accepts;
    if k == |h| {
      assert h[..k] == h;
    } else {
      assert h[..|h| - 1][..k] == h[..k];
      AcceptedTo(f, h[..|h| - 1], k);
    }
  }

  lemma TokensOf(a: Byte, b: Byte)
    requires !Blank(a) && !Blank(b)
    ensures var s := [a, 32, b];
      FirstToken(s) == [a] && AfterToken(s) == [32, b] && FirstToken([32, b]) == [b] && AfterToken([32, b]) == []
  {
    var s := [a, 32, b];
    var r := [32, b];
    assert SkipBlanks(s, 0) == 0 && SkipToken(s, 1) == 1 && SkipToken(s, 0) == 1;
    assert SkipBlanks(r, 0) == SkipBlanks(r, 1) == 1 && SkipToken(r, 2) == 2 && SkipToken(r, 1) == 2;
    assert s[1..] == r;
  }

  const LEMMA_A: Bytes := LE_TAG + [97]
  const DERIVATION_AB: Bytes := DE_TAG + [97, 32, 98]
  const NOUN_AB: Bytes := NO_TAG + [97, 32, 98]

  lemma NounPrefix()
    ensures BasePrefix(NOUN_AB).Prefix? && RecordKind(NOUN_AB) == 1
  {
    var s := NOUN_AB;
    assert s == [58, 110, 111, 58, 97, 32, 98];
    assert SkipToken(s, 5) == 5 && SkipToken(s, 4) == 5 && SkipToken(s, 3) == 5 && SkipToken(s, 2) == 5 && SkipToken(s, 1) == 5;
    assert SkipToken(s, 0) == 5;
    assert SkipBlanks(s, 6) == 6 && SkipBlanks(s, 5) == 6;
    assert SkipToken(s, 7) == 7 && SkipToken(s, 6) == 7;
  }

  lemma RolesOf()
    ensures RoleOf(LEMMA_A) == LEMMA && RoleOf(DERIVATION_AB) == DERIVATION && RoleOf(NOUN_AB) == RECORD
    ensures Trimmed(LEMMA_A[4..]) == [97] && DERIVATION_AB[4..] == [97, 32, 98] && DERIVATION_AB[4] == 97
  {
    assert LEMMA_A[4..] == [97];
    assert DERIVATION_AB[1] == 100 && NOUN_AB[1] == 110;
    assert !(LE_TAG <= DERIVATION_AB) && !(LE_TAG <= NOUN_AB);
    NounPrefix();
  }

  lemma DerivationAb()
    ensures DerivationOf([97, 32, 98]).Some?
  {
    TokensOf(97, 98);
    assert Trimmed([]) == [];
  }

  /** There are derivations that are never expanded: those a direct record drops. */
  lemma DroppedExists(f: Expander)
    ensures var h := [Line(LEMMA_A), Line(DERIVATION_AB), Line(NOUN_AB)];
      FileAccepted(f, h) && Opens(h[1]) && FileItems(f, h) == [Copied(LEMMA_A), Copied(NOUN_AB)]
  {
    RolesOf();
    NounPrefix();
    DerivationAb();
    hide RoleOf, Trimmed, DerivationOf, BasePrefix, RecordKind, Expands, Accepts, Emission;
    var h := [Line(LEMMA_A), Line(DERIVATION_AB), Line(NOUN_AB)];
    var g: seq<Event> := [Line(LEMMA_A)];
    assert h[..2][..1] == g && g[..0] == [] && h[..2] == [Line(LEMMA_A), Line(DERIVATION_AB)];
    OnLemma(f, [], LEMMA_A);
    OnDerivation(f, g, DERIVATION_AB);
    OnRecord(f, h[..2], NOUN_AB);
    assert Reads(g[0], LEMMA) && Reads(h[..2][0], LEMMA);
    assert Live(g) == NoDerivation;
    assert Accepted(f, g) && Output(f, g) == [Copied(LEMMA_A)];
    assert Accepted(f, h[..2]) && Output(f, h[..2]) == [Copied(LEMMA_A)];
  }

  /** A request is expanded for the derivation it stands behind. */
  lemma RequestExpands(f: Expander, h: seq<Event>, i: nat, k: nat, d: Derivation, lead: Bytes, request: Bytes, trail: Bytes)
    requires Accepted(f, h) && i < k < |h| && Opens(h[i]) && Reads(h[k], REQUEST)
    requires forall j | i < j < k :: !Opens(h[j]) && !Closes(h[j])
    requires |h[i].content| >= 4 && Derives(h[i].content[4..], d.stem, d.name, d.keys)
    requires h[k].content == [59] + lead + request + trail && Blanks(lead) && Whites(trail) && request != [] && Bounded(request)
    ensures Emission(f, h[..k], h[k]) == [Expanded(f(d, request), d, request)]
  {
    hide Opens, Closes, DerivationOf, Derives, Expands, Accepts, Emission, Trimmed, RoleOf;
    DerivationIs(h[i].content[4..], d.stem, d.name, d.keys);
    assert h[k].content[1..] == lead + request + trail;
    TrimmedIs(lead, request, trail);
    LiveSince(h, i, k);
    AcceptedTo(f, h, k + 1);
    assert h[..k + 1][..k] == h[..k];
    OnRequest(f, h[..k], h[k].content);
    IsSome(f, Live(h[..k]), Trimmed(h[k].content[1..]));
  }

  lemma IsSome(f: Expander, d: MaybeDerivation, request: Bytes)
    requires Expands(f, d, request)
    ensures d.Some?
  {
  }

  // ----- what a continuation continues

  /** Another record, derivation or request, or the end of a derivation. */
  predicate Rebases(e: Event) {
    Reads(e, RECORD) || Opens(e) || Asks(e) || Closes(e)
  }

  /** As long as nothing of the kind comes, a continuation continues the same. */
  lemma {:induction false} BaseSince(h: seq<Event>, i: nat, k: nat)
    requires i < k <= |h| && forall j | i < j < k :: !Rebases(h[j])
    ensures BaseOf(h[..k]) == BaseOf(h[..i + 1]) && Request(h[..k]) == Request(h[..i + 1])
    decreases k
  {
    hide RoleOf, Opens, Closes, Asks, BasePrefix, FirstToken;
    var n := k - 1;
    if n > i {
      assert h[..k][..n] == h[..n] && h[..k][n] == h[n];
      BaseSince(h, i, n);
    }
  }

  /** Behind a record it writes the first two tokens of that line, as they stand there, and the rest
      of its own line. */
  lemma RecordContinued(f: Expander, h: seq<Event>, i: nat, k: nat, a: Bytes, gap: Bytes, b: Bytes, rest: Bytes)
    requires Accepted(f, h) && i < k < |h| && Reads(h[i], RECORD) && Reads(h[k], CONTINUATION)
    requires forall j | i < j < k :: !Rebases(h[j])
    requires TwoTokens(h[i].content, a, gap, b, rest)
    ensures h[k].content != [] && Emission(f, h[..k], h[k]) == [Continued(a + gap + b + h[k].content[1..])]
  {
    hide Rebases, Accepts, Emission, RoleOf, BasePrefix, Request, BaseOf, TwoTokens;
    AcceptedTo(f, h, i + 1);
    assert h[..i + 1][..i] == h[..i] && h[..i + 1][i] == h[i];
    OnRecord(f, h[..i], h[i].content);
    PrefixIs(h[i].content, a, gap, b, rest);
    RecordBase(h[..i + 1]);
    BaseSince(h, i, k);
    OnContinuation(f, h[..k], h[k].content);
  }

  /** A record that is accepted has two tokens. */
  lemma RecordHasTwo(f: Expander, h: seq<Event>, i: nat)
    requires Accepted(f, h) && i < |h| && Reads(h[i], RECORD)
    ensures exists a, gap, b, rest :: TwoTokens(h[i].content, a, gap, b, rest)
  {
    hide Accepts, Emission, BasePrefix, TwoTokens;
    AcceptedTo(f, h, i + 1);
    assert h[..i + 1][..i] == h[..i] && h[..i + 1][i] == h[i];
    OnRecord(f, h[..i], h[i].content);
    TagInFront(h[i].content);
    PrefixNeedsTwo(h[i].content);
  }

  lemma TagInFront(content: Bytes)
    requires RecordKind(content) != 0
    ensures content != [] && content[0] == 58
  {
  }

  lemma RecordBase(h: seq<Event>)
    requires h != [] && Reads(h[|h| - 1], RECORD) && BasePrefix(h[|h| - 1].content).Prefix?
    ensures BaseOf(h) == Direct(BasePrefix(h[|h| - 1].content).text)
  {
    hide RoleOf, BasePrefix;
  }

  /** Behind the last request r for a derivation i it asks for the principal part of that request
      and its own forms. */
  lemma RequestContinued(f: Expander, h: seq<Event>, i: nat, r: nat, k: nat)
    requires Accepted(f, h) && i < r < k < |h| && Opens(h[i]) && Asks(h[r]) && Reads(h[k], CONTINUATION)
    requires forall j | i < j < k :: !Opens(h[j]) && !Closes(h[j])
    requires forall j | r < j < k :: !Asks(h[j]) && !Reads(h[j], RECORD)
    ensures |h[i].content| >= 4 && DerivationOf(h[i].content[4..]).Some? && h[r].content != [] && h[k].content != []
    ensures var d, own := DerivationOf(h[i].content[4..]).derivation, Trimmed(h[k].content[1..]);
      var request := FirstToken(h[r].content[1..]) + (if own == [] then [] else [32]) + own;
      Emission(f, h[..k], h[k]) == [Expanded(f(d, request), d, request)]
  {
    hide Opens, Closes, Asks, Accepts, Emission, RoleOf, DerivationOf, Trimmed, FirstToken, Expands, Live, BaseOf, Request;
    LiveSince(h, i, k);
    AskedBase(f, h, r);
    BaseSince(h, r, k);
    AcceptedTo(f, h, k + 1);
    assert h[..k + 1][..k] == h[..k];
    OnContinuation(f, h[..k], h[k].content);
    IsSome(f, Live(h[..k]), ContinuedRequest(h[..k], h[k].content));
  }

  lemma AskedBase(f: Expander, h: seq<Event>, r: nat)
    requires Accepted(f, h) && r < |h| && Asks(h[r])
    ensures h[r].content != [] && BaseOf(h[..r + 1]) == Derived && Request(h[..r + 1]) == FirstToken(h[r].content[1..])
  {
    hide FirstToken, Accepts, BaseOf, Request, Asks;
    AcceptedTo(f, h, r + 1);
    assert h[..r + 1][..r] == h[..r] && h[..r + 1][r] == h[r];
    AskedOn(f, h[..r], h[r]);
    RequestBase(h[..r + 1]);
  }

  lemma AskedOn(f: Expander, h: seq<Event>, e: Event)
    requires Accepts(f, h, e) && Asks(e)
    ensures e.content != []
  {
    hide FlushOk, Flushes, RoleOf, RequestOk, Expands, Live, FirstToken;
    if e.Line? {
      OnRequest(f, h, e.content);
    } else {
      OnException(f, h, e);
    }
  }

  lemma RequestBase(h: seq<Event>)
    requires h != [] && Asks(h[|h| - 1]) && h[|h| - 1].content != []
    ensures BaseOf(h) == Derived && Request(h) == FirstToken(h[|h| - 1].content[1..])
  {
    hide FirstToken, RoleOf;
  }

  /** One of the two is always there: a continuation behind anything else is an error. */
  lemma ContinuationBehind(f: Expander, h: seq<Event>, k: nat) returns (r: nat)
    requires Accepted(f, h) && k < |h| && Reads(h[k], CONTINUATION)
    ensures r < k && (Reads(h[r], RECORD) || Asks(h[r])) && forall j | r < j < k :: !Rebases(h[j])
  {
    hide Rebases, Accepts, Emission, RoleOf, Request, BaseOf;
    AcceptedTo(f, h, k + 1);
    assert h[..k + 1][..k] == h[..k];
    OnContinuation(f, h[..k], h[k].content);
    r := LastRebase(h, k);
    BaseSince(h, r, k);
    assert h[..r + 1][r] == h[r];
    NotBehind(h[..r + 1]);
  }

  lemma NotBehind(h: seq<Event>)
    requires h != [] && Rebases(h[|h| - 1])
    ensures var e := h[|h| - 1];
      Reads(e, RECORD) || Asks(e) || BaseOf(h) == NoBase || (BaseOf(h) == Derived && Request(h) == [])
  {
    hide RoleOf;
  }

  lemma {:induction false} LastRebase(h: seq<Event>, k: nat) returns (r: nat)
    requires k <= |h| && BaseOf(h[..k]) != NoBase
    ensures r < k && Rebases(h[r]) && forall j | r < j < k :: !Rebases(h[j])
    decreases k
  {
    hide RoleOf, Opens, Closes, Asks;
    r := k - 1;
    assert h[..k][..r] == h[..r] && h[..k][r] == h[r];
    if !Rebases(h[r]) {
      r := LastRebase(h, r);
    }
  }

  // ----- what is copied

  function Copies(items: seq<Item>): seq<Bytes> {
    if items == [] then []
    else Copies(items[..|items| - 1]) + if items[|items| - 1].Copied? then [items[|items| - 1].text] else []
  }

  lemma {:induction false} CopiesAppend(a: seq<Item>, b: seq<Item>)
    ensures Copies(a + b) == Copies(a) + Copies(b)
    decreases |b|
  {
    if b == [] {
      assert a + b == a;
    } else {
      CopiesAppend(a, b[..|b| - 1]);
      assert (a + b)[..|a + b| - 1] == a + b[..|b| - 1];
    }
  }

  lemma CopiesOfExpansion(f: Expander, d: MaybeDerivation, request: Bytes)
    ensures Copies(Expansion(f, d, request)) == []
  {
    hide Expands;
  }

  /** The lines that stand for themselves: lemmas and direct records. */
  predicate IsDirect(content: Bytes) {
    LE_TAG <= content || RecordKind(content) != 0
  }

  function DirectLines(h: seq<Event>): seq<Bytes> {
    if h == [] then []
    else
      var e := h[|h| - 1];
      DirectLines(h[..|h| - 1]) + if e.Line? && IsDirect(e.content) then [e.content] else []
  }

  lemma CopiesOfFlush(f: Expander, h: seq<Event>)
    ensures Copies(Flush(f, h)) == []
  {
    hide Expansion, Due, Live;
    CopiesOfExpansion(f, Live(h), PR);
  }

  lemma DirectRole(content: Bytes)
    ensures IsDirect(content) <==> RoleOf(content) == LEMMA || RoleOf(content) == RECORD
  {
  }

  lemma CopiedOn(f: Expander, h: seq<Event>, e: Event)
    ensures Copies(Emission(f, h, e)) == if e.Line? && IsDirect(e.content) then [e.content] else []
  {
    hide Accepts, Emission, Expansion, Flush, FlushOk, RoleOf, IsDirect, Copies;
    CopiesOfFlush(f, h);
    OneCopy(e.content);
    NoCopies();
    DirectRole(e.content);
    if e.Excepted? {
      OnException(f, h, e);
    } else {
      match RoleOf(e.content) {
        case LEMMA =>
          OnLemma(f, h, e.content);
          CopiesAppend(Flush(f, h), [Copied(e.content)]);
        case RECORD =>
          OnRecord(f, h, e.content);
        case CONTINUATION =>
          OnContinuation(f, h, e.content);
          CopiesOfExpansion(f, Live(h), ContinuedRequest(h, e.content));
          if BaseOf(h).Direct? {
            OneCopy(BaseOf(h).prefix + e.content[1..]);
          }
        case DERIVATION =>
          OnDerivation(f, h, e.content);
        case REQUEST =>
          OnRequest(f, h, e.content);
          CopiesOfExpansion(f, Live(h), Trimmed(e.content[1..]));
        case OTHER =>
          OnOther(f, h, e.content);
      }
    }
  }

  lemma NoCopies()
    ensures Copies([]) == []
  {
  }

  lemma OneCopy(text: Bytes)
    ensures Copies([Copied(text)]) == [text] && Copies([Continued(text)]) == []
  {
    var c: seq<Item> := [Copied(text)];
    var d: seq<Item> := [Continued(text)];
    assert c[..0] == [] && d[..0] == [];
  }

  /** Among the lines written for a file, the copied ones are its lemmas and direct records that no
      exception takes, in order. */
  lemma {:induction false} CopiesInOrder(f: Expander, h: seq<Event>)
    ensures Copies(Output(f, h)) == DirectLines(h) && Copies(FileItems(f, h)) == DirectLines(h)
    decreases |h|
  {
    hide Emission, Expansion, IsDirect, Live;
    if h != [] {
      var front, e := h[..|h| - 1], h[|h| - 1];
      CopiesInOrder(f, front);
      CopiedOn(f, front, e);
      CopiesAppend(Output(f, front), Emission(f, front, e));
    }
    CopiesAppend(Output(f, h), Flush(f, h));
    CopiesOfExpansion(f, Live(h), PR);
  }

  /** Those lines, picked from the input. */
  function Kept(es: seq<SourceException>, path: Bytes, lines: seq<Bytes>): seq<Bytes> {
    if lines == [] then []
    else
      var content := Trimmed(lines[|lines| - 1]);
      Kept(es, path, lines[..|lines| - 1]) +
      if IsDirect(content) && FirstMatch(es, path, |lines|, 0) == |es| then [content] else []
  }

  lemma DirectAlone(content: Bytes)
    requires IsDirect(content)
    ensures !Ignored(content) && content[0] != SEMICOLON && content[0] != AT_SIGN
  {
    assert content[0] == 58;
  }

  lemma {:induction false} DirectLinesAre(es: seq<SourceException>, path: Bytes, lines: seq<Bytes>)
    ensures DirectLines(ScanLines(es, path, lines).events) == Kept(es, path, lines)
    decreases |lines|
  {
    hide Trimmed, IsDirect, FirstMatch, Ignored;
    if lines != [] {
      var front, content := lines[..|lines| - 1], Trimmed(lines[|lines| - 1]);
      DirectLinesAre(es, path, front);
      if IsDirect(content) {
        DirectAlone(content);
      }
      Back(ScanLines(es, path, front).events, EventFor(es, path, |lines|, content));
    }
  }

  function RunKept(es: seq<SourceException>, files: seq<SourceFile>): seq<Bytes> {
    if files == [] then []
    else
      var file := files[|files| - 1];
      RunKept(es, files[..|files| - 1]) + Kept(es, file.path, Lines(file.input))
  }

  /** So it is over all files: nothing of them is lost, added, changed or moved. */
  lemma {:induction false} RunCopies(f: Expander, es: seq<SourceException>, files: seq<SourceFile>)
    ensures Copies(RunItems(f, es, files)) == RunKept(es, files)
    decreases |files|
  {
    hide FileItems, Kept, Lines, ScanLines;
    if files != [] {
      var front, file := files[..|files| - 1], files[|files| - 1];
      var h := FileEvents(es, file.path, file.input);
      RunCopies(f, es, front);
      CopiesAppend(RunItems(f, es, front), FileItems(f, h));
      CopiesInOrder(f, h);
      DirectLinesAre(es, file.path, Lines(file.input));
    }
  }

  // ----- what the builder sees

  ghost predicate CleanEvents(h: seq<Event>) {
    forall i {:trigger h[i]} | 0 <= i < |h| :: NoBreak(h[i].content)
  }

  /** A line of a file has no break but at its end. */
  ghost predicate CleanLine(l: Bytes) {
    Text(l) && forall i | 0 <= i < |l| - 1 :: l[i] != LF
  }

  lemma {:induction false} LinesClean(input: Bytes)
    ensures forall i {:trigger Lines(input)[i]} | 0 <= i < |Lines(input)| :: CleanLine(Lines(input)[i])
    decreases |input|
  {
    hide CleanLine;
    if input != [] {
      FirstLineClean(input);
      LinesClean(input[FirstLine(input)..]);
    }
  }

  lemma FirstLineClean(input: Bytes)
    requires input != []
    ensures CleanLine(CString(input[..FirstLine(input)], 0))
  {
    hide FirstLine, CString;
    LineBreaks(input, 0);
    assert input[0..] == input;
    assert input[0..0 + FirstLine(input)] == input[..FirstLine(input)];
  }

  lemma {:induction false} ScanClean(es: seq<SourceException>, path: Bytes, lines: seq<Bytes>)
    requires forall i {:trigger lines[i]} | 0 <= i < |lines| :: CleanLine(lines[i])
    ensures CleanEvents(ScanLines(es, path, lines).events)
    decreases |lines|
  {
    hide Trimmed, NoBreak, FirstMatch, Ignored;
    if lines != [] {
      ScanClean(es, path, lines[..|lines| - 1]);
      ContentClean(lines[|lines| - 1]);
    }
  }

  /** The prefix of a record that may be continued begins with its tag. */
  lemma {:induction false} PrefixKnown(h: seq<Event>)
    requires CleanEvents(h) && BaseOf(h).Direct?
    ensures NoBreak(BaseOf(h).prefix) && RecordKind(BaseOf(h).prefix) != 0
    decreases |h|
  {
    hide RecordKind, NoBreak, BasePrefix, DerivationOf;
    var front, e := h[..|h| - 1], h[|h| - 1];
    if Reads(e, RECORD) {
      PrefixKeepsTag(e.content);
    } else {
      PrefixKnown(front);
    }
  }

  lemma ContinuedTag(prefix: Bytes, content: Bytes)
    requires NoBreak(prefix) && RecordKind(prefix) != 0 && content != [] && NoBreak(content)
    ensures Emitted(prefix + content[1..]) && RecordKind(prefix + content[1..]) != 0
  {
    var line := prefix + content[1..];
    assert line[..4] == prefix[..4];
  }

  ghost predicate AllKnown(items: seq<Item>) {
    forall i {:trigger items[i]} | 0 <= i < |items| :: Emitted(items[i].text)
  }

  lemma ExpansionKnown(f: Expander, d: MaybeDerivation, request: Bytes)
    ensures AllKnown(Expansion(f, d, request))
  {
    hide NoBreak;
  }

  lemma EmissionKnown(f: Expander, h: seq<Event>, e: Event)
    requires CleanEvents(h) && NoBreak(e.content) && Accepts(f, h, e)
    ensures AllKnown(Emission(f, h, e))
  {
    hide Expansion, NoBreak, RecordKind, Emitted, CleanEvents, BaseOf, Live, Due, FlushOk, ContinuedRequest;
    ExpansionKnown(f, Live(h), PR);
    if Reads(e, CONTINUATION) {
      ExpansionKnown(f, Live(h), ContinuedRequest(h, e.content));
      if BaseOf(h).Direct? {
        PrefixKnown(h);
        ContinuedTag(BaseOf(h).prefix, e.content);
      }
    } else if Reads(e, REQUEST) {
      ExpansionKnown(f, Live(h), Trimmed(e.content[1..]));
    } else if Reads(e, LEMMA) || Reads(e, RECORD) {
      DirectKnown(e.content);
    }
  }

  lemma DirectKnown(content: Bytes)
    requires NoBreak(content) && (RoleOf(content) == LEMMA || RoleOf(content) == RECORD)
    ensures Emitted(content)
  {
  }

  /** Before the first lemma nothing is written, and with it the lemma. */
  lemma {:induction false} LemmaFirst(f: Expander, h: seq<Event>)
    requires Accepted(f, h)
    ensures Started(h) <==> Output(f, h) != []
    ensures Output(f, h) != [] ==> LE_TAG <= Output(f, h)[0].text
    decreases |h|
  {
    hide Emission, Accepts, Started;
    if h == [] {
      NotStarted();
    } else {
      var front, e := h[..|h| - 1], h[|h| - 1];
      LemmaFirst(f, front);
      assert h == front + [e];
      StartedMore(front, e);
      if !Started(front) {
        BaseNeedsLive(f, front);
        NothingBefore(f, front, e);
      }
    }
  }

  lemma NotStarted()
    ensures !Started([])
  {
  }

  lemma NothingBefore(f: Expander, h: seq<Event>, e: Event)
    requires !Started(h) && Live(h) == NoDerivation && BaseOf(h) == NoBase && Accepts(f, h, e)
    ensures Emission(f, h, e) == if Reads(e, LEMMA) then [Copied(e.content)] else []
    ensures Reads(e, LEMMA) ==> LE_TAG <= e.content
  {
    hide Started, RecordKind, DerivationOf, BasePrefix;
  }

  lemma {:induction false} OutputKnown(f: Expander, h: seq<Event>)
    requires Accepted(f, h) && CleanEvents(h)
    ensures AllKnown(Output(f, h)) && AllKnown(FileItems(f, h))
    decreases |h|
  {
    hide Emission, Accepts, Emitted, NoBreak, Expansion, Live;
    if h != [] {
      OutputKnown(f, h[..|h| - 1]);
      EmissionKnown(f, h[..|h| - 1], h[|h| - 1]);
    }
    ExpansionKnown(f, Live(h), PR);
  }

  /** The lines written for a file are known to the builder, a lemma first. */
  lemma FileKnown(f: Expander, es: seq<SourceException>, applied: seq<nat>, path: Bytes, input: Bytes)
    requires FileOk(f, es, applied, path, input)
    ensures var items := FileItems(f, FileEvents(es, path, input));
      AllKnown(items) && (items != [] ==> LE_TAG <= items[0].text)
  {
    hide Accepted, AllHonoured, Lines, ScanLines, Output, Flush, FlushOk, AllKnown, CleanEvents;
    var h := FileEvents(es, path, input);
    LinesClean(input);
    ScanClean(es, path, Lines(input));
    OutputKnown(f, h);
    LemmaFirst(f, h);
    if Output(f, h) == [] {
      BaseNeedsLive(f, h);
      NothingDue(f, h);
    }
  }

  lemma NothingDue(f: Expander, h: seq<Event>)
    requires Live(h) == NoDerivation
    ensures Flush(f, h) == []
  {
  }

  lemma {:induction false} RunKnown(f: Expander, es: seq<SourceException>, files: seq<SourceFile>)
    requires RunOk(f, es, files)
    ensures AllKnown(RunItems(f, es, files))
    ensures RunItems(f, es, files) != [] ==> LE_TAG <= RunItems(f, es, files)[0].text
    decreases |files|
  {
    hide FileOk, FileItems, FileEvents, RunApplied, Emitted;
    if files != [] {
      var front, file := files[..|files| - 1], files[|files| - 1];
      RunKnown(f, es, front);
      FileKnown(f, es, RunApplied(es, front), file.path, file.input);
    }
  }

  /** The builder on the output of a run: it never finds a record before a lemma or an unexpanded
      record, and takes it exactly if it takes every line. */
  lemma BuilderReads(f: Expander, es: seq<SourceException>, files: seq<SourceFile>)
    requires RunOk(f, es, files)
    ensures var lines := Texts(RunItems(f, es, files));
      && Tolerable(FeedAll(Reading([], false), Lines(Written(lines))))
      && (FeedAll(Reading([], false), Lines(Written(lines))).Reading? <==> forall i {:trigger lines[i]} | 0 <= i < |lines| :: Taken(lines[i]))
  {
    hide Emitted, Taken, Tolerable, FeedAll, Lines, Written, RunItems, RunOk;
    RunKnown(f, es, files);
    BuilderTakes(Reading([], false), Texts(RunItems(f, es, files)));
  }
}
