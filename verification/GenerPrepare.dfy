/** tools/gener-source-preparer.c: the line-driven state machine whose output the index builder
    reads.  Its flags are proved to mean what PrepareHistory finds by looking back. */
module GenerPrepare {
  import opened ByteStrings
  import opened GenerParse
  import opened PreparedLines
  import opened PrepareHistory
  import PrepareMeaning
  import Sha256
  import Spelling

  /** What one line or exception adds to the events and to the output. */
  ghost predicate Follows(f: Expander, h: seq<Event>, items: seq<Item>, e: Event, h': seq<Event>, items': seq<Item>) {
    Accepts(f, h, e) && h' == h + [e] && items' == items + Emission(f, h, e)
  }

  /** prepare_state, with the exception set and the output buffer. */
  class Preparer {
    var output: Bytes
    var basePrefix: Prefix
    var derivationStem: Bytes
    var derivationType: Bytes
    var derivationKeys: Bytes
    var savedRequest: Bytes
    var base: BaseKind
    var haveLemma: bool
    var haveDerivation: bool
    var haveExplicitRequest: bool
    var skipInvalidDerivation: bool
    var exceptions: seq<SourceException>
    const expander: Expander
    /** The events of the present file. */
    ghost var history: seq<Event>
    /** The lines written so far, for all files. */
    ghost var items: seq<Item>
    /** The exceptions applied so far, in order. */
    ghost var applied: seq<nat>

    /** The fields as one value. */
    function State(): Fields
      reads this`basePrefix, this`derivationStem, this`derivationType, this`derivationKeys, this`savedRequest, this`base
      reads this`haveLemma, this`haveDerivation, this`haveExplicitRequest
    {
      Fields(haveLemma, haveDerivation, haveExplicitRequest, base, basePrefix,
             Derivation(derivationStem, derivationType, derivationKeys), savedRequest)
    }

    /** The flags mean what looking back gives. */
    ghost predicate Coherent()
      reads this`basePrefix, this`derivationStem, this`derivationType, this`derivationKeys, this`savedRequest, this`base
      reads this`haveLemma, this`haveDerivation, this`haveExplicitRequest, this`history
    {
      Reflects(history, State())
    }

    /** The buffer holds the lines written. */
    ghost predicate Clean()
      reads this`output, this`items
    {
      output == Written(Texts(items))
    }

    /** An exception is marked exactly if it was applied, and none is applied twice. */
    ghost predicate Marked()
      reads this`exceptions, this`applied
    {
      && (forall i, j | 0 <= i < j < |applied| :: applied[i] != applied[j])
      && (forall i | i in applied :: i < |exceptions|)
      && (forall i: nat {:trigger exceptions[i]} | i < |exceptions| :: exceptions[i].seen <==> i in applied)
    }

    ghost predicate Valid()
      reads this
    {
      Coherent() && Clean() && Marked()
    }

    constructor (exceptions': seq<SourceException>, f: Expander)
      requires forall i {:trigger exceptions'[i]} | 0 <= i < |exceptions'| :: !exceptions'[i].seen
      ensures Valid() && items == [] && applied == [] && history == [] && exceptions == exceptions' && expander == f
    {
      output, items, applied, history := [], [], [], [];
      basePrefix, base := NoPrefix, BASE_NONE;
      derivationStem, derivationType, derivationKeys, savedRequest := [], [], [], [];
      haveLemma, haveDerivation, haveExplicitRequest, skipInvalidDerivation := false, false, false, false;
      exceptions, expander := exceptions', f;
      new;
      ReflectsNothing(State());
    }

    /** write_line, or an expanded record. */
    method WriteLine(line: Bytes, ghost item: Item)
      requires Clean() && item.text == line
      modifies this`output, this`items
      ensures Clean() && items == old(items) + [item]
    {
      WrittenOne(Texts(items), line);
      output := output + (line + [LF]);
      items := items + [item];
      assert Texts(items) == Texts(old(items)) + [line];
    }

    /** The fields take new values, after e. */
    method Become(s: Fields, ghost e: Event)
      requires Reflects(history + [e], s)
      modifies this`basePrefix, this`derivationStem, this`derivationType, this`derivationKeys, this`savedRequest, this`base
      modifies this`haveLemma, this`haveDerivation, this`haveExplicitRequest, this`history
      ensures Coherent() && history == old(history) + [e]
    {
      hide Reflects;
      haveLemma, haveDerivation, haveExplicitRequest := s.lemma_, s.derivation, s.asked;
      base, basePrefix, savedRequest := s.base, s.prefix, s.request;
      derivationStem, derivationType, derivationKeys := s.d.stem, s.d.name, s.d.keys;
      history := history + [e];
    }

    /** expand_request, for the derivation in the fields. */
    method ExpandRequest(request: Bytes) returns (ok: bool)
      requires Coherent() && Clean() && haveDerivation
      modifies this`output, this`items
      ensures ok <==> Expands(expander, Live(history), request)
      ensures ok ==> Clean() && items == old(items) + Expansion(expander, Live(history), request)
      ensures !ok ==> items == old(items) && output == old(output)
    {
      var d := Derivation(derivationStem, derivationType, derivationKeys);
      var record := expander(d, request);
      if !(NoBreak(record) && 1 <= RecordKind(record) <= 3) {
        return false;
      }
      WriteLine(record, Expanded(record, d, request));
      ok := true;
    }

    /** flush_derivation: a derivation that is due is expanded. */
    method FlushDerivation() returns (ok: bool)
      requires Coherent() && Clean()
      modifies this`output, this`items, this`haveExplicitRequest
      ensures ok <==> FlushOk(expander, history)
      ensures ok ==> Clean() && items == old(items) + Flush(expander, history)
      ensures Due(history) ==> haveExplicitRequest
      ensures !Due(history) ==> haveExplicitRequest == old(haveExplicitRequest)
    {
      FlagsAre(history, State());
      if !haveDerivation || haveExplicitRequest {
        assert items == items + [];
        return true;
      }
      ok := ExpandRequest([112, 114]);
      haveExplicitRequest := true;
    }

    /** find_exception: the first that matches. */
    method FindException(path: Bytes, lineNumber: nat) returns (found: bool, index: nat)
      ensures index == FirstMatch(exceptions, path, lineNumber, 0) && (found <==> index < |exceptions|)
    {
      index := 0;
      while index != |exceptions|
        invariant 0 <= index <= |exceptions|
        invariant FirstMatch(exceptions, path, lineNumber, index) == FirstMatch(exceptions, path, lineNumber, 0)
      {
        if exceptions[index].lineNumber == lineNumber && PathHasSuffix(path, exceptions[index].path) {
          return true, index;
        }
        index := index + 1;
      }
      found := false;
    }

    /** The exception for a derivation: what is due is expanded, the derivation is closed, and the
        lines that belong to it are skipped. */
    method ApplyInvalidDerivation(ghost e: Event, content: Bytes) returns (ok: bool)
      requires Coherent() && Clean() && e.Excepted? && e.kind == INVALID_DERIVATION && e.content == content != []
      modifies this`output, this`items, this`skipInvalidDerivation
      modifies this`basePrefix, this`derivationStem, this`derivationType, this`derivationKeys, this`savedRequest, this`base
      modifies this`haveLemma, this`haveDerivation, this`haveExplicitRequest, this`history
      ensures ok <==> Accepts(expander, old(history), e)
      ensures ok ==> Coherent() && Clean() && Follows(expander, old(history), old(items), e, history, items)
      ensures ok ==> skipInvalidDerivation
    {
      hide Reflects, Accepts, Emission, FlushOk, Flush, Expansion, Expands, Started, RoleOf, Opens, Closes, Asks,
        Reads, Texts, Written;
      OnException(expander, history, e);
      if !(DE_TAG <= content) {
        return false;
      }
      var was := State();
      ok := FlushDerivation();
      if ok {
        ReflectsInvalid(history, was, e);
        Become(was.(derivation := false, asked := false, base := BASE_NONE, request := []), e);
        skipInvalidDerivation := true;
      }
    }

    /** The exception for a request: it counts as one. */
    method ApplyZeroRequest(ghost e: Event, content: Bytes) returns (ok: bool)
      requires Coherent() && Clean() && e.Excepted? && e.kind == ZERO_REQUEST && e.content == content != []
      modifies this`basePrefix, this`derivationStem, this`derivationType, this`derivationKeys, this`savedRequest, this`base
      modifies this`haveLemma, this`haveDerivation, this`haveExplicitRequest, this`history
      ensures ok <==> Accepts(expander, old(history), e)
      ensures ok ==> Coherent() && Clean() && Follows(expander, old(history), items, e, history, items)
    {
      hide Reflects, Accepts, Emission, FlushOk, Flush, Expansion, Expands, Started, RoleOf, Opens, Closes, Asks,
        Reads, Texts, Written, FirstToken;
      OnException(expander, history, e);
      FlagsAre(history, State());
      NothingLast(items);
      if content[0] != SEMICOLON || !haveDerivation {
        return false;
      }
      var token, rest;
      ok, token, rest := TakeToken(content[1..], LONGSTRING);
      if ok {
        ReflectsAsking(history, State(), e);
        Become(State().(asked := true, base := BASE_DERIVATION, request := token), e);
      }
    }

    /** The tests and state changes of apply_exception on the line. */
    method ApplyKind(ghost index: nat, kind: ExceptionKind, content: Bytes) returns (ok: bool)
      requires Coherent() && Clean() && content != [] && !skipInvalidDerivation
      modifies this`output, this`items, this`skipInvalidDerivation
      modifies this`basePrefix, this`derivationStem, this`derivationType, this`derivationKeys, this`savedRequest, this`base
      modifies this`haveLemma, this`haveDerivation, this`haveExplicitRequest, this`history
      ensures ok <==> Accepts(expander, old(history), Excepted(index, kind, content))
      ensures ok ==> Coherent() && Clean()
      ensures ok ==> Follows(expander, old(history), old(items), Excepted(index, kind, content), history, items)
      ensures ok ==> (skipInvalidDerivation <==> kind == INVALID_DERIVATION)
    {
      hide Reflects, Accepts, Emission, FlushOk, Flush, Expansion, Expands, Started, RoleOf, Opens, Closes, Asks,
        Reads, Texts, Written, RecordKind;
      ghost var e := Excepted(index, kind, content);
      OnException(expander, history, e);
      FlagsAre(history, State());
      NothingLast(items);
      match kind {
        case INVALID_DERIVATION =>
          ok := ApplyInvalidDerivation(e, content);
          return;
        case ZERO_REQUEST =>
          ok := ApplyZeroRequest(e, content);
          return;
        case INVALID_RECORD =>
          ok := RecordKind(content) != 0 && |content| > 4 && Blank(content[4]);
        case ORPHAN_CONTINUATION =>
          ok := content[0] == AT_SIGN;
        case ORPHAN_REQUEST =>
          ok := content[0] == SEMICOLON && !haveDerivation;
        case ZERO_CONTINUATION =>
          ok := content[0] == AT_SIGN && base == BASE_DERIVATION;
      }
      ReflectsStill(history, State(), e);
      history := history + [e];
    }

    /** apply_exception: at most once for each exception, on a line whose fingerprint it names. */
    method ApplyException(index: nat, content: Bytes) returns (ok: bool)
      requires Valid() && content != [] && index < |exceptions| && !skipInvalidDerivation
      modifies this
      ensures var e := Excepted(index, old(exceptions[index].kind), content);
        && (ok <==> Accepts(expander, old(history), e) && index !in old(applied)
                    && old(exceptions[index]).sha256 == Sha256.HexText(Sha256.Digest(content)))
        && (ok ==> Valid() && Follows(expander, old(history), old(items), e, history, items))
        && (ok ==> applied == old(applied) + [index] && (skipInvalidDerivation <==> e.kind == INVALID_DERIVATION))
      ensures ok ==> Alike(old(exceptions), exceptions)
    {
      hide Reflects, Accepts, Emission, Follows, Texts, Written;
      var e := exceptions[index];
      if e.seen {
        return false;
      }
      var actual := Sha256.Hex(content);
      if actual != e.sha256 {
        return false;
      }
      ok := ApplyKind(index, e.kind, content);
      if ok {
        exceptions := exceptions[index := e.(seen := true)];
        applied := applied + [index];
        assert applied[|applied| - 1] == index;
      }
    }

    // a :le: line
    method LemmaLine(content: Bytes) returns (ok: bool)
      requires Coherent() && Clean() && RoleOf(content) == LEMMA
      modifies this`output, this`items
      modifies this`basePrefix, this`derivationStem, this`derivationType, this`derivationKeys, this`savedRequest, this`base
      modifies this`haveLemma, this`haveDerivation, this`haveExplicitRequest, this`history
      ensures ok <==> Accepts(expander, old(history), Line(content))
      ensures ok ==> Coherent() && Clean() && Follows(expander, old(history), old(items), Line(content), history, items)
    {
      hide Reflects, Accepts, Emission, FlushOk, Flush, Expansion, Expands, Started, RoleOf, Opens, Closes, Asks,
        Reads, Texts, Written, Trimmed;
      OnLemma(expander, history, content);
      ghost var e := Line(content);
      var was := State();
      var lemma' := Trim(content[4..]);
      ok := FlushDerivation();
      if !ok || lemma' == [] {
        return false;
      }
      ReflectsLemma(history, was, e);
      WriteLine(content, Copied(content));
      Become(was.(lemma_ := true, derivation := false, asked := false, base := BASE_NONE, prefix := NoPrefix), e);
    }

    // one of the five record tags
    method RecordLine(content: Bytes) returns (ok: bool)
      requires Coherent() && Clean() && RoleOf(content) == RECORD
      modifies this`output, this`items
      modifies this`basePrefix, this`derivationStem, this`derivationType, this`derivationKeys, this`savedRequest, this`base
      modifies this`haveLemma, this`haveDerivation, this`haveExplicitRequest, this`history
      ensures ok <==> Accepts(expander, old(history), Line(content))
      ensures ok ==> Coherent() && Clean() && Follows(expander, old(history), old(items), Line(content), history, items)
    {
      hide Reflects, Accepts, Emission, FlushOk, Flush, Expansion, Expands, Started, RoleOf, Opens, Closes, Asks,
        Reads, Texts, Written, BasePrefix, RecordKind;
      OnRecord(expander, history, content);
      ghost var e := Line(content);
      FlagsAre(history, State());
      if !haveLemma {
        return false;
      }
      var prefix := BasePrefix(content);
      if prefix == NoPrefix {
        return false;
      }
      ReflectsRecord(history, State(), e);
      var was := State().(base := BASE_DIRECT, prefix := prefix);
      if RecordKind(content) <= 3 {
        was := was.(derivation := false, asked := false, request := []);
      }
      WriteLine(content, Copied(content));
      Become(was, e);
      ok := true;
    }

    // an @ line
    method ContinuationLine(content: Bytes) returns (ok: bool)
      requires Coherent() && Clean() && RoleOf(content) == CONTINUATION
      modifies this`output, this`items, this`history
      ensures ok <==> Accepts(expander, old(history), Line(content))
      ensures ok ==> Coherent() && Clean() && Follows(expander, old(history), old(items), Line(content), history, items)
    {
      hide Reflects, Accepts, Emission, FlushOk, Flush, Expansion, Expands, Started, RoleOf, Opens, Closes, Asks,
        Reads, Texts, Written, Trimmed;
      OnContinuation(expander, history, content);
      FlagsAre(history, State());
      if !haveLemma || base == BASE_NONE {
        return false;
      }
      ReflectsStill(history, State(), Line(content));
      if base == BASE_DIRECT {
        var line := basePrefix.text + content[1..];
        WriteLine(line, Continued(line));
        history := history + [Line(content)];
        return true;
      }
      var continuation := Trim(content[1..]);
      if savedRequest == [] {
        return false;
      }
      var request := savedRequest + (if continuation == [] then [] else [32]) + continuation;
      if |request| >= LONGSTRING * 2 {
        return false;
      }
      ok := ExpandRequest(request);
      history := history + [Line(content)];
    }

    /** The stem, the name and the keys of a derivation. */
    method TakeDerivation(s: Bytes) returns (ok: bool, stem: Bytes, name: Bytes, keys: Bytes)
      ensures ok <==> DerivationOf(s).Some?
      ensures ok ==> DerivationOf(s) == Some(Derivation(stem, name, keys))
    {
      hide FirstToken, AfterToken, Trimmed;
      var rest;
      stem, name, keys := [], [], [];
      ok, stem, rest := TakeToken(s, Spelling.MAXWORDSIZE);
      if !ok {
        return;
      }
      ok, name, rest := TakeToken(rest, Spelling.MAXWORDSIZE);
      if !ok || exists i :: 0 <= i < |name| && !NameChar(name[i]) {
        return false, stem, name, keys;
      }
      keys := Trim(rest);
      ok := |keys| < LONGSTRING;
    }

    // a :de: line
    method DerivationLine(content: Bytes) returns (ok: bool)
      requires Coherent() && Clean() && RoleOf(content) == DERIVATION
      modifies this`output, this`items
      modifies this`basePrefix, this`derivationStem, this`derivationType, this`derivationKeys, this`savedRequest, this`base
      modifies this`haveLemma, this`haveDerivation, this`haveExplicitRequest, this`history
      ensures ok <==> Accepts(expander, old(history), Line(content))
      ensures ok ==> Coherent() && Clean() && Follows(expander, old(history), old(items), Line(content), history, items)
    {
      hide Reflects, Accepts, Emission, FlushOk, Flush, Expansion, Expands, Started, RoleOf, Opens, Closes, Asks,
        Reads, Texts, Written, DerivationOf;
      OnDerivation(expander, history, content);
      var was := State();
      FlagsAre(history, was);
      if !haveLemma || (|content| > 4 && Blank(content[4])) {
        return false;
      }
      ok := FlushDerivation();
      if !ok {
        return;
      }
      var stem, name, keys;
      ok, stem, name, keys := TakeDerivation(content[4..]);
      if !ok {
        return;
      }
      ReflectsDerivation(history, was, Line(content), Derivation(stem, name, keys));
      var d := Derivation(stem, name, keys);
      Become(was.(derivation := true, asked := false, base := BASE_DERIVATION, d := d, request := []), Line(content));
    }

    // a ; line
    method RequestLine(content: Bytes) returns (ok: bool)
      requires Coherent() && Clean() && RoleOf(content) == REQUEST
      modifies this`output, this`items
      modifies this`basePrefix, this`derivationStem, this`derivationType, this`derivationKeys, this`savedRequest, this`base
      modifies this`haveLemma, this`haveDerivation, this`haveExplicitRequest, this`history
      ensures ok <==> Accepts(expander, old(history), Line(content))
      ensures ok ==> Coherent() && Clean() && Follows(expander, old(history), old(items), Line(content), history, items)
    {
      hide Reflects, Accepts, Emission, FlushOk, Flush, Expansion, Expands, Started, RoleOf, Opens, Closes, Asks,
        Reads, Texts, Written, FirstToken, Trimmed;
      OnRequest(expander, history, content);
      var was := State();
      FlagsAre(history, was);
      if !haveDerivation {
        NoExpansion(expander, Live(history), Trimmed(content[1..]));
        return false;
      }
      var token, rest;
      ok, token, rest := TakeToken(content[1..], LONGSTRING);
      if !ok {
        return;
      }
      var request := Trim(content[1..]);
      if |request| >= LONGSTRING {
        return false;
      }
      ok := ExpandRequest(request);
      if ok {
        ReflectsAsking(history, was, Line(content));
        Become(was.(asked := true, base := BASE_DERIVATION, request := token), Line(content));
      }
    }

    /** The branches of prepare_file for a line that is no exception; a line of another kind is
        dropped. */
    method ContentLine(content: Bytes) returns (ok: bool)
      requires Coherent() && Clean() && content != []
      modifies this`output, this`items
      modifies this`basePrefix, this`derivationStem, this`derivationType, this`derivationKeys, this`savedRequest, this`base
      modifies this`haveLemma, this`haveDerivation, this`haveExplicitRequest, this`history
      ensures ok <==> Accepts(expander, old(history), Line(content))
      ensures ok ==> Coherent() && Clean() && Follows(expander, old(history), old(items), Line(content), history, items)
    {
      hide Reflects, Accepts, Emission, RecordKind, Texts, Written;
      if LE_TAG <= content {
        ok := LemmaLine(content);
      } else if RecordKind(content) != 0 {
        ok := RecordLine(content);
      } else if content[0] == AT_SIGN {
        ok := ContinuationLine(content);
      } else if DE_TAG <= content {
        ok := DerivationLine(content);
      } else if content[0] == SEMICOLON {
        ok := RequestLine(content);
      } else {
        OnOther(expander, history, content);
        ReflectsStill(history, State(), Line(content));
        NothingLast(items);
        history := history + [Line(content)];
        ok := true;
      }
    }

    /** The machine after some lines of a file, read without an error: exceptions es, of which
        `was` were applied before, and items `before` written before. */
    ghost predicate InSync(es: seq<SourceException>, was: seq<nat>, before: seq<Item>, path: Bytes, lines: seq<Bytes>)
      reads this
    {
      && Valid() && Alike(es, exceptions) && ReadsOn(expander, es, was, path, lines)
      && history == ScanLines(es, path, lines).events && skipInvalidDerivation == ScanLines(es, path, lines).skip
      && items == before + Output(expander, history) && applied == was + Indices(history)
    }

    /** The body of the loop of prepare_file. */
    method InputLine(path: Bytes, lineNumber: nat, line: Bytes,
                     ghost es: seq<SourceException>, ghost was: seq<nat>, ghost before: seq<Item>, ghost lines: seq<Bytes>)
      returns (ok: bool)
      requires InSync(es, was, before, path, lines) && lineNumber == |lines| + 1
      modifies this
      ensures ok <==> ReadsOn(expander, es, was, path, lines + [line])
      ensures ok ==> InSync(es, was, before, path, lines + [line])
    {
      hide Coherent, Clean, Marked, ScanLines, Trimmed, Output, Indices, ReadsOn, IsNext, Accepts, Emission, FirstMatch;
      SyncFacts(es, was, before, path, lines);
      if |line| == LINE_CAPACITY - 1 && line[|line| - 1] != LF {
        NotFit(expander, es, was, path, lines, line);
        return false;
      }
      var content := Trim(line);
      if content == [] || content[0] == HASH || content[0] == QUESTION ||
         (skipInvalidDerivation && (content[0] == SEMICOLON || content[0] == AT_SIGN)) {
        NoEvent(es, path, lines, line);
        ReadsOnSame(expander, es, was, path, lines, line);
        ScanSame(es, path, lines, line);
        return true;
      }
      ghost var e := EventFor(es, path, lineNumber, content);
      SomeEvent(es, path, lines, line, e);
      ReadsOnNext(expander, es, was, path, lines, line, e);
      ScanNext(es, path, lines, line, e);
      StopSkipping();
      var found, index := FindException(path, lineNumber);
      SameMatch(es, exceptions, path, lineNumber, 0);
      ghost var h := history;
      if found {
        ok := ApplyException(index, content);
      } else {
        ok := ContentLine(content);
      }
      if ok {
        OneMore(expander, before, was, h, e);
      }
    }

    lemma SyncFacts(es: seq<SourceException>, was: seq<nat>, before: seq<Item>, path: Bytes, lines: seq<Bytes>)
      requires InSync(es, was, before, path, lines)
      ensures Valid() && Alike(es, exceptions) && ReadsOn(expander, es, was, path, lines)
    {
    }

    method StopSkipping()
      requires Valid()
      modifies this`skipInvalidDerivation
      ensures Valid() && !skipInvalidDerivation
    {
      hide Coherent, Clean, Marked;
      skipInvalidDerivation := false;
    }

    /** The assignments at the start of prepare_file. */
    method Restart()
      modifies this`basePrefix, this`base, this`haveLemma, this`haveDerivation, this`haveExplicitRequest
      modifies this`skipInvalidDerivation, this`history
      ensures Coherent() && history == [] && !skipInvalidDerivation
    {
      hide Reflects;
      basePrefix, base := NoPrefix, BASE_NONE;
      haveLemma, haveDerivation, haveExplicitRequest, skipInvalidDerivation := false, false, false, false;
      history := [];
      ReflectsNothing(State());
    }

    method StartFile(ghost es: seq<SourceException>, path: Bytes)
      requires Clean() && Marked() && Alike(es, exceptions)
      modifies this`basePrefix, this`base, this`haveLemma, this`haveDerivation, this`haveExplicitRequest
      modifies this`skipInvalidDerivation, this`history
      ensures InSync(es, applied, items, path, [])
    {
      hide Coherent, Clean, Marked;
      Restart();
      NothingLast(items);
      NothingLast(applied);
    }

    // prepare_file
    method PrepareFile(path: Bytes, input: Bytes, ghost es: seq<SourceException>) returns (ok: bool)
      requires Clean() && Marked() && Alike(es, exceptions)
      modifies this
      ensures ok <==> FileOk(expander, es, old(applied), path, input)
      ensures ok ==> Clean() && Marked() && Alike(es, exceptions)
      ensures ok ==> items == old(items) + FileItems(expander, FileEvents(es, path, input))
      ensures ok ==> applied == old(applied) + Indices(FileEvents(es, path, input))
    {
      hide Coherent, Clean, Marked, Alike, InSync, Lines, LinesFrom, LineLength, LineAt, ReadsOn, ScanLines, Flush,
        FlushOk, Output, Indices;
      ghost var was, before, lines := applied, items, [];
      StartFile(es, path);
      var at, lineNumber := 0, 0;
      assert LinesFrom(input, 0) == Lines(input) by {
        WholeInput(input);
      }
      while at < |input|
        invariant 0 <= at <= |input| && lineNumber == |lines|
        invariant lines + LinesFrom(input, at) == Lines(input)
        invariant InSync(es, was, before, path, lines)
      {
        var n, line := ReadLine(input, at);
        lineNumber := lineNumber + 1;
        LineGoesOn(input, at);
        ok := InputLine(path, lineNumber, line, es, was, before, lines);
        OneLineMore(lines, line, LinesFrom(input, at + n));
        if !ok {
          StopsThere(expander, es, was, path, lines + [line], LinesFrom(input, at + n));
          return;
        }
        lines := lines + [line];
        at := at + n;
      }
      NoLineLeft(input, lines);
      SyncFacts(es, was, before, path, lines);
      EndOfFile(es, was, before, path, lines);
      ok := FlushDerivation();
      AppendedTwice(before, Output(expander, history), Flush(expander, history));
    }

    lemma EndOfFile(es: seq<SourceException>, was: seq<nat>, before: seq<Item>, path: Bytes, lines: seq<Bytes>)
      requires InSync(es, was, before, path, lines)
      ensures Coherent() && Clean() && Marked() && ReadsOn(expander, es, was, path, lines)
      ensures history == ScanLines(es, path, lines).events
      ensures items == before + Output(expander, history) && applied == was + Indices(history)
    {
    }

    // all_exceptions_seen
    method AllExceptionsSeen() returns (ok: bool)
      ensures ok <==> forall i: nat {:trigger exceptions[i]} | i < |exceptions| :: exceptions[i].seen
    {
      var index := 0;
      while index != |exceptions|
        invariant 0 <= index <= |exceptions|
        invariant forall i: nat {:trigger exceptions[i]} | i < index :: exceptions[i].seen
      {
        if !exceptions[index].seen {
          return false;
        }
        index := index + 1;
      }
      ok := true;
    }
  }

  lemma NoExpansion(f: Expander, d: MaybeDerivation, request: Bytes)
    requires !d.Some?
    ensures !Expands(f, d, request)
  {
  }

  lemma NothingLast<T>(s: seq<T>)
    ensures s + [] == s
  {
  }

  /** The flags. */
  lemma FlagsAre(h: seq<Event>, s: Fields)
    requires Reflects(h, s)
    ensures (s.lemma_ <==> Started(h)) && (s.derivation <==> Live(h).Some?) && (s.asked <==> Asked(h))
    ensures s.base == BASE_NONE <==> BaseOf(h) == NoBase
    ensures s.base == BASE_DERIVATION <==> BaseOf(h) == Derived
    ensures s.base == BASE_DIRECT ==> BaseOf(h).Direct? && s.prefix == Prefix(BaseOf(h).prefix)
    ensures s.base == BASE_DERIVATION ==> s.request == Request(h) && s.derivation
  {
  }

  lemma NotFit(f: Expander, es: seq<SourceException>, applied: seq<nat>, path: Bytes, lines: seq<Bytes>, line: Bytes)
    requires !Fits(line)
    ensures !ReadsOn(f, es, applied, path, lines + [line])
  {
    hide Accepted, AllHonoured, ScanLines, Fits;
    assert (lines + [line])[|lines|] == line;
  }

  lemma NoEvent(es: seq<SourceException>, path: Bytes, lines: seq<Bytes>, line: Bytes)
    requires var content := Trimmed(line);
      Ignored(content) || (ScanLines(es, path, lines).skip && (content[0] == SEMICOLON || content[0] == AT_SIGN))
    ensures forall e :: !IsNext(es, path, lines, line, e)
  {
    hide ScanLines, Trimmed, EventFor;
  }

  lemma SomeEvent(es: seq<SourceException>, path: Bytes, lines: seq<Bytes>, line: Bytes, e: Event)
    requires var content := Trimmed(line);
      && !Ignored(content) && !(ScanLines(es, path, lines).skip && (content[0] == SEMICOLON || content[0] == AT_SIGN))
      && e == EventFor(es, path, |lines| + 1, content)
    ensures IsNext(es, path, lines, line, e)
  {
  }

  lemma {:induction false} SameMatch(es: seq<SourceException>, es': seq<SourceException>, path: Bytes, lineNumber: nat, i: nat)
    requires Alike(es, es') && i <= |es|
    ensures FirstMatch(es, path, lineNumber, i) == FirstMatch(es', path, lineNumber, i)
    decreases |es| - i
  {
    hide PathHasSuffix;
    if i < |es| {
      assert es'[i].path == es[i].path;
      SameMatch(es, es', path, lineNumber, i + 1);
    }
  }

  lemma OneMore(f: Expander, before: seq<Item>, was: seq<nat>, h: seq<Event>, e: Event)
    ensures before + Output(f, h + [e]) == before + Output(f, h) + Emission(f, h, e)
    ensures was + Indices(h + [e]) == was + Indices(h) + if e.Excepted? then [e.index] else []
  {
    hide Emission;
    Back(h, e);
  }

  /** The same exceptions, but for the marks. */
  ghost predicate Alike(es: seq<SourceException>, es': seq<SourceException>) {
    && |es| == |es'|
    && forall i {:trigger es'[i]} | 0 <= i < |es| ::
         es'[i].path == es[i].path && es'[i].lineNumber == es[i].lineNumber && es'[i].kind == es[i].kind
         && es'[i].sha256 == es[i].sha256
  }

  // ----- the lines of a file

  lemma WholeInput(input: Bytes)
    ensures LinesFrom(input, 0) == Lines(input)
  {
    assert input[0..] == input;
  }

  lemma LineGoesOn(input: Bytes, at: nat)
    requires at < |input|
    ensures var n := LineLength(input, at);
      0 < n <= |input| - at && LinesFrom(input, at) == [LineAt(input, at)] + LinesFrom(input, at + n)
  {
    var n := LineLength(input, at);
    assert input[at..][n..] == input[at + n..] && input[at..][..n] == input[at..at + n];
  }

  lemma OneLineMore(lines: seq<Bytes>, line: Bytes, rest: seq<Bytes>)
    ensures lines + ([line] + rest) == lines + [line] + rest
  {
  }

  lemma NoLineLeft(input: Bytes, lines: seq<Bytes>)
    requires lines + LinesFrom(input, |input|) == Lines(input)
    ensures lines == Lines(input)
  {
    assert LinesFrom(input, |input|) == [];
  }

  lemma StopsThere(f: Expander, es: seq<SourceException>, applied: seq<nat>, path: Bytes, lines: seq<Bytes>, rest: seq<Bytes>)
    requires !ReadsOn(f, es, applied, path, lines)
    ensures !ReadsOn(f, es, applied, path, lines + rest)
  {
    hide ReadsOn;
    assert (lines + rest)[..|lines|] == lines;
    if ReadsOn(f, es, applied, path, lines + rest) {
      ErrorStays(f, es, applied, path, lines + rest, |lines|);
    }
  }

  lemma AppendedTwice<T>(a: seq<T>, b: seq<T>, c: seq<T>)
    ensures a + b + c == a + (b + c)
  {
  }

  // ----- the program

  /** main, with the exceptions loaded: it succeeds exactly if every file can be prepared and no
      exception is left over, and writes what looking back prescribes. */
  method Prepare(exceptions: seq<SourceException>, files: seq<SourceFile>, f: Expander) returns (ok: bool, output: Bytes)
    requires forall i {:trigger exceptions[i]} | 0 <= i < |exceptions| :: !exceptions[i].seen
    ensures ok <==> RunOk(f, exceptions, files) && forall i: nat | i < |exceptions| :: i in RunApplied(exceptions, files)
    ensures ok ==> output == Written(Texts(RunItems(f, exceptions, files)))
    ensures ok ==> forall i, j | 0 <= i < j < |RunApplied(exceptions, files)| ::
                     RunApplied(exceptions, files)[i] != RunApplied(exceptions, files)[j]
    ensures ok ==> Tolerable(FeedAll(Reading([], false), Lines(output)))
    ensures ok ==> (FeedAll(Reading([], false), Lines(output)).Reading? <==>
                    forall l {:trigger Taken(l)} | l in Texts(RunItems(f, exceptions, files)) :: Taken(l))
  {
    hide FileOk, FileItems, FileEvents, Indices, Written, Texts, Tolerable, FeedAll, Lines, Taken, BaseOf;
    var state := new Preparer(exceptions, f);
    var input := 0;
    ok := true;
    assert files[..0] == [];
    while input != |files|
      invariant 0 <= input <= |files| && fresh(state) && state.expander == f
      invariant state.Clean() && state.Marked() && Alike(exceptions, state.exceptions)
      invariant RunOk(f, exceptions, files[..input])
      invariant state.items == RunItems(f, exceptions, files[..input])
      invariant state.applied == RunApplied(exceptions, files[..input])
    {
      ok := state.PrepareFile(files[input].path, files[input].input, exceptions);
      FilesNext(f, exceptions, files, input);
      if !ok {
        RunStops(f, exceptions, files, input + 1);
        return false, [];
      }
      input := input + 1;
    }
    assert files[..input] == files;
    ok := state.AllExceptionsSeen();
    output := if ok then state.output else [];
    PrepareMeaning.BuilderReads(f, exceptions, files);
    AllSeen(exceptions, state.exceptions, state.applied, ok);
  }

  lemma FilesNext(f: Expander, es: seq<SourceException>, files: seq<SourceFile>, n: nat)
    requires n < |files|
    ensures var front, next, file := files[..n], files[..n + 1], files[n];
      && (RunOk(f, es, next) <==> RunOk(f, es, front) && FileOk(f, es, RunApplied(es, front), file.path, file.input))
      && RunItems(f, es, next) == RunItems(f, es, front) + FileItems(f, FileEvents(es, file.path, file.input))
      && RunApplied(es, next) == RunApplied(es, front) + Indices(FileEvents(es, file.path, file.input))
  {
    hide FileOk, FileItems, FileEvents, Indices;
    assert files[..n + 1][..n] == files[..n];
  }

  lemma {:induction false} RunStops(f: Expander, es: seq<SourceException>, files: seq<SourceFile>, n: nat)
    requires n <= |files| && !RunOk(f, es, files[..n])
    ensures !RunOk(f, es, files)
    decreases |files| - n
  {
    hide FileOk, RunApplied;
    if n == |files| {
      assert files[..n] == files;
    } else {
      assert files[..n + 1][..n] == files[..n];
      RunStops(f, es, files, n + 1);
    }
  }

  lemma AllSeen(es: seq<SourceException>, es': seq<SourceException>, applied: seq<nat>, ok: bool)
    requires Alike(es, es')
    requires forall i: nat {:trigger es'[i]} | i < |es'| :: es'[i].seen <==> i in applied
    requires ok <==> forall i: nat {:trigger es'[i]} | i < |es'| :: es'[i].seen
    ensures ok <==> forall i: nat | i < |es| :: i in applied
  {
    if forall i: nat | i < |es| :: i in applied {
      forall i: nat | i < |es'|
        ensures es'[i].seen
      {
      }
    }
    if ok {
      forall i: nat | i < |es|
        ensures i in applied
      {
        assert es'[i].seen;
      }
    }
  }
}
