/** What the lines and exceptions that tools/gener-source-preparer.c has read from a file mean, by
    looking back: which derivation is live, whether it was asked for a form, what a continuation
    continues, and what every further line writes. */
module PrepareHistory {
  import opened ByteStrings
  import opened GenerParse
  import opened PreparedLines
  import Sha256
  import Spelling

  const LONGSTRING := 1024

  /** "pr" */
  const PR: Bytes := [112, 114]

  datatype ExceptionKind =
    INVALID_DERIVATION | INVALID_RECORD | ORPHAN_CONTINUATION | ORPHAN_REQUEST | ZERO_CONTINUATION | ZERO_REQUEST

  datatype SourceException = SourceException(path: Bytes, lineNumber: nat, kind: ExceptionKind, sha256: string, seen: bool)

  /** A line that was neither dropped nor skipped: on its own account, or for an exception. */
  datatype Event = Line(content: Bytes) | Excepted(index: nat, kind: ExceptionKind, content: Bytes)

  datatype Role = LEMMA | RECORD | CONTINUATION | DERIVATION | REQUEST | OTHER

  function RoleOf(content: Bytes): Role {
    if LE_TAG <= content then LEMMA
    else if RecordKind(content) != 0 then RECORD
    else if content != [] && content[0] == AT_SIGN then CONTINUATION
    else if DE_TAG <= content then DERIVATION
    else if content != [] && content[0] == SEMICOLON then REQUEST
    else OTHER
  }

  predicate Reads(e: Event, role: Role) {
    e.Line? && RoleOf(e.content) == role
  }

  predicate Opens(e: Event) {
    Reads(e, DERIVATION)
  }

  /** A lemma, a noun, adjective or verb record, or an exception for a derivation. */
  predicate Closes(e: Event) {
    || Reads(e, LEMMA) || (Reads(e, RECORD) && RecordKind(e.content) <= 3)
    || (e.Excepted? && e.kind == INVALID_DERIVATION)
  }

  predicate Asks(e: Event) {
    Reads(e, REQUEST) || (e.Excepted? && e.kind == ZERO_REQUEST)
  }

  // ----- derivations

  datatype Derivation = Derivation(stem: Bytes, name: Bytes, keys: Bytes)

  datatype MaybeDerivation = NoDerivation | Some(derivation: Derivation)

  predicate IsName(s: Bytes) {
    forall i | 0 <= i < |s| :: NameChar(s[i])
  }

  /** The stem, the name and the keys after a :de: tag, each within its buffer. */
  function DerivationOf(s: Bytes): MaybeDerivation {
    var d := Derivation(FirstToken(s), FirstToken(AfterToken(s)), Trimmed(AfterToken(AfterToken(s))));
    if 0 < |d.stem| < Spelling.MAXWORDSIZE && 0 < |d.name| < Spelling.MAXWORDSIZE && IsName(d.name) && |d.keys| < LONGSTRING
    then Some(d) else NoDerivation
  }

  /** morpheus_gener_expand_derivation is not part of this model: what it prints for a derivation
      and a request is a parameter.  It is a line tagged :no:, :aj: or :vs:, or it failed. */
  type Expander = (Derivation, Bytes) -> Bytes

  predicate Expands(f: Expander, d: MaybeDerivation, request: Bytes) {
    d.Some? && NoBreak(f(d.derivation, request)) && 1 <= RecordKind(f(d.derivation, request)) <= 3
  }

  // ----- looking back

  /** The derivation opened last, unless it was closed. */
  function Live(h: seq<Event>): MaybeDerivation {
    if h == [] then NoDerivation
    else
      var e := h[|h| - 1];
      if Opens(e) then DerivationOf(e.content[4..])
      else if Closes(e) then NoDerivation
      else Live(h[..|h| - 1])
  }

  /** It was asked for a form since. */
  predicate Asked(h: seq<Event>) {
    h != [] &&
    var e := h[|h| - 1];
    Asks(e) || (!Opens(e) && !Closes(e) && Asked(h[..|h| - 1]))
  }

  /** The principal part of the last request since. */
  function Request(h: seq<Event>): Bytes {
    if h == [] then []
    else
      var e := h[|h| - 1];
      if Asks(e) then FirstToken(if e.content == [] then [] else e.content[1..])
      else if Opens(e) || Closes(e) then []
      else Request(h[..|h| - 1])
  }

  /** What a continuation continues: nothing, a record, or the derivation. */
  datatype Base = NoBase | Direct(prefix: Bytes) | Derived

  function BaseOf(h: seq<Event>): Base {
    if h == [] then NoBase
    else
      var e := h[|h| - 1];
      if Reads(e, RECORD) then
        var p := BasePrefix(e.content);
        if p.Prefix? then Direct(p.text) else NoBase
      else if Opens(e) || Asks(e) then Derived
      else if Closes(e) then NoBase
      else BaseOf(h[..|h| - 1])
  }

  predicate Started(h: seq<Event>) {
    exists i :: 0 <= i < |h| && Reads(h[i], LEMMA)
  }

  // ----- what is written

  /** A line written: one of the input, a continued record, or an expanded derivation. */
  datatype Item = Copied(text: Bytes) | Continued(text: Bytes) | Expanded(text: Bytes, derivation: Derivation, request: Bytes)

  function Texts(items: seq<Item>): seq<Bytes> {
    seq(|items|, i requires 0 <= i < |items| => items[i].text)
  }

  function Expansion(f: Expander, d: MaybeDerivation, request: Bytes): seq<Item> {
    if Expands(f, d, request) then [Expanded(f(d.derivation, request), d.derivation, request)] else []
  }

  /** The live derivation has not been asked for anything: it still has to be expanded. */
  predicate Due(h: seq<Event>) {
    Live(h).Some? && !Asked(h)
  }

  function Flush(f: Expander, h: seq<Event>): seq<Item> {
    if Due(h) then Expansion(f, Live(h), PR) else []
  }

  predicate FlushOk(f: Expander, h: seq<Event>) {
    Due(h) ==> Expands(f, Live(h), PR)
  }

  /** The events on which a derivation that is due is expanded. */
  predicate Flushes(e: Event) {
    Opens(e) || Reads(e, LEMMA) || (e.Excepted? && e.kind == INVALID_DERIVATION)
  }

  /** The request of a continuation line. */
  function ContinuedRequest(h: seq<Event>, content: Bytes): Bytes
    requires content != []
  {
    var c := Trimmed(content[1..]);
    Request(h) + (if c == [] then [] else [32]) + c
  }

  /** The preparer goes on after e. */
  predicate Accepts(f: Expander, h: seq<Event>, e: Event) {
    (Flushes(e) ==> FlushOk(f, h)) &&
    if e.Line? then
      match RoleOf(e.content)
      case LEMMA => Trimmed(e.content[4..]) != []
      case RECORD => Started(h) && BasePrefix(e.content).Prefix?
      case CONTINUATION => Started(h) && BaseOf(h) != NoBase && (BaseOf(h) == Derived ==> ContinuationOk(f, h, e.content))
      case DERIVATION =>
        Started(h) && !(|e.content| > 4 && Blank(e.content[4])) && DerivationOf(e.content[4..]).Some?
      case REQUEST => RequestOk(e.content) && Expands(f, Live(h), Trimmed(e.content[1..]))
      case OTHER => true
    else Allows(h, e.kind, e.content)
  }

  predicate ContinuationOk(f: Expander, h: seq<Event>, content: Bytes)
    requires content != []
  {
    && Request(h) != [] && |ContinuedRequest(h, content)| < LONGSTRING * 2
    && Expands(f, Live(h), ContinuedRequest(h, content))
  }

  predicate RequestOk(content: Bytes)
    requires content != []
  {
    0 < |FirstToken(content[1..])| < LONGSTRING && |Trimmed(content[1..])| < LONGSTRING
  }

  /** The line and the state are what the exception is for. */
  predicate Allows(h: seq<Event>, kind: ExceptionKind, content: Bytes) {
    content != [] &&
    match kind
    case INVALID_DERIVATION => DE_TAG <= content
    case INVALID_RECORD => RecordKind(content) != 0 && |content| > 4 && Blank(content[4])
    case ORPHAN_CONTINUATION => content[0] == AT_SIGN
    case ORPHAN_REQUEST => content[0] == SEMICOLON && Live(h) == NoDerivation
    case ZERO_CONTINUATION => content[0] == AT_SIGN && BaseOf(h) == Derived
    case ZERO_REQUEST => content[0] == SEMICOLON && Live(h).Some? && 0 < |FirstToken(content[1..])| < LONGSTRING
  }

  /** What is written on e. */
  function Emission(f: Expander, h: seq<Event>, e: Event): seq<Item> {
    (if Flushes(e) then Flush(f, h) else []) +
    if Reads(e, LEMMA) || Reads(e, RECORD) then [Copied(e.content)]
    else if Reads(e, CONTINUATION) then
      if BaseOf(h).Direct? then [Continued(BaseOf(h).prefix + e.content[1..])]
      else Expansion(f, Live(h), ContinuedRequest(h, e.content))
    else if Reads(e, REQUEST) then Expansion(f, Live(h), Trimmed(e.content[1..]))
    else []
  }

  predicate Accepted(f: Expander, h: seq<Event>) {
    h == [] || (Accepted(f, h[..|h| - 1]) && Accepts(f, h[..|h| - 1], h[|h| - 1]))
  }

  function Output(f: Expander, h: seq<Event>): seq<Item> {
    if h == [] then [] else Output(f, h[..|h| - 1]) + Emission(f, h[..|h| - 1], h[|h| - 1])
  }

  /** A whole file: a derivation that is due at the end is expanded there. */
  predicate FileAccepted(f: Expander, h: seq<Event>) {
    Accepted(f, h) && FlushOk(f, h)
  }

  function FileItems(f: Expander, h: seq<Event>): seq<Item> {
    Output(f, h) + Flush(f, h)
  }

  // ----- line by line

  lemma OnLemma(f: Expander, h: seq<Event>, content: Bytes)
    requires RoleOf(content) == LEMMA
    ensures |content| >= 4 && Reads(Line(content), LEMMA)
    ensures Accepts(f, h, Line(content)) <==> FlushOk(f, h) && Trimmed(content[4..]) != []
    ensures Emission(f, h, Line(content)) == Flush(f, h) + [Copied(content)]
  {
    hide FlushOk, Flush, Trimmed;
  }

  lemma OnRecord(f: Expander, h: seq<Event>, content: Bytes)
    requires RoleOf(content) == RECORD
    ensures Reads(Line(content), RECORD) && RecordKind(content) != 0
    ensures Accepts(f, h, Line(content)) <==> Started(h) && BasePrefix(content).Prefix?
    ensures Emission(f, h, Line(content)) == [Copied(content)]
  {
    hide FlushOk, Flush, Started, BasePrefix, RecordKind;
  }

  lemma OnContinuation(f: Expander, h: seq<Event>, content: Bytes)
    requires RoleOf(content) == CONTINUATION
    ensures content != [] && !Reads(Line(content), RECORD) && !Reads(Line(content), LEMMA)
    ensures !Opens(Line(content)) && !Closes(Line(content)) && !Asks(Line(content))
    ensures Accepts(f, h, Line(content)) <==>
            Started(h) && BaseOf(h) != NoBase && (BaseOf(h) == Derived ==> ContinuationOk(f, h, content))
    ensures Emission(f, h, Line(content)) ==
            if BaseOf(h).Direct? then [Continued(BaseOf(h).prefix + content[1..])]
            else Expansion(f, Live(h), ContinuedRequest(h, content))
  {
    hide FlushOk, Flush, Started, Expansion, ContinuedRequest, ContinuationOk, RecordKind;
  }

  lemma OnDerivation(f: Expander, h: seq<Event>, content: Bytes)
    requires RoleOf(content) == DERIVATION
    ensures |content| >= 4 && Reads(Line(content), DERIVATION)
    ensures Accepts(f, h, Line(content)) <==>
            FlushOk(f, h) && Started(h) && !(|content| > 4 && Blank(content[4])) && DerivationOf(content[4..]).Some?
    ensures Emission(f, h, Line(content)) == Flush(f, h)
  {
    hide FlushOk, Flush, Started, DerivationOf, RecordKind;
    assert Flush(f, h) + [] == Flush(f, h);
  }

  lemma OnRequest(f: Expander, h: seq<Event>, content: Bytes)
    requires RoleOf(content) == REQUEST
    ensures content != [] && Asks(Line(content))
    ensures Accepts(f, h, Line(content)) <==> RequestOk(content) && Expands(f, Live(h), Trimmed(content[1..]))
    ensures Emission(f, h, Line(content)) == Expansion(f, Live(h), Trimmed(content[1..]))
  {
    hide FlushOk, Flush, Expansion, Expands, RequestOk, Trimmed, RecordKind;
  }

  lemma OnOther(f: Expander, h: seq<Event>, content: Bytes)
    requires RoleOf(content) == OTHER
    ensures !Opens(Line(content)) && !Closes(Line(content)) && !Asks(Line(content))
    ensures !Reads(Line(content), RECORD) && !Reads(Line(content), LEMMA)
    ensures Accepts(f, h, Line(content)) && Emission(f, h, Line(content)) == []
  {
    hide FlushOk, Flush;
  }

  lemma OnException(f: Expander, h: seq<Event>, e: Event)
    requires e.Excepted?
    ensures Accepts(f, h, e) <==> (e.kind == INVALID_DERIVATION ==> FlushOk(f, h)) && Allows(h, e.kind, e.content)
    ensures Emission(f, h, e) == if e.kind == INVALID_DERIVATION then Flush(f, h) else []
    ensures Asks(e) <==> e.kind == ZERO_REQUEST
    ensures e.kind != ZERO_REQUEST && e.kind != INVALID_DERIVATION ==>
              !Opens(e) && !Closes(e) && !Asks(e) && !Reads(e, RECORD) && !Reads(e, LEMMA)
  {
    hide FlushOk, Flush, Allows, RoleOf;
    assert Flush(f, h) + [] == Flush(f, h);
  }

  // ----- from lines to events

  // path_has_suffix
  predicate PathHasSuffix(path: Bytes, suffix: Bytes) {
    && |suffix| <= |path| && path[|path| - |suffix|..] == suffix
    && (|suffix| == |path| || path[|path| - |suffix| - 1] == 47)
  }

  predicate Matches(e: SourceException, path: Bytes, lineNumber: nat) {
    e.lineNumber == lineNumber && PathHasSuffix(path, e.path)
  }

  /** The first exception from i on for a line; their number if there is none. */
  function FirstMatch(es: seq<SourceException>, path: Bytes, lineNumber: nat, i: nat): (r: nat)
    requires i <= |es|
    ensures i <= r <= |es| && (r < |es| ==> Matches(es[r], path, lineNumber))
    ensures forall k | i <= k < r :: !Matches(es[k], path, lineNumber)
    decreases |es| - i
  {
    if i == |es| || Matches(es[i], path, lineNumber) then i else FirstMatch(es, path, lineNumber, i + 1)
  }

  predicate Ignored(content: Bytes) {
    content == [] || content[0] == HASH || content[0] == QUESTION
  }

  /** The events of some lines, and whether the requests and continuations that follow are
      skipped, for they belong to an excepted derivation. */
  datatype Scanned = Scanned(events: seq<Event>, skip: bool)

  function EventFor(es: seq<SourceException>, path: Bytes, lineNumber: nat, content: Bytes): Event {
    var i := FirstMatch(es, path, lineNumber, 0);
    if i < |es| then Excepted(i, es[i].kind, content) else Line(content)
  }

  function ScanLines(es: seq<SourceException>, path: Bytes, lines: seq<Bytes>): Scanned {
    if lines == [] then Scanned([], false)
    else
      var s := ScanLines(es, path, lines[..|lines| - 1]);
      var content := Trimmed(lines[|lines| - 1]);
      if Ignored(content) || (s.skip && (content[0] == SEMICOLON || content[0] == AT_SIGN)) then s
      else
        var e := EventFor(es, path, |lines|, content);
        Scanned(s.events + [e], e.Excepted? && e.kind == INVALID_DERIVATION)
  }

  /** The exceptions applied by some events. */
  function Indices(h: seq<Event>): seq<nat> {
    if h == [] then []
    else Indices(h[..|h| - 1]) + if h[|h| - 1].Excepted? then [h[|h| - 1].index] else []
  }

  /** The exception has not been applied before, and the line has its fingerprint. */
  ghost predicate Honoured(es: seq<SourceException>, applied: seq<nat>, e: Event) {
    e.Excepted? ==>
      e.index < |es| && e.index !in applied && es[e.index].sha256 == Sha256.HexText(Sha256.Digest(e.content))
  }

  ghost predicate AllHonoured(es: seq<SourceException>, applied: seq<nat>, h: seq<Event>) {
    h == [] || (AllHonoured(es, applied, h[..|h| - 1]) && Honoured(es, applied + Indices(h[..|h| - 1]), h[|h| - 1]))
  }

  /** A line that fits the buffer of fgets. */
  predicate Fits(line: Bytes) {
    !(|line| == LINE_CAPACITY - 1 && line[|line| - 1] != LF)
  }

  /** The preparer reads these lines without an error; `applied` are the exceptions applied before. */
  ghost predicate ReadsOn(f: Expander, es: seq<SourceException>, applied: seq<nat>, path: Bytes, lines: seq<Bytes>) {
    && (forall i {:trigger lines[i]} | 0 <= i < |lines| :: Fits(lines[i]))
    && Accepted(f, ScanLines(es, path, lines).events) && AllHonoured(es, applied, ScanLines(es, path, lines).events)
  }

  /** The event of one more line, if it has one. */
  ghost predicate IsNext(es: seq<SourceException>, path: Bytes, lines: seq<Bytes>, line: Bytes, e: Event) {
    var s, content := ScanLines(es, path, lines), Trimmed(line);
    && !Ignored(content) && !(s.skip && (content[0] == SEMICOLON || content[0] == AT_SIGN))
    && e == EventFor(es, path, |lines| + 1, content)
  }

  lemma BackLine(lines: seq<Bytes>, line: Bytes)
    ensures (lines + [line])[..|lines + [line]| - 1] == lines && (lines + [line])[|lines + [line]| - 1] == line
  {
  }

  lemma ScanNext(es: seq<SourceException>, path: Bytes, lines: seq<Bytes>, line: Bytes, e: Event)
    requires IsNext(es, path, lines, line, e)
    ensures ScanLines(es, path, lines + [line]) == Scanned(ScanLines(es, path, lines).events + [e], e.Excepted? && e.kind == INVALID_DERIVATION)
  {
    hide Trimmed, Ignored, EventFor;
    BackLine(lines, line);
  }

  lemma ScanSame(es: seq<SourceException>, path: Bytes, lines: seq<Bytes>, line: Bytes)
    requires forall e :: !IsNext(es, path, lines, line, e)
    ensures ScanLines(es, path, lines + [line]) == ScanLines(es, path, lines)
  {
    hide Trimmed, Ignored, EventFor;
    BackLine(lines, line);
    assert !IsNext(es, path, lines, line, EventFor(es, path, |lines| + 1, Trimmed(line)));
  }

  lemma FitsNext(lines: seq<Bytes>, line: Bytes)
    ensures (forall i {:trigger (lines + [line])[i]} | 0 <= i < |lines + [line]| :: Fits((lines + [line])[i])) <==>
            (forall i {:trigger lines[i]} | 0 <= i < |lines| :: Fits(lines[i])) && Fits(line)
  {
    hide Fits;
    var all := lines + [line];
    assert all[|lines|] == line;
    assert forall i | 0 <= i < |lines| :: all[i] == lines[i];
  }

  lemma ReadsOnNext(f: Expander, es: seq<SourceException>, applied: seq<nat>, path: Bytes, lines: seq<Bytes>, line: Bytes, e: Event)
    requires IsNext(es, path, lines, line, e)
    ensures var h := ScanLines(es, path, lines).events;
      ReadsOn(f, es, applied, path, lines + [line]) <==>
      ReadsOn(f, es, applied, path, lines) && Fits(line) && Accepts(f, h, e) && Honoured(es, applied + Indices(h), e)
  {
    hide IsNext, ScanLines, Fits, Accepts, Honoured, Indices;
    ScanNext(es, path, lines, line, e);
    FitsNext(lines, line);
    Back(ScanLines(es, path, lines).events, e);
  }

  lemma ReadsOnSame(f: Expander, es: seq<SourceException>, applied: seq<nat>, path: Bytes, lines: seq<Bytes>, line: Bytes)
    requires forall e :: !IsNext(es, path, lines, line, e)
    ensures ReadsOn(f, es, applied, path, lines + [line]) <==> ReadsOn(f, es, applied, path, lines) && Fits(line)
  {
    hide IsNext, ScanLines, Fits, Accepted, AllHonoured;
    ScanSame(es, path, lines, line);
    FitsNext(lines, line);
  }

  /** The events of a whole file. */
  function FileEvents(es: seq<SourceException>, path: Bytes, input: Bytes): seq<Event> {
    ScanLines(es, path, Lines(input)).events
  }

  /** A whole file is prepared. */
  ghost predicate FileOk(f: Expander, es: seq<SourceException>, applied: seq<nat>, path: Bytes, input: Bytes) {
    ReadsOn(f, es, applied, path, Lines(input)) && FlushOk(f, FileEvents(es, path, input))
  }

  datatype SourceFile = SourceFile(path: Bytes, input: Bytes)

  /** The exceptions applied in some files, one after the other. */
  function RunApplied(es: seq<SourceException>, files: seq<SourceFile>): seq<nat> {
    if files == [] then []
    else
      var file := files[|files| - 1];
      RunApplied(es, files[..|files| - 1]) + Indices(FileEvents(es, file.path, file.input))
  }

  /** All of them are prepared. */
  ghost predicate RunOk(f: Expander, es: seq<SourceException>, files: seq<SourceFile>) {
    files == [] ||
    var front, file := files[..|files| - 1], files[|files| - 1];
    RunOk(f, es, front) && FileOk(f, es, RunApplied(es, front), file.path, file.input)
  }

  /** What is written for them. */
  function RunItems(f: Expander, es: seq<SourceException>, files: seq<SourceFile>): seq<Item> {
    if files == [] then []
    else
      var file := files[|files| - 1];
      RunItems(f, es, files[..|files| - 1]) + FileItems(f, FileEvents(es, file.path, file.input))
  }

  /** An error is an error, whatever follows. */
  lemma {:induction false} ErrorStays(f: Expander, es: seq<SourceException>, applied: seq<nat>, path: Bytes, lines: seq<Bytes>, n: nat)
    requires n <= |lines| && ReadsOn(f, es, applied, path, lines)
    ensures ReadsOn(f, es, applied, path, lines[..n])
    decreases |lines|
  {
    hide ReadsOn, IsNext;
    if n == |lines| {
      assert lines[..n] == lines;
    } else {
      var front, line := lines[..|lines| - 1], lines[|lines| - 1];
      assert lines == front + [line] && lines[..n] == front[..n];
      if e: Event :| IsNext(es, path, front, line, e) {
        ReadsOnNext(f, es, applied, path, front, line, e);
      } else {
        ReadsOnSame(f, es, applied, path, front, line);
      }
      ErrorStays(f, es, applied, path, front, n);
    }
  }

  // ----- what the machine keeps

  datatype BaseKind = BASE_NONE | BASE_DIRECT | BASE_DERIVATION

  /** The fields of prepare_state. */
  datatype Fields = Fields(lemma_: bool, derivation: bool, asked: bool, base: BaseKind, prefix: Prefix, d: Derivation, request: Bytes)

  /** They mean what looking back gives. */
  ghost predicate Reflects(h: seq<Event>, s: Fields) {
    && (s.lemma_ <==> Started(h))
    && (s.derivation <==> Live(h).Some?) && (s.derivation ==> s.d == Live(h).derivation)
    && (s.asked <==> Asked(h))
    && (s.base == BASE_NONE <==> BaseOf(h) == NoBase) && (s.base == BASE_DERIVATION <==> BaseOf(h) == Derived)
    && (s.base == BASE_DIRECT ==> BaseOf(h).Direct? && s.prefix == Prefix(BaseOf(h).prefix))
    && (s.base == BASE_DERIVATION ==> s.request == Request(h))
    && (s.base == BASE_DERIVATION ==> s.derivation) && (s.derivation ==> s.lemma_) && (s.base == BASE_DIRECT ==> s.lemma_)
  }

  lemma ReflectsNothing(s: Fields)
    requires !s.lemma_ && !s.derivation && !s.asked && s.base == BASE_NONE
    ensures Reflects([], s)
  {
  }

  lemma StartedMore(h: seq<Event>, e: Event)
    ensures Started(h + [e]) <==> Started(h) || Reads(e, LEMMA)
  {
    var g := h + [e];
    if Started(h) {
      var i :| 0 <= i < |h| && Reads(h[i], LEMMA);
      assert g[i] == h[i];
    }
    assert g[|h|] == e;
  }

  lemma Back(h: seq<Event>, e: Event)
    ensures (h + [e])[..|h + [e]| - 1] == h && (h + [e])[|h + [e]| - 1] == e
  {
  }

  lemma ReflectsLemma(h: seq<Event>, s: Fields, e: Event)
    requires Reflects(h, s) && Reads(e, LEMMA)
    ensures Reflects(h + [e], s.(lemma_ := true, derivation := false, asked := false, base := BASE_NONE, prefix := NoPrefix))
  {
    hide RoleOf;
    Back(h, e);
    StartedMore(h, e);
  }

  lemma ReflectsRecord(h: seq<Event>, s: Fields, e: Event)
    requires Reflects(h, s) && Started(h) && Reads(e, RECORD) && BasePrefix(e.content).Prefix?
    ensures var t := s.(base := BASE_DIRECT, prefix := BasePrefix(e.content));
      Reflects(h + [e], if RecordKind(e.content) <= 3 then t.(derivation := false, asked := false, request := []) else t)
  {
    hide RoleOf, BasePrefix, RecordKind;
    Back(h, e);
    StartedMore(h, e);
  }

  lemma ReflectsDerivation(h: seq<Event>, s: Fields, e: Event, d: Derivation)
    requires Reflects(h, s) && Started(h) && Reads(e, DERIVATION) && |e.content| >= 4 && DerivationOf(e.content[4..]) == Some(d)
    ensures Reflects(h + [e], s.(derivation := true, asked := false, base := BASE_DERIVATION, d := d, request := []))
  {
    hide RoleOf, DerivationOf;
    Back(h, e);
    StartedMore(h, e);
  }

  lemma ReflectsAsking(h: seq<Event>, s: Fields, e: Event)
    requires Reflects(h, s) && Live(h).Some? && Asks(e) && e.content != []
    ensures Reflects(h + [e], s.(asked := true, base := BASE_DERIVATION, request := FirstToken(e.content[1..])))
  {
    hide RoleOf, FirstToken;
    Back(h, e);
    StartedMore(h, e);
  }

  lemma ReflectsInvalid(h: seq<Event>, s: Fields, e: Event)
    requires Reflects(h, s) && e.Excepted? && e.kind == INVALID_DERIVATION
    ensures Reflects(h + [e], s.(derivation := false, asked := false, base := BASE_NONE, request := []))
  {
    Back(h, e);
    StartedMore(h, e);
  }

  /** A line that changes no state. */
  lemma ReflectsStill(h: seq<Event>, s: Fields, e: Event)
    requires Reflects(h, s) && !Opens(e) && !Closes(e) && !Asks(e) && !Reads(e, RECORD) && !Reads(e, LEMMA)
    ensures Reflects(h + [e], s)
  {
    hide RoleOf;
    Back(h, e);
    StartedMore(h, e);
  }
}
