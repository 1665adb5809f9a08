/** The diagnostic side channel (Talac/Diagnostic/Protocol.cpp): documents that can be written and
    bytes that can be read are the two ends of one correspondence. */
module DiagnosticProtocol {
  import opened Wrappers
  import opened TypeIdentity
  import opened WireFormat

  type U32 = n: nat | n <= MAXIMUM_U32

  datatype Position = Position(line: U32, column: U32)

  datatype Location = Location(source: Text, start: Position, end: Position)

  datatype MessageArgument = MessageArgument(name: Text, value: Text)

  datatype RelatedLocation = RelatedLocation(location: Location, message: Text)

  datatype TextEdit = TextEdit(location: Location, replacement: Text)

  datatype Fix = Fix(title: Text, edits: seq<TextEdit>)

  datatype Record = Record(
    stage: Octet,
    severity: Octet,
    code: Text,
    message: Text,
    arguments: seq<MessageArgument>,
    primary: Option<Location>,
    related: seq<RelatedLocation>,
    fixes: seq<Fix>)

  datatype Document = Document(records: seq<Record>)

  datatype DocumentLimits = DocumentLimits(
    maximumWireBytes: nat,
    maximumRecords: nat,
    maximumTextScalars: nat,
    maximumArguments: nat,
    maximumRelatedLocations: nat,
    maximumFixes: nat,
    maximumEditsPerFix: nat)

  datatype Result<+T> = Done(value: T) | Failed(error: Error)

  const MAGIC: seq<Octet> := [84, 65, 68, 71]
  const VERSION: nat := 1
  const LAST_STAGE: nat := 14
  const PARSER: Octet := 2
  const LAST_SEVERITY: nat := 3
  const ERROR: Octet := 0
  const WARNING: Octet := 1
  const MAXIMUM_CODE: nat := 64

  function Larger(a: nat, b: nat): nat {
    if a < b then b else a
  }

  /** The limits of the wire below; those that the protocol has no use for keep their defaults. */
  function WireLimits(limits: DocumentLimits): Limits {
    Limits(limits.maximumWireBytes, limits.maximumTextScalars,
      Larger(Larger(limits.maximumArguments, limits.maximumRelatedLocations),
          Larger(limits.maximumFixes, limits.maximumEditsPerFix)),
      65535, 128, 4096)
  }

  // ---------------------------------------------------------------------------
  // Validation

  predicate PositionPrecedes(left: Position, right: Position) {
    left.line < right.line || (left.line == right.line && left.column <= right.column)
  }

  predicate ValidCode(code: Text) {
    && 0 < |code| <= MAXIMUM_CODE
    && forall i :: 0 <= i < |code| ==> 65 <= code[i] <= 90 || 48 <= code[i] <= 57 || code[i] == 45
  }

  predicate ValidLocation(l: Location) {
    l.source != [] && PositionPrecedes(l.start, l.end)
  }

  predicate ValidArguments(arguments: seq<MessageArgument>) {
    && (forall i :: 0 <= i < |arguments| ==> arguments[i].name != [])
    && (forall i, j :: 0 <= i < j < |arguments| ==> arguments[i].name != arguments[j].name)
  }

  predicate ValidRelated(related: seq<RelatedLocation>) {
    forall i :: 0 <= i < |related| ==> related[i].message != [] && ValidLocation(related[i].location)
  }

  predicate ValidEdits(edits: seq<TextEdit>) {
    forall i :: 0 <= i < |edits| ==> ValidLocation(edits[i].location)
  }

  function FixProblem(fix: Fix, limits: DocumentLimits): Option<ErrorKind> {
    if fix.title == [] || fix.edits == [] then Some(InvalidModel)
    else if |fix.edits| > limits.maximumEditsPerFix then Some(LimitExceeded)
    else if !ValidEdits(fix.edits) then Some(InvalidModel)
    else None
  }

  /** The problem of the first fix that has one. */
  function FixesProblem(fixes: seq<Fix>, limits: DocumentLimits): Option<ErrorKind> {
    if fixes == [] then None
    else if FixProblem(fixes[0], limits).Some? then FixProblem(fixes[0], limits)
    else FixesProblem(fixes[1..], limits)
  }

  function RecordProblem(r: Record, limits: DocumentLimits): Option<ErrorKind> {
    if r.stage > LAST_STAGE || r.severity > LAST_SEVERITY then Some(InvalidTag)
    else if !ValidCode(r.code) || r.message == [] then Some(InvalidModel)
    else if |r.arguments| > limits.maximumArguments || |r.related| > limits.maximumRelatedLocations
        || |r.fixes| > limits.maximumFixes
    then Some(LimitExceeded)
    else if !ValidArguments(r.arguments) || (r.primary.Some? && !ValidLocation(r.primary.value))
        || !ValidRelated(r.related)
    then Some(InvalidModel)
    else FixesProblem(r.fixes, limits)
  }

  /** The problem of the first record that has one. */
  function RecordsProblem(records: seq<Record>, limits: DocumentLimits): Option<ErrorKind> {
    if records == [] then None
    else if RecordProblem(records[0], limits).Some? then RecordProblem(records[0], limits)
    else RecordsProblem(records[1..], limits)
  }

  // ---------------------------------------------------------------------------
  // Writing

  function PutPosition(w: Limits, o: Output, p: Position): (r: Output)
    ensures Grows(w, o, r)
  {
    PutWord(w, PutWord(w, o, p.line, 4), p.column, 4)
  }

  function PutLocation(w: Limits, o: Output, l: Location): (r: Output)
    ensures Grows(w, o, r)
  {
    PutPosition(w, PutPosition(w, PutText(w, o, l.source), l.start), l.end)
  }

  function PutMessageArguments(w: Limits, o: Output, s: seq<MessageArgument>): (r: Output)
    ensures Grows(w, o, r)
    decreases s
  {
    if s == [] then o else PutMessageArguments(w, PutText(w, PutText(w, o, s[0].name), s[0].value), s[1..])
  }

  function PutRelated(w: Limits, o: Output, s: seq<RelatedLocation>): (r: Output)
    ensures Grows(w, o, r)
    decreases s
  {
    if s == [] then o else PutRelated(w, PutText(w, PutLocation(w, o, s[0].location), s[0].message), s[1..])
  }

  function PutEdits(w: Limits, o: Output, s: seq<TextEdit>): (r: Output)
    ensures Grows(w, o, r)
    decreases s
  {
    if s == [] then o else PutEdits(w, PutText(w, PutLocation(w, o, s[0].location), s[0].replacement), s[1..])
  }

  function PutFix(limits: DocumentLimits, o: Output, fix: Fix): (r: Output)
    ensures Grows(WireLimits(limits), o, r)
  {
    var w := WireLimits(limits);
    PutEdits(w, PutCount(w, PutText(w, o, fix.title), |fix.edits|, limits.maximumEditsPerFix), fix.edits)
  }

  function PutFixes(limits: DocumentLimits, o: Output, s: seq<Fix>): (r: Output)
    ensures Grows(WireLimits(limits), o, r)
    decreases s
  {
    if s == [] then o else PutFixes(limits, PutFix(limits, o, s[0]), s[1..])
  }

  function PutPrimary(w: Limits, o: Output, primary: Option<Location>): (r: Output)
    ensures Grows(w, o, r)
  {
    var present := PutBoolean(w, o, primary.Some?);
    if primary.Some? then PutLocation(w, present, primary.value) else present
  }

  function PutHead(w: Limits, o: Output, r: Record): (after: Output)
    ensures Grows(w, o, after)
  {
    PutText(w, PutText(w, PutByte(w, PutByte(w, o, r.stage), r.severity), r.code), r.message)
  }

  function PutRecord(limits: DocumentLimits, o: Output, r: Record): (after: Output)
    ensures Grows(WireLimits(limits), o, after)
  {
    var w := WireLimits(limits);
    var head := PutHead(w, o, r);
    var arguments := PutMessageArguments(w, PutCount(w, head, |r.arguments|, limits.maximumArguments), r.arguments);
    var primary := PutPrimary(w, arguments, r.primary);
    var related := PutRelated(w, PutCount(w, primary, |r.related|, limits.maximumRelatedLocations), r.related);
    PutFixes(limits, PutCount(w, related, |r.fixes|, limits.maximumFixes), r.fixes)
  }

  function PutRecords(limits: DocumentLimits, o: Output, s: seq<Record>): (r: Output)
    ensures Grows(WireLimits(limits), o, r)
    decreases s
  {
    if s == [] then o else PutRecords(limits, PutRecord(limits, o, s[0]), s[1..])
  }

  function PutBytes(w: Limits, o: Output, s: seq<Octet>): (r: Output)
    ensures Grows(w, o, r)
    decreases s
  {
    if s == [] then o else PutBytes(w, PutByte(w, o, s[0]), s[1..])
  }

  function PutHeader(w: Limits, o: Output): (r: Output)
    ensures Grows(w, o, r)
  {
    PutWord(w, PutWord(w, PutBytes(w, o, MAGIC), VERSION, 2), 0, 2)
  }

  function PutDocument(limits: DocumentLimits, d: Document): Output {
    var w := WireLimits(limits);
    PutRecords(limits, PutCount(w, PutHeader(w, Output([], None)), |d.records|, limits.maximumRecords), d.records)
  }

  function Encode(d: Document, limits: DocumentLimits): Result<seq<Octet>> {
    if |d.records| > limits.maximumRecords then Failed(Error(LimitExceeded, 0))
    else
      match RecordsProblem(d.records, limits)
      case Some(kind) => Failed(Error(kind, 0))
      case None =>
        var o := PutDocument(limits, d);
        if o.failure.Some? then Failed(o.failure.value) else Done(o.bytes)
  }

  // ---------------------------------------------------------------------------
  // Reading

  function TakeU32(input: seq<Octet>, c: Cursor): (r: Read<U32>)
    ensures Moves(input, c, r.next)
  {
    WordIsSmall(input, c, 4);
    Powers();
    var word := TakeWord(input, c, 4);
    Read(word.value, word.next)
  }

  function TakePosition(input: seq<Octet>, c: Cursor): (r: Read<Position>)
    ensures Moves(input, c, r.next)
  {
    var line := TakeU32(input, c);
    var column := TakeU32(input, line.next);
    Read(Position(line.value, column.value), column.next)
  }

  function TakeLocation(w: Limits, input: seq<Octet>, c: Cursor): (r: Read<Location>)
    ensures Moves(input, c, r.next)
  {
    var source := TakeText(w, input, c);
    var start := TakePosition(input, source.next);
    var end := TakePosition(input, start.next);
    Read(Location(source.value, start.value, end.value), end.next)
  }

  function TakeMessageArguments(w: Limits, input: seq<Octet>, c: Cursor, count: nat): (r: Read<seq<MessageArgument>>)
    ensures Moves(input, c, r.next)
    decreases count
  {
    if count == 0 || c.failure.Some? then Read([], c)
    else
      var name := TakeText(w, input, c);
      var value := TakeText(w, input, name.next);
      var rest := TakeMessageArguments(w, input, value.next, count - 1);
      Read([MessageArgument(name.value, value.value)] + rest.value, rest.next)
  }

  function TakeRelated(w: Limits, input: seq<Octet>, c: Cursor, count: nat): (r: Read<seq<RelatedLocation>>)
    ensures Moves(input, c, r.next)
    decreases count
  {
    if count == 0 || c.failure.Some? then Read([], c)
    else
      var location := TakeLocation(w, input, c);
      var message := TakeText(w, input, location.next);
      var rest := TakeRelated(w, input, message.next, count - 1);
      Read([RelatedLocation(location.value, message.value)] + rest.value, rest.next)
  }

  function TakeEdits(w: Limits, input: seq<Octet>, c: Cursor, count: nat): (r: Read<seq<TextEdit>>)
    ensures Moves(input, c, r.next)
    decreases count
  {
    if count == 0 || c.failure.Some? then Read([], c)
    else
      var location := TakeLocation(w, input, c);
      var replacement := TakeText(w, input, location.next);
      var rest := TakeEdits(w, input, replacement.next, count - 1);
      Read([TextEdit(location.value, replacement.value)] + rest.value, rest.next)
  }

  function TakeFix(limits: DocumentLimits, input: seq<Octet>, c: Cursor): (r: Read<Fix>)
    ensures Moves(input, c, r.next)
  {
    var w := WireLimits(limits);
    var title := TakeText(w, input, c);
    var n := TakeCount(input, title.next, limits.maximumEditsPerFix);
    var edits := TakeEdits(w, input, n.next, n.value);
    Read(Fix(title.value, edits.value), edits.next)
  }

  function TakeFixes(limits: DocumentLimits, input: seq<Octet>, c: Cursor, count: nat): (r: Read<seq<Fix>>)
    ensures Moves(input, c, r.next)
    decreases count
  {
    if count == 0 || c.failure.Some? then Read([], c)
    else
      var fix := TakeFix(limits, input, c);
      var rest := TakeFixes(limits, input, fix.next, count - 1);
      Read([fix.value] + rest.value, rest.next)
  }

  function TakePrimary(w: Limits, input: seq<Octet>, c: Cursor): (r: Read<Option<Location>>)
    ensures Moves(input, c, r.next)
  {
    var present := TakeBoolean(input, c);
    if !present.value then Read(None, present.next)
    else
      var location := TakeLocation(w, input, present.next);
      Read(Some(location.value), location.next)
  }

  /** A tag of an enumeration, or the given one where the tag is unknown. */
  function TakeTag(input: seq<Octet>, c: Cursor, last: nat, otherwise: Octet): (r: Read<Octet>)
    ensures Moves(input, c, r.next)
  {
    var tag := TakeByte(input, c);
    if tag.value > last then Read(otherwise, Reject(tag.next, InvalidTag)) else tag
  }

  /** Stage, severity, code and message; the other fields are empty. */
  function TakeHead(w: Limits, input: seq<Octet>, c: Cursor): (r: Read<Record>)
    ensures Moves(input, c, r.next)
  {
    var stage := TakeTag(input, c, LAST_STAGE, PARSER);
    var severity := TakeTag(input, stage.next, LAST_SEVERITY, ERROR);
    var code := TakeText(w, input, severity.next);
    var message := TakeText(w, input, code.next);
    Read(Record(stage.value, severity.value, code.value, message.value, [], None, [], []), message.next)
  }

  function TakeRecord(limits: DocumentLimits, input: seq<Octet>, c: Cursor): (r: Read<Record>)
    ensures Moves(input, c, r.next)
  {
    var w := WireLimits(limits);
    var head := TakeHead(w, input, c);
    var argumentCount := TakeCount(input, head.next, limits.maximumArguments);
    var arguments := TakeMessageArguments(w, input, argumentCount.next, argumentCount.value);
    var primary := TakePrimary(w, input, arguments.next);
    var relatedCount := TakeCount(input, primary.next, limits.maximumRelatedLocations);
    var related := TakeRelated(w, input, relatedCount.next, relatedCount.value);
    var fixCount := TakeCount(input, related.next, limits.maximumFixes);
    var fixes := TakeFixes(limits, input, fixCount.next, fixCount.value);
    Read(head.value.(arguments := arguments.value, primary := primary.value, related := related.value,
        fixes := fixes.value), fixes.next)
  }

  /** A record that was read is validated before the next one. */
  function TakeRecords(limits: DocumentLimits, input: seq<Octet>, c: Cursor, count: nat): (r: Read<seq<Record>>)
    ensures Moves(input, c, r.next)
    decreases count
  {
    if count == 0 || c.failure.Some? then Read([], c)
    else
      var record := TakeRecord(limits, input, c);
      var problem := RecordProblem(record.value, limits);
      var next := if problem.Some? then Reject(record.next, problem.value) else record.next;
      var rest := TakeRecords(limits, input, next, count - 1);
      Read([record.value] + rest.value, rest.next)
  }

  /** The expected bytes, up to the first that differs. */
  function Expect(input: seq<Octet>, c: Cursor, expected: seq<Octet>): (next: Cursor)
    ensures Moves(input, c, next)
    decreases expected
  {
    if expected == [] then c
    else
      var b := TakeByte(input, c);
      if b.value != expected[0] then Reject(b.next, InvalidMagic) else Expect(input, b.next, expected[1..])
  }

  function ExpectWord(input: seq<Octet>, c: Cursor, expected: nat, kind: ErrorKind): (next: Cursor)
    ensures Moves(input, c, next)
  {
    var word := TakeWord(input, c, 2);
    if word.value != expected then Reject(word.next, kind) else word.next
  }

  function TakeHeader(input: seq<Octet>, c: Cursor): (next: Cursor)
    ensures Moves(input, c, next)
  {
    ExpectWord(input, ExpectWord(input, Expect(input, c, MAGIC), VERSION, UnsupportedVersion), 0, InvalidTag)
  }

  function TakeDocument(limits: DocumentLimits, input: seq<Octet>): Read<Document> {
    var n := TakeCount(input, TakeHeader(input, At(0)), limits.maximumRecords);
    var records := TakeRecords(limits, input, n.next, n.value);
    var next := if records.next.offset != |input| then Reject(records.next, TrailingInput) else records.next;
    Read(Document(records.value), next)
  }

  function Decode(input: seq<Octet>, limits: DocumentLimits): Result<Document> {
    if |input| > limits.maximumWireBytes then Failed(Error(LimitExceeded, 0))
    else
      var d := TakeDocument(limits, input);
      if d.next.failure.Some? then Failed(d.next.failure.value) else Done(d.value)
  }

  // ---------------------------------------------------------------------------
  // What is written is read back

  lemma U32ReadsBack(w: Limits, o: Output, value: U32, input: seq<Octet>)
    requires Wrote(o, PutWord(w, o, value, 4), input)
    ensures TakeU32(input, At(|o.bytes|)) == Read(value, At(|PutWord(w, o, value, 4).bytes|))
  {
    Powers();
    FieldReadsBack(w, o, value, 4, input);
  }

  lemma PositionReadsBack(w: Limits, o: Output, p: Position, input: seq<Octet>)
    requires Wrote(o, PutPosition(w, o, p), input)
    ensures TakePosition(input, At(|o.bytes|)) == Read(p, At(|PutPosition(w, o, p).bytes|))
  {
    hide PutWord, TakeU32;
    U32ReadsBack(w, o, p.line, input);
    U32ReadsBack(w, PutWord(w, o, p.line, 4), p.column, input);
  }

  lemma LocationReadsBack(w: Limits, o: Output, l: Location, input: seq<Octet>)
    requires Wrote(o, PutLocation(w, o, l), input)
    ensures TakeLocation(w, input, At(|o.bytes|)) == Read(l, At(|PutLocation(w, o, l).bytes|))
  {
    hide PutText, TakeText, PutPosition, TakePosition;
    var source := PutText(w, o, l.source);
    TextReadsBack(w, o, l.source, input);
    PositionReadsBack(w, source, l.start, input);
    PositionReadsBack(w, PutPosition(w, source, l.start), l.end, input);
  }

  lemma {:induction false} MessageArgumentsReadBack(w: Limits, o: Output, s: seq<MessageArgument>, input: seq<Octet>)
    requires Wrote(o, PutMessageArguments(w, o, s), input)
    ensures TakeMessageArguments(w, input, At(|o.bytes|), |s|) == Read(s, At(|PutMessageArguments(w, o, s).bytes|))
    decreases s
  {
    hide PutText, TakeText;
    if s != [] {
      var name := PutText(w, o, s[0].name);
      TextReadsBack(w, o, s[0].name, input);
      TextReadsBack(w, name, s[0].value, input);
      MessageArgumentsReadBack(w, PutText(w, name, s[0].value), s[1..], input);
      assert s == [s[0]] + s[1..];
    }
  }

  lemma {:induction false} RelatedReadsBack(w: Limits, o: Output, s: seq<RelatedLocation>, input: seq<Octet>)
    requires Wrote(o, PutRelated(w, o, s), input)
    ensures TakeRelated(w, input, At(|o.bytes|), |s|) == Read(s, At(|PutRelated(w, o, s).bytes|))
    decreases s
  {
    hide PutText, TakeText, PutLocation, TakeLocation;
    if s != [] {
      var location := PutLocation(w, o, s[0].location);
      LocationReadsBack(w, o, s[0].location, input);
      TextReadsBack(w, location, s[0].message, input);
      RelatedReadsBack(w, PutText(w, location, s[0].message), s[1..], input);
      assert s == [s[0]] + s[1..];
    }
  }

  lemma {:induction false} EditsReadBack(w: Limits, o: Output, s: seq<TextEdit>, input: seq<Octet>)
    requires Wrote(o, PutEdits(w, o, s), input)
    ensures TakeEdits(w, input, At(|o.bytes|), |s|) == Read(s, At(|PutEdits(w, o, s).bytes|))
    decreases s
  {
    hide PutText, TakeText, PutLocation, TakeLocation;
    if s != [] {
      var location := PutLocation(w, o, s[0].location);
      LocationReadsBack(w, o, s[0].location, input);
      TextReadsBack(w, location, s[0].replacement, input);
      EditsReadBack(w, PutText(w, location, s[0].replacement), s[1..], input);
      assert s == [s[0]] + s[1..];
    }
  }

  lemma FixReadsBack(limits: DocumentLimits, o: Output, fix: Fix, input: seq<Octet>)
    requires Wrote(o, PutFix(limits, o, fix), input)
    ensures TakeFix(limits, input, At(|o.bytes|)) == Read(fix, At(|PutFix(limits, o, fix).bytes|))
  {
    hide PutText, TakeText, PutCount, TakeCount, PutEdits, TakeEdits;
    var w := WireLimits(limits);
    var title := PutText(w, o, fix.title);
    TextReadsBack(w, o, fix.title, input);
    CountReadsBack(w, title, |fix.edits|, limits.maximumEditsPerFix, input);
    EditsReadBack(w, PutCount(w, title, |fix.edits|, limits.maximumEditsPerFix), fix.edits, input);
  }

  lemma {:induction false} FixesReadBack(limits: DocumentLimits, o: Output, s: seq<Fix>, input: seq<Octet>)
    requires Wrote(o, PutFixes(limits, o, s), input)
    ensures TakeFixes(limits, input, At(|o.bytes|), |s|) == Read(s, At(|PutFixes(limits, o, s).bytes|))
    decreases s
  {
    hide PutFix, TakeFix;
    if s != [] {
      FixReadsBack(limits, o, s[0], input);
      FixesReadBack(limits, PutFix(limits, o, s[0]), s[1..], input);
      assert s == [s[0]] + s[1..];
    }
  }

  lemma PrimaryReadsBack(w: Limits, o: Output, primary: Option<Location>, input: seq<Octet>)
    requires Wrote(o, PutPrimary(w, o, primary), input)
    ensures TakePrimary(w, input, At(|o.bytes|)) == Read(primary, At(|PutPrimary(w, o, primary).bytes|))
  {
    hide PutBoolean, TakeBoolean, PutLocation, TakeLocation;
    BooleanReadsBack(w, o, primary.Some?, input);
    if primary.Some? {
      LocationReadsBack(w, PutBoolean(w, o, true), primary.value, input);
    }
  }

  lemma HeadReadsBack(w: Limits, o: Output, r: Record, input: seq<Octet>)
    requires Wrote(o, PutHead(w, o, r), input) && r.stage <= LAST_STAGE && r.severity <= LAST_SEVERITY
    ensures TakeHead(w, input, At(|o.bytes|))
         == Read(Record(r.stage, r.severity, r.code, r.message, [], None, [], []), At(|PutHead(w, o, r).bytes|))
  {
    hide PutByte, TakeByte, PutText, TakeText;
    var stage := PutByte(w, o, r.stage);
    var severity := PutByte(w, stage, r.severity);
    ByteReadsBack(w, o, r.stage, input);
    ByteReadsBack(w, stage, r.severity, input);
    TextReadsBack(w, severity, r.code, input);
    TextReadsBack(w, PutText(w, severity, r.code), r.message, input);
  }

  lemma RecordReadsBack(limits: DocumentLimits, o: Output, r: Record, input: seq<Octet>)
    requires Wrote(o, PutRecord(limits, o, r), input) && r.stage <= LAST_STAGE && r.severity <= LAST_SEVERITY
    ensures TakeRecord(limits, input, At(|o.bytes|)) == Read(r, At(|PutRecord(limits, o, r).bytes|))
  {
    hide PutHead, TakeHead, PutCount, TakeCount, PutMessageArguments, TakeMessageArguments, PutPrimary, TakePrimary;
    hide PutRelated, TakeRelated, PutFixes, TakeFixes, WireLimits;
    var w := WireLimits(limits);
    var head := PutHead(w, o, r);
    HeadReadsBack(w, o, r, input);
    var argumentCount := PutCount(w, head, |r.arguments|, limits.maximumArguments);
    CountReadsBack(w, head, |r.arguments|, limits.maximumArguments, input);
    var arguments := PutMessageArguments(w, argumentCount, r.arguments);
    MessageArgumentsReadBack(w, argumentCount, r.arguments, input);
    var primary := PutPrimary(w, arguments, r.primary);
    PrimaryReadsBack(w, arguments, r.primary, input);
    var relatedCount := PutCount(w, primary, |r.related|, limits.maximumRelatedLocations);
    CountReadsBack(w, primary, |r.related|, limits.maximumRelatedLocations, input);
    var related := PutRelated(w, relatedCount, r.related);
    RelatedReadsBack(w, relatedCount, r.related, input);
    CountReadsBack(w, related, |r.fixes|, limits.maximumFixes, input);
    FixesReadBack(limits, PutCount(w, related, |r.fixes|, limits.maximumFixes), r.fixes, input);
  }

  lemma {:induction false} RecordsReadBack(limits: DocumentLimits, o: Output, s: seq<Record>, input: seq<Octet>)
    requires Wrote(o, PutRecords(limits, o, s), input) && RecordsProblem(s, limits).None?
    ensures TakeRecords(limits, input, At(|o.bytes|), |s|) == Read(s, At(|PutRecords(limits, o, s).bytes|))
    decreases s
  {
    hide PutRecord, TakeRecord, WireLimits;
    if s != [] {
      assert RecordProblem(s[0], limits).None?;
      RecordReadsBack(limits, o, s[0], input);
      RecordsReadBack(limits, PutRecord(limits, o, s[0]), s[1..], input);
      assert s == [s[0]] + s[1..];
    }
  }

  lemma {:induction false} ExpectedBytes(w: Limits, o: Output, s: seq<Octet>, input: seq<Octet>)
    requires Wrote(o, PutBytes(w, o, s), input)
    ensures Expect(input, At(|o.bytes|), s) == At(|PutBytes(w, o, s).bytes|)
    decreases s
  {
    if s != [] {
      ByteReadsBack(w, o, s[0], input);
      ExpectedBytes(w, PutByte(w, o, s[0]), s[1..], input);
    }
  }

  lemma HeaderReadsBack(w: Limits, input: seq<Octet>)
    requires Wrote(Output([], None), PutHeader(w, Output([], None)), input)
    ensures TakeHeader(input, At(0)) == At(|PutHeader(w, Output([], None)).bytes|)
  {
    hide PutBytes, Expect, PutWord, TakeWord;
    var o := Output([], None);
    var magic := PutBytes(w, o, MAGIC);
    var version := PutWord(w, magic, VERSION, 2);
    Powers();
    ExpectedBytes(w, o, MAGIC, input);
    FieldReadsBack(w, magic, VERSION, 2, input);
    FieldReadsBack(w, version, 0, 2, input);
  }

  /** An encoded document decodes to itself. */
  lemma EncodeThenDecode(d: Document, limits: DocumentLimits)
    requires Encode(d, limits).Done?
    ensures Decode(Encode(d, limits).value, limits) == Done(d)
  {
    hide PutHeader, TakeHeader, PutCount, TakeCount, PutRecords, TakeRecords, WireLimits, RecordsProblem;
    var w := WireLimits(limits);
    var header := PutHeader(w, Output([], None));
    var n := PutCount(w, header, |d.records|, limits.maximumRecords);
    var after := PutRecords(limits, n, d.records);
    WireLimitIsKept(limits);
    assert Grows(w, Output([], None), after);
    HeaderReadsBack(w, after.bytes);
    CountReadsBack(w, header, |d.records|, limits.maximumRecords, after.bytes);
    RecordsReadBack(limits, n, d.records, after.bytes);
  }

  lemma WireLimitIsKept(limits: DocumentLimits)
    ensures WireLimits(limits).maximumWireBytes == limits.maximumWireBytes
  {
  }

  // ---------------------------------------------------------------------------
  // What is read is what was written

  lemma PositionWritesBack(w: Limits, input: seq<Octet>, offset: nat)
    requires Took(w, input, offset, TakePosition(input, At(offset)).next)
    ensures var r := TakePosition(input, At(offset));
            PutPosition(w, Written(input, offset), r.value) == Written(input, r.next.offset)
  {
    hide PutWord, TakeWord;
    var line := TakeU32(input, At(offset));
    FieldWritesBack(w, input, offset, 4);
    assert line.next == At(line.next.offset);
    FieldWritesBack(w, input, line.next.offset, 4);
  }

  lemma LocationWritesBack(w: Limits, input: seq<Octet>, offset: nat)
    requires Took(w, input, offset, TakeLocation(w, input, At(offset)).next)
    ensures var r := TakeLocation(w, input, At(offset));
            PutLocation(w, Written(input, offset), r.value) == Written(input, r.next.offset)
  {
    hide PutText, TakeText, PutPosition, TakePosition;
    var source := TakeText(w, input, At(offset));
    TextWritesBack(w, input, offset);
    assert source.next == At(source.next.offset);
    var start := TakePosition(input, source.next);
    PositionWritesBack(w, input, source.next.offset);
    assert start.next == At(start.next.offset);
    PositionWritesBack(w, input, start.next.offset);
  }

  lemma {:induction false} MessageArgumentsWriteBack(w: Limits, input: seq<Octet>, offset: nat, count: nat)
    requires Took(w, input, offset, TakeMessageArguments(w, input, At(offset), count).next)
    ensures var r := TakeMessageArguments(w, input, At(offset), count);
            PutMessageArguments(w, Written(input, offset), r.value) == Written(input, r.next.offset)
                && |r.value| == count
    decreases count
  {
    hide PutText, TakeText;
    if count > 0 {
      var name := TakeText(w, input, At(offset));
      TextWritesBack(w, input, offset);
      assert name.next == At(name.next.offset);
      var value := TakeText(w, input, name.next);
      TextWritesBack(w, input, name.next.offset);
      assert value.next == At(value.next.offset);
      MessageArgumentsWriteBack(w, input, value.next.offset, count - 1);
      var r := TakeMessageArguments(w, input, At(offset), count);
      assert r.value[1..] == TakeMessageArguments(w, input, value.next, count - 1).value;
    }
  }

  lemma {:induction false} RelatedWritesBack(w: Limits, input: seq<Octet>, offset: nat, count: nat)
    requires Took(w, input, offset, TakeRelated(w, input, At(offset), count).next)
    ensures var r := TakeRelated(w, input, At(offset), count);
            PutRelated(w, Written(input, offset), r.value) == Written(input, r.next.offset) && |r.value| == count
    decreases count
  {
    hide PutText, TakeText, PutLocation, TakeLocation;
    if count > 0 {
      var location := TakeLocation(w, input, At(offset));
      LocationWritesBack(w, input, offset);
      assert location.next == At(location.next.offset);
      var message := TakeText(w, input, location.next);
      TextWritesBack(w, input, location.next.offset);
      assert message.next == At(message.next.offset);
      RelatedWritesBack(w, input, message.next.offset, count - 1);
      var r := TakeRelated(w, input, At(offset), count);
      assert r.value[1..] == TakeRelated(w, input, message.next, count - 1).value;
    }
  }

  lemma {:induction false} EditsWriteBack(w: Limits, input: seq<Octet>, offset: nat, count: nat)
    requires Took(w, input, offset, TakeEdits(w, input, At(offset), count).next)
    ensures var r := TakeEdits(w, input, At(offset), count);
            PutEdits(w, Written(input, offset), r.value) == Written(input, r.next.offset) && |r.value| == count
    decreases count
  {
    hide PutText, TakeText, PutLocation, TakeLocation;
    if count > 0 {
      var location := TakeLocation(w, input, At(offset));
      LocationWritesBack(w, input, offset);
      assert location.next == At(location.next.offset);
      var replacement := TakeText(w, input, location.next);
      TextWritesBack(w, input, location.next.offset);
      assert replacement.next == At(replacement.next.offset);
      EditsWriteBack(w, input, replacement.next.offset, count - 1);
      var r := TakeEdits(w, input, At(offset), count);
      assert r.value[1..] == TakeEdits(w, input, replacement.next, count - 1).value;
    }
  }

  lemma FixWritesBack(limits: DocumentLimits, input: seq<Octet>, offset: nat)
    requires Took(WireLimits(limits), input, offset, TakeFix(limits, input, At(offset)).next)
    ensures var r := TakeFix(limits, input, At(offset));
            PutFix(limits, Written(input, offset), r.value) == Written(input, r.next.offset)
  {
    hide PutText, TakeText, PutCount, TakeCount, PutEdits, TakeEdits;
    var w := WireLimits(limits);
    var title := TakeText(w, input, At(offset));
    TextWritesBack(w, input, offset);
    assert title.next == At(title.next.offset);
    var n := TakeCount(input, title.next, limits.maximumEditsPerFix);
    CountWritesBack(w, input, title.next.offset, limits.maximumEditsPerFix);
    assert n.next == At(n.next.offset);
    EditsWriteBack(w, input, n.next.offset, n.value);
  }

  lemma {:induction false} FixesWriteBack(limits: DocumentLimits, input: seq<Octet>, offset: nat, count: nat)
    requires Took(WireLimits(limits), input, offset, TakeFixes(limits, input, At(offset), count).next)
    ensures var r := TakeFixes(limits, input, At(offset), count);
            PutFixes(limits, Written(input, offset), r.value) == Written(input, r.next.offset) && |r.value| == count
    decreases count
  {
    hide PutFix, TakeFix;
    if count > 0 {
      var fix := TakeFix(limits, input, At(offset));
      FixWritesBack(limits, input, offset);
      assert fix.next == At(fix.next.offset);
      FixesWriteBack(limits, input, fix.next.offset, count - 1);
      var r := TakeFixes(limits, input, At(offset), count);
      assert r.value[1..] == TakeFixes(limits, input, fix.next, count - 1).value;
    }
  }

  lemma PrimaryWritesBack(w: Limits, input: seq<Octet>, offset: nat)
    requires Took(w, input, offset, TakePrimary(w, input, At(offset)).next)
    ensures var r := TakePrimary(w, input, At(offset));
            PutPrimary(w, Written(input, offset), r.value) == Written(input, r.next.offset)
  {
    hide PutBoolean, TakeBoolean, PutLocation, TakeLocation;
    var present := TakeBoolean(input, At(offset));
    BooleanWritesBack(w, input, offset);
    assert present.next == At(present.next.offset);
    if present.value {
      LocationWritesBack(w, input, present.next.offset);
    }
  }

  lemma HeadWritesBack(w: Limits, input: seq<Octet>, offset: nat)
    requires Took(w, input, offset, TakeHead(w, input, At(offset)).next)
    ensures var r := TakeHead(w, input, At(offset));
            PutHead(w, Written(input, offset), r.value) == Written(input, r.next.offset)
  {
    hide PutByte, TakeByte, PutText, TakeText;
    var stage := TakeTag(input, At(offset), LAST_STAGE, PARSER);
    ByteWritesBack(w, input, offset);
    assert stage.next == At(stage.next.offset);
    var severity := TakeTag(input, stage.next, LAST_SEVERITY, ERROR);
    ByteWritesBack(w, input, stage.next.offset);
    assert severity.next == At(severity.next.offset);
    var code := TakeText(w, input, severity.next);
    TextWritesBack(w, input, severity.next.offset);
    assert code.next == At(code.next.offset);
    TextWritesBack(w, input, code.next.offset);
  }

  lemma RecordWritesBack(limits: DocumentLimits, input: seq<Octet>, offset: nat)
    requires Took(WireLimits(limits), input, offset, TakeRecord(limits, input, At(offset)).next)
    ensures var r := TakeRecord(limits, input, At(offset));
            PutRecord(limits, Written(input, offset), r.value) == Written(input, r.next.offset)
  {
    hide TakeHead, PutCount, TakeCount, PutMessageArguments, TakeMessageArguments, PutPrimary, TakePrimary;
    hide PutRelated, TakeRelated, PutFixes, TakeFixes, WireLimits, PutText, PutByte;
    var w := WireLimits(limits);
    var head := TakeHead(w, input, At(offset));
    HeadWritesBack(w, input, offset);
    assert head.next == At(head.next.offset);
    var argumentCount := TakeCount(input, head.next, limits.maximumArguments);
    CountWritesBack(w, input, head.next.offset, limits.maximumArguments);
    assert argumentCount.next == At(argumentCount.next.offset);
    var arguments := TakeMessageArguments(w, input, argumentCount.next, argumentCount.value);
    MessageArgumentsWriteBack(w, input, argumentCount.next.offset, argumentCount.value);
    assert arguments.next == At(arguments.next.offset);
    var primary := TakePrimary(w, input, arguments.next);
    PrimaryWritesBack(w, input, arguments.next.offset);
    assert primary.next == At(primary.next.offset);
    var relatedCount := TakeCount(input, primary.next, limits.maximumRelatedLocations);
    CountWritesBack(w, input, primary.next.offset, limits.maximumRelatedLocations);
    assert relatedCount.next == At(relatedCount.next.offset);
    var related := TakeRelated(w, input, relatedCount.next, relatedCount.value);
    RelatedWritesBack(w, input, relatedCount.next.offset, relatedCount.value);
    assert related.next == At(related.next.offset);
    var fixCount := TakeCount(input, related.next, limits.maximumFixes);
    CountWritesBack(w, input, related.next.offset, limits.maximumFixes);
    assert fixCount.next == At(fixCount.next.offset);
    FixesWriteBack(limits, input, fixCount.next.offset, fixCount.value);
  }

  lemma {:induction false} RecordsWriteBack(limits: DocumentLimits, input: seq<Octet>, offset: nat, count: nat)
    requires Took(WireLimits(limits), input, offset, TakeRecords(limits, input, At(offset), count).next)
    ensures var r := TakeRecords(limits, input, At(offset), count);
            && PutRecords(limits, Written(input, offset), r.value) == Written(input, r.next.offset)
            && |r.value| == count
            && RecordsProblem(r.value, limits).None?
    decreases count
  {
    hide PutRecord, TakeRecord, WireLimits, RecordProblem;
    if count > 0 {
      var record := TakeRecord(limits, input, At(offset));
      assert RecordProblem(record.value, limits).None?;
      RecordWritesBack(limits, input, offset);
      assert record.next == At(record.next.offset);
      RecordsWriteBack(limits, input, record.next.offset, count - 1);
      var r := TakeRecords(limits, input, At(offset), count);
      assert r.value[1..] == TakeRecords(limits, input, record.next, count - 1).value;
    }
  }

  lemma {:induction false} ExpectedWriteBack(w: Limits, input: seq<Octet>, offset: nat, expected: seq<Octet>)
    requires Took(w, input, offset, Expect(input, At(offset), expected))
    ensures PutBytes(w, Written(input, offset), expected) == Written(input, Expect(input, At(offset), expected).offset)
    decreases expected
  {
    if expected != [] {
      var b := TakeByte(input, At(offset));
      assert b.value == expected[0] && b.next.failure.None?;
      ByteWritesBack(w, input, offset);
      assert b.next == At(b.next.offset);
      ExpectedWriteBack(w, input, b.next.offset, expected[1..]);
    }
  }

  lemma HeaderWritesBack(w: Limits, input: seq<Octet>)
    requires Took(w, input, 0, TakeHeader(input, At(0)))
    ensures PutHeader(w, Output([], None)) == Written(input, TakeHeader(input, At(0)).offset)
  {
    hide PutBytes, Expect, PutWord, TakeWord;
    assert Written(input, 0) == Output([], None);
    var magic := Expect(input, At(0), MAGIC);
    ExpectedWriteBack(w, input, 0, MAGIC);
    assert magic == At(magic.offset);
    var version := ExpectWord(input, magic, VERSION, UnsupportedVersion);
    FieldWritesBack(w, input, magic.offset, 2);
    assert version == At(version.offset);
    FieldWritesBack(w, input, version.offset, 2);
  }

  /** A decoded document encodes to the bytes it was decoded from. */
  lemma DecodeThenEncode(input: seq<Octet>, limits: DocumentLimits)
    requires Decode(input, limits).Done?
    ensures Encode(Decode(input, limits).value, limits) == Done(input)
  {
    hide PutHeader, TakeHeader, TakeCount, PutRecords, TakeRecords, WireLimits, RecordsProblem, PutWord;
    var w := WireLimits(limits);
    WireLimitIsKept(limits);
    var header := TakeHeader(input, At(0));
    HeaderWritesBack(w, input);
    assert header == At(header.offset);
    var n := TakeCount(input, header, limits.maximumRecords);
    CountWritesBack(w, input, header.offset, limits.maximumRecords);
    assert n.next == At(n.next.offset);
    RecordsWriteBack(limits, input, n.next.offset, n.value);
    assert n.value <= limits.maximumRecords;
    assert Written(input, |input|) == Output(input, None);
  }

  /** Different documents never have the same bytes. */
  lemma EncodingsDiffer(c: Document, d: Document, limits: DocumentLimits)
    requires Encode(c, limits).Done? && Encode(d, limits).Done?
    ensures Encode(c, limits) == Encode(d, limits) <==> c == d
  {
    hide Encode, Decode;
    EncodeThenDecode(c, limits);
    EncodeThenDecode(d, limits);
  }
}
