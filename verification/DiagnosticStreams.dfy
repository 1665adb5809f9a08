/** The diagnostic protocol as the source runs it (Talac/Diagnostic/Protocol.cpp): a writer or a
    reader is driven field by field, and ends as the functions of DiagnosticProtocol say. */
module DiagnosticStreams {
  import opened Wrappers
  import opened TypeIdentity
  import opened WireFormat
  import opened WireSupport
  import opened DiagnosticProtocol

  // ---------------------------------------------------------------------------
  // Validation

  /** Names are collected in a set that must not have them yet. */
  method CheckArguments(arguments: seq<MessageArgument>) returns (valid: bool)
    ensures valid == ValidArguments(arguments)
  {
    var names: set<Text> := {};
    for i := 0 to |arguments|
      invariant forall k :: 0 <= k < i ==> arguments[k].name != [] && arguments[k].name in names
      invariant forall n :: n in names ==> exists k :: 0 <= k < i && arguments[k].name == n
      invariant forall k, l :: 0 <= k < l < i ==> arguments[k].name != arguments[l].name
    {
      if arguments[i].name == [] || arguments[i].name in names {
        return false;
      }
      names := names + {arguments[i].name};
    }
    valid := true;
  }

  method CheckRelated(related: seq<RelatedLocation>) returns (valid: bool)
    ensures valid == ValidRelated(related)
  {
    for i := 0 to |related|
      invariant forall k :: 0 <= k < i ==> related[k].message != [] && ValidLocation(related[k].location)
    {
      if related[i].message == [] || !ValidLocation(related[i].location) {
        return false;
      }
    }
    valid := true;
  }

  method CheckFix(fix: Fix, limits: DocumentLimits) returns (problem: Option<ErrorKind>)
    ensures problem == FixProblem(fix, limits)
  {
    if fix.title == [] || fix.edits == [] {
      return Some(InvalidModel);
    }
    if |fix.edits| > limits.maximumEditsPerFix {
      return Some(LimitExceeded);
    }
    for i := 0 to |fix.edits|
      invariant forall k :: 0 <= k < i ==> ValidLocation(fix.edits[k].location)
    {
      if !ValidLocation(fix.edits[i].location) {
        return Some(InvalidModel);
      }
    }
    problem := None;
  }

  method ValidateRecord(record: Record, limits: DocumentLimits) returns (problem: Option<ErrorKind>)
    ensures problem == RecordProblem(record, limits)
  {
    hide ValidCode, ValidArguments, ValidRelated, ValidLocation, FixProblem;
    if record.stage > LAST_STAGE || record.severity > LAST_SEVERITY {
      return Some(InvalidTag);
    }
    if !ValidCode(record.code) || record.message == [] {
      return Some(InvalidModel);
    }
    if |record.arguments| > limits.maximumArguments || |record.related| > limits.maximumRelatedLocations
        || |record.fixes| > limits.maximumFixes {
      return Some(LimitExceeded);
    }
    var argumentsValid := CheckArguments(record.arguments);
    if !argumentsValid || (record.primary.Some? && !ValidLocation(record.primary.value)) {
      return Some(InvalidModel);
    }
    var relatedValid := CheckRelated(record.related);
    if !relatedValid {
      return Some(InvalidModel);
    }
    for i := 0 to |record.fixes|
      invariant FixesProblem(record.fixes, limits) == FixesProblem(record.fixes[i..], limits)
    {
      problem := CheckFix(record.fixes[i], limits);
      if problem.Some? {
        return;
      }
      assert record.fixes[i..][1..] == record.fixes[i + 1..];
    }
    problem := None;
  }

  // ---------------------------------------------------------------------------
  // Writing

  method WriteLocation(writer: Writer, location: Location)
    modifies writer
    ensures writer.State() == PutLocation(writer.limits, old(writer.State()), location)
  {
    hide PutText, PutWord;
    writer.Text(location.source);
    writer.Unsigned(location.start.line, 4);
    writer.Unsigned(location.start.column, 4);
    writer.Unsigned(location.end.line, 4);
    writer.Unsigned(location.end.column, 4);
  }

  method WriteArguments(writer: Writer, arguments: seq<MessageArgument>)
    modifies writer
    ensures writer.State() == PutMessageArguments(writer.limits, old(writer.State()), arguments)
  {
    hide PutText;
    for i := 0 to |arguments|
      invariant PutMessageArguments(writer.limits, old(writer.State()), arguments)
             == PutMessageArguments(writer.limits, writer.State(), arguments[i..])
    {
      writer.Text(arguments[i].name);
      writer.Text(arguments[i].value);
      assert arguments[i..][1..] == arguments[i + 1..];
    }
  }

  method WriteRelated(writer: Writer, related: seq<RelatedLocation>)
    modifies writer
    ensures writer.State() == PutRelated(writer.limits, old(writer.State()), related)
  {
    hide PutText, PutLocation;
    for i := 0 to |related|
      invariant PutRelated(writer.limits, old(writer.State()), related)
        == PutRelated(writer.limits, writer.State(), related[i..])
    {
      WriteLocation(writer, related[i].location);
      writer.Text(related[i].message);
      assert related[i..][1..] == related[i + 1..];
    }
  }

  method WriteFix(writer: Writer, fix: Fix, limits: DocumentLimits)
    requires writer.limits == WireLimits(limits)
    modifies writer
    ensures writer.State() == PutFix(limits, old(writer.State()), fix)
  {
    hide PutText, PutLocation, PutCount, WireLimits;
    writer.Text(fix.title);
    writer.Count(|fix.edits|, limits.maximumEditsPerFix);
    ghost var counted := writer.State();
    for i := 0 to |fix.edits|
      invariant PutEdits(writer.limits, counted, fix.edits) == PutEdits(writer.limits, writer.State(), fix.edits[i..])
    {
      WriteLocation(writer, fix.edits[i].location);
      writer.Text(fix.edits[i].replacement);
      assert fix.edits[i..][1..] == fix.edits[i + 1..];
    }
  }

  method WriteRecord(writer: Writer, record: Record, limits: DocumentLimits)
    requires writer.limits == WireLimits(limits)
    modifies writer
    ensures writer.State() == PutRecord(limits, old(writer.State()), record)
  {
    hide PutByte, PutText, PutLocation, PutCount, PutBoolean, PutMessageArguments, PutRelated, PutFix, WireLimits;
    writer.Byte(record.stage);
    writer.Byte(record.severity);
    writer.Text(record.code);
    writer.Text(record.message);
    writer.Count(|record.arguments|, limits.maximumArguments);
    WriteArguments(writer, record.arguments);
    writer.Boolean(record.primary.Some?);
    if record.primary.Some? {
      WriteLocation(writer, record.primary.value);
    }
    writer.Count(|record.related|, limits.maximumRelatedLocations);
    WriteRelated(writer, record.related);
    writer.Count(|record.fixes|, limits.maximumFixes);
    ghost var counted := writer.State();
    for i := 0 to |record.fixes|
      invariant PutFixes(limits, counted, record.fixes) == PutFixes(limits, writer.State(), record.fixes[i..])
    {
      WriteFix(writer, record.fixes[i], limits);
      assert record.fixes[i..][1..] == record.fixes[i + 1..];
    }
  }

  method EncodeDocument(document: Document, limits: DocumentLimits) returns (result: Result<seq<Octet>>)
    ensures result == Encode(document, limits)
  {
    hide RecordProblem, PutByte, PutWord, PutCount, PutRecord, WireLimits;
    var records := document.records;
    if |records| > limits.maximumRecords {
      return Failed(Error(LimitExceeded, 0));
    }
    for i := 0 to |records|
      invariant RecordsProblem(records, limits) == RecordsProblem(records[i..], limits)
    {
      var problem := ValidateRecord(records[i], limits);
      if problem.Some? {
        return Failed(Error(problem.value, 0));
      }
      assert records[i..][1..] == records[i + 1..];
    }
    var writer := new Writer(WireLimits(limits));
    WriteMagic(writer);
    writer.Unsigned(VERSION, 2);
    writer.Unsigned(0, 2);
    writer.Count(|records|, limits.maximumRecords);
    ghost var counted := writer.State();
    for i := 0 to |records|
      invariant PutRecords(limits, counted, records) == PutRecords(limits, writer.State(), records[i..])
    {
      WriteRecord(writer, records[i], limits);
      assert records[i..][1..] == records[i + 1..];
    }
    result := if writer.error.Some? then Failed(writer.error.value) else Done(writer.bytes);
  }

  method WriteMagic(writer: Writer)
    modifies writer
    ensures writer.State() == PutBytes(writer.limits, old(writer.State()), MAGIC)
  {
    hide PutByte;
    for i := 0 to |MAGIC|
      invariant PutBytes(writer.limits, old(writer.State()), MAGIC)
        == PutBytes(writer.limits, writer.State(), MAGIC[i..])
    {
      writer.Byte(MAGIC[i]);
      assert MAGIC[i..][1..] == MAGIC[i + 1..];
    }
  }

  // ---------------------------------------------------------------------------
  // Reading

  method ReadU32(reader: Reader) returns (value: U32)
    modifies reader
    ensures Read(value, reader.State()) == TakeU32(reader.input, old(reader.State()))
  {
    hide TakeWord;
    WordIsSmall(reader.input, reader.State(), 4);
    Powers();
    value := reader.Unsigned(4);
  }

  method ReadLocation(reader: Reader) returns (location: Location)
    modifies reader
    ensures Read(location, reader.State()) == TakeLocation(reader.limits, reader.input, old(reader.State()))
  {
    hide TakeText, TakeU32;
    var source := reader.Text();
    var startLine := ReadU32(reader);
    var startColumn := ReadU32(reader);
    var endLine := ReadU32(reader);
    var endColumn := ReadU32(reader);
    location := Location(source, Position(startLine, startColumn), Position(endLine, endColumn));
  }

  method ReadTag(reader: Reader, last: nat, otherwise: Octet) returns (tag: Octet)
    modifies reader
    ensures Read(tag, reader.State()) == TakeTag(reader.input, old(reader.State()), last, otherwise)
  {
    tag := reader.Byte();
    if tag > last {
      reader.Fail(InvalidTag);
      return otherwise;
    }
  }

  method ReadArguments(reader: Reader, count: nat) returns (arguments: seq<MessageArgument>)
    modifies reader
    ensures Read(arguments, reader.State())
      == TakeMessageArguments(reader.limits, reader.input, old(reader.State()), count)
  {
    hide TakeText, Followed;
    ghost var whole := TakeMessageArguments(reader.limits, reader.input, reader.State(), count);
    arguments := [];
    var index := 0;
    FollowedAll(whole);
    while index < count && reader.error.None?
      invariant index <= count
      invariant whole == Followed(arguments,
        TakeMessageArguments(reader.limits, reader.input, reader.State(), count - index))
    {
      var name := reader.Text();
      var value := reader.Text();
      var argument := MessageArgument(name, value);
      FollowedOne(arguments, argument, TakeMessageArguments(reader.limits, reader.input, reader.State(),
          count - index - 1));
      arguments := arguments + [argument];
      index := index + 1;
    }
    FollowedNone(arguments, reader.State());
  }

  method ReadRelated(reader: Reader, count: nat) returns (related: seq<RelatedLocation>)
    modifies reader
    ensures Read(related, reader.State()) == TakeRelated(reader.limits, reader.input, old(reader.State()), count)
  {
    hide TakeText, TakeLocation, Followed;
    ghost var whole := TakeRelated(reader.limits, reader.input, reader.State(), count);
    related := [];
    var index := 0;
    FollowedAll(whole);
    while index < count && reader.error.None?
      invariant index <= count
      invariant whole == Followed(related, TakeRelated(reader.limits, reader.input, reader.State(), count - index))
    {
      var location := ReadLocation(reader);
      var message := reader.Text();
      var one := RelatedLocation(location, message);
      FollowedOne(related, one, TakeRelated(reader.limits, reader.input, reader.State(), count - index - 1));
      related := related + [one];
      index := index + 1;
    }
    FollowedNone(related, reader.State());
  }

  method ReadEdits(reader: Reader, count: nat) returns (edits: seq<TextEdit>)
    modifies reader
    ensures Read(edits, reader.State()) == TakeEdits(reader.limits, reader.input, old(reader.State()), count)
  {
    hide TakeText, TakeLocation, Followed;
    ghost var whole := TakeEdits(reader.limits, reader.input, reader.State(), count);
    edits := [];
    var index := 0;
    FollowedAll(whole);
    while index < count && reader.error.None?
      invariant index <= count
      invariant whole == Followed(edits, TakeEdits(reader.limits, reader.input, reader.State(), count - index))
    {
      var location := ReadLocation(reader);
      var replacement := reader.Text();
      var edit := TextEdit(location, replacement);
      FollowedOne(edits, edit, TakeEdits(reader.limits, reader.input, reader.State(), count - index - 1));
      edits := edits + [edit];
      index := index + 1;
    }
    FollowedNone(edits, reader.State());
  }

  method ReadFixes(reader: Reader, count: nat, limits: DocumentLimits) returns (fixes: seq<Fix>)
    requires reader.limits == WireLimits(limits)
    modifies reader
    ensures Read(fixes, reader.State()) == TakeFixes(limits, reader.input, old(reader.State()), count)
  {
    hide TakeText, TakeCount, TakeEdits, Followed, WireLimits;
    ghost var whole := TakeFixes(limits, reader.input, reader.State(), count);
    fixes := [];
    var index := 0;
    FollowedAll(whole);
    while index < count && reader.error.None?
      invariant index <= count
      invariant whole == Followed(fixes, TakeFixes(limits, reader.input, reader.State(), count - index))
    {
      var title := reader.Text();
      var editCount := reader.Count(limits.maximumEditsPerFix);
      var edits := ReadEdits(reader, editCount);
      var fix := Fix(title, edits);
      FollowedOne(fixes, fix, TakeFixes(limits, reader.input, reader.State(), count - index - 1));
      fixes := fixes + [fix];
      index := index + 1;
    }
    FollowedNone(fixes, reader.State());
  }

  method ReadRecord(reader: Reader, limits: DocumentLimits) returns (record: Record)
    requires reader.limits == WireLimits(limits)
    modifies reader
    ensures Read(record, reader.State()) == TakeRecord(limits, reader.input, old(reader.State()))
  {
    hide TakeTag, TakeText, TakeCount, TakeBoolean, TakeLocation, TakeMessageArguments, TakeRelated, TakeFixes,
        WireLimits;
    var stage := ReadTag(reader, LAST_STAGE, PARSER);
    var severity := ReadTag(reader, LAST_SEVERITY, ERROR);
    var code := reader.Text();
    var message := reader.Text();
    var argumentCount := reader.Count(limits.maximumArguments);
    var arguments := ReadArguments(reader, argumentCount);
    var primary: Option<Location> := None;
    var present := reader.Boolean();
    if present {
      var location := ReadLocation(reader);
      primary := Some(location);
    }
    var relatedCount := reader.Count(limits.maximumRelatedLocations);
    var related := ReadRelated(reader, relatedCount);
    var fixCount := reader.Count(limits.maximumFixes);
    var fixes := ReadFixes(reader, fixCount, limits);
    record := Record(stage, severity, code, message, arguments, primary, related, fixes);
  }

  method ReadMagic(reader: Reader)
    modifies reader
    ensures reader.State() == Expect(reader.input, old(reader.State()), MAGIC)
  {
    hide TakeByte;
    for i := 0 to |MAGIC|
      invariant Expect(reader.input, old(reader.State()), MAGIC) == Expect(reader.input, reader.State(), MAGIC[i..])
    {
      var b := reader.Byte();
      if b != MAGIC[i] {
        reader.Fail(InvalidMagic);
        break;
      }
      assert MAGIC[i..][1..] == MAGIC[i + 1..];
    }
  }

  method DecodeDocument(bytes: seq<Octet>, limits: DocumentLimits) returns (result: Result<Document>)
    ensures result == Decode(bytes, limits)
  {
    hide Expect, TakeWord, TakeCount, TakeRecord, RecordProblem, Followed;
    if |bytes| > limits.maximumWireBytes {
      return Failed(Error(LimitExceeded, 0));
    }
    var reader := new Reader(bytes, WireLimits(limits));
    ReadMagic(reader);
    var version := reader.Unsigned(2);
    if reader.error.None? && version != VERSION {
      reader.Fail(UnsupportedVersion);
    }
    var flags := reader.Unsigned(2);
    if reader.error.None? && flags != 0 {
      reader.Fail(InvalidTag);
    }
    var count := reader.Count(limits.maximumRecords);
    ghost var whole := TakeRecords(limits, bytes, reader.State(), count);
    var records := [];
    var index := 0;
    FollowedAll(whole);
    while index < count && reader.error.None?
      invariant index <= count
      invariant whole == Followed(records, TakeRecords(limits, bytes, reader.State(), count - index))
    {
      var record := ReadRecord(reader, limits);
      if reader.error.None? {
        var problem := ValidateRecord(record, limits);
        if problem.Some? {
          reader.Fail(problem.value);
        }
      }
      FollowedOne(records, record, TakeRecords(limits, bytes, reader.State(), count - index - 1));
      records := records + [record];
      index := index + 1;
    }
    FollowedNone(records, reader.State());
    if reader.error.None? && reader.offset != |bytes| {
      reader.Fail(TrailingInput);
    }
    result := if reader.error.Some? then Failed(reader.error.value) else Done(Document(records));
  }
}
