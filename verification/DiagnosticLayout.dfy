/** The octets of a diagnostic document and which records are valid, told without a writer, a reader
    or a validator: encoding gives exactly these octets for exactly these documents, and decoding
    accepts nothing else. */
module DiagnosticLayout {
  import opened Wrappers
  import opened TypeIdentity
  import opened WireFormat
  import opened WireLayout
  import opened DiagnosticProtocol

  // ---------------------------------------------------------------------------
  // Positions

  /** Positions are in one order, line by line and column by column within a line. */
  lemma PositionsAreOrdered(p: Position, q: Position, r: Position)
    ensures PositionPrecedes(p, p)
    ensures PositionPrecedes(p, q) || PositionPrecedes(q, p)
    ensures PositionPrecedes(p, q) && PositionPrecedes(q, p) <==> p == q
    ensures PositionPrecedes(p, q) && PositionPrecedes(q, r) ==> PositionPrecedes(p, r)
    ensures p.line < q.line ==> PositionPrecedes(p, q) && !PositionPrecedes(q, p)
    ensures p.line == q.line ==> (PositionPrecedes(p, q) <==> p.column <= q.column)
  {
  }

  // ---------------------------------------------------------------------------
  // Layout

  function PositionLayout(p: Position): seq<Octet> {
    LittleEndian(p.line, 4) + LittleEndian(p.column, 4)
  }

  function LocationLayout(l: Location): seq<Octet> {
    TextLayout(l.source) + PositionLayout(l.start) + PositionLayout(l.end)
  }

  function MessageArgumentsLayout(s: seq<MessageArgument>): seq<Octet> {
    if s == [] then [] else TextLayout(s[0].name) + TextLayout(s[0].value) + MessageArgumentsLayout(s[1..])
  }

  function RelatedLayout(s: seq<RelatedLocation>): seq<Octet> {
    if s == [] then [] else LocationLayout(s[0].location) + TextLayout(s[0].message) + RelatedLayout(s[1..])
  }

  function EditsLayout(s: seq<TextEdit>): seq<Octet> {
    if s == [] then [] else LocationLayout(s[0].location) + TextLayout(s[0].replacement) + EditsLayout(s[1..])
  }

  function FixLayout(f: Fix): seq<Octet> {
    TextLayout(f.title) + CountLayout(|f.edits|) + EditsLayout(f.edits)
  }

  function FixesLayout(s: seq<Fix>): seq<Octet> {
    if s == [] then [] else FixLayout(s[0]) + FixesLayout(s[1..])
  }

  /** Zero without a location, and otherwise one and the location. */
  function PrimaryLayout(primary: Option<Location>): seq<Octet> {
    match primary
    case None => [0]
    case Some(l) => [1] + LocationLayout(l)
  }

  function HeadLayout(r: Record): seq<Octet> {
    [r.stage, r.severity] + TextLayout(r.code) + TextLayout(r.message)
  }

  function RecordLayout(r: Record): seq<Octet> {
    HeadLayout(r)
    + CountLayout(|r.arguments|) + MessageArgumentsLayout(r.arguments)
    + PrimaryLayout(r.primary)
    + CountLayout(|r.related|) + RelatedLayout(r.related)
    + CountLayout(|r.fixes|) + FixesLayout(r.fixes)
  }

  function RecordsLayout(s: seq<Record>): seq<Octet> {
    if s == [] then [] else RecordLayout(s[0]) + RecordsLayout(s[1..])
  }

  /** The letters TADG, version one, no flags, and then the counted records. */
  function DocumentLayout(d: Document): seq<Octet> {
    [84, 65, 68, 71, 1, 0, 0, 0] + CountLayout(|d.records|) + RecordsLayout(d.records)
  }

  // ---------------------------------------------------------------------------
  // What may be written

  /** A text is limited by the number of scalars that the document limits give. */
  lemma TextsAreLimited(limits: DocumentLimits, text: Text)
    ensures TextAllowed(WireLimits(limits), text) <==>
      |text| <= limits.maximumTextScalars && |text| < 0x1_0000_0000 && AllScalars(text)
  {
  }

  predicate LocationAllowed(w: Limits, l: Location) {
    TextAllowed(w, l.source)
  }

  predicate MessageArgumentsAllowed(w: Limits, s: seq<MessageArgument>) {
    forall i :: 0 <= i < |s| ==> TextAllowed(w, s[i].name) && TextAllowed(w, s[i].value)
  }

  predicate RelatedAllowed(w: Limits, s: seq<RelatedLocation>) {
    forall i :: 0 <= i < |s| ==> LocationAllowed(w, s[i].location) && TextAllowed(w, s[i].message)
  }

  predicate EditsAllowed(w: Limits, s: seq<TextEdit>) {
    forall i :: 0 <= i < |s| ==> LocationAllowed(w, s[i].location) && TextAllowed(w, s[i].replacement)
  }

  predicate FixAllowed(limits: DocumentLimits, f: Fix) {
    && TextAllowed(WireLimits(limits), f.title) && CountAllowed(|f.edits|, limits.maximumEditsPerFix)
    && EditsAllowed(WireLimits(limits), f.edits)
  }

  predicate FixesAllowed(limits: DocumentLimits, s: seq<Fix>) {
    forall i :: 0 <= i < |s| ==> FixAllowed(limits, s[i])
  }

  predicate PrimaryAllowed(w: Limits, primary: Option<Location>) {
    primary.Some? ==> LocationAllowed(w, primary.value)
  }

  predicate RecordAllowed(limits: DocumentLimits, r: Record) {
    var w := WireLimits(limits);
    && TextAllowed(w, r.code) && TextAllowed(w, r.message)
    && CountAllowed(|r.arguments|, limits.maximumArguments) && MessageArgumentsAllowed(w, r.arguments)
    && PrimaryAllowed(w, r.primary)
    && CountAllowed(|r.related|, limits.maximumRelatedLocations) && RelatedAllowed(w, r.related)
    && CountAllowed(|r.fixes|, limits.maximumFixes) && FixesAllowed(limits, r.fixes)
  }

  predicate RecordsAllowed(limits: DocumentLimits, s: seq<Record>) {
    forall i :: 0 <= i < |s| ==> RecordAllowed(limits, s[i])
  }

  // ---------------------------------------------------------------------------
  // Writing

  lemma PositionAppends(w: Limits, o: Output, p: Position)
    requires Ready(w, o)
    ensures Appends(w, o, PutPosition(w, o, p), true, PositionLayout(p))
  {
    hide LittleEndian, PutWord, Appends, Ready, Grows;
    var line := PutWord(w, o, p.line, 4);
    WordAppends(w, o, p.line, 4);
    if Ready(w, line) {
      WordAppends(w, line, p.column, 4);
    }
    Both(w, o, line, PutPosition(w, o, p), true, LittleEndian(p.line, 4), true, LittleEndian(p.column, 4));
  }

  lemma LocationAppends(w: Limits, o: Output, l: Location)
    requires Ready(w, o)
    ensures Appends(w, o, PutLocation(w, o, l), LocationAllowed(w, l), LocationLayout(l))
  {
    hide PutText, PutPosition, Appends, Ready, Grows, TextLayout, TextAllowed, PositionLayout;
    var source := PutText(w, o, l.source);
    var start := PutPosition(w, source, l.start);
    TextAppends(w, o, l.source);
    if Ready(w, source) {
      PositionAppends(w, source, l.start);
    }
    Both(w, o, source, start, TextAllowed(w, l.source), TextLayout(l.source), true, PositionLayout(l.start));
    if Ready(w, start) {
      PositionAppends(w, start, l.end);
    }
    Both(w, o, start, PutLocation(w, o, l), TextAllowed(w, l.source), TextLayout(l.source) + PositionLayout(l.start),
      true, PositionLayout(l.end));
  }

  lemma {:induction false} MessageArgumentsAppend(w: Limits, o: Output, s: seq<MessageArgument>)
    requires Ready(w, o)
    ensures Appends(w, o, PutMessageArguments(w, o, s), MessageArgumentsAllowed(w, s), MessageArgumentsLayout(s))
    decreases s
  {
    hide PutText, Appends, Ready, Grows, TextLayout, TextAllowed;
    if s == [] {
      Nothing(w, o);
    } else {
      assert s == [s[0]] + s[1..];
      var name := PutText(w, o, s[0].name);
      var value := PutText(w, name, s[0].value);
      var first := TextAllowed(w, s[0].name) && TextAllowed(w, s[0].value);
      TextAppends(w, o, s[0].name);
      if Ready(w, name) {
        TextAppends(w, name, s[0].value);
      }
      Both(w, o, name, value, TextAllowed(w, s[0].name), TextLayout(s[0].name), TextAllowed(w, s[0].value),
        TextLayout(s[0].value));
      if Ready(w, value) {
        MessageArgumentsAppend(w, value, s[1..]);
      }
      Both(w, o, value, PutMessageArguments(w, o, s), first, TextLayout(s[0].name) + TextLayout(s[0].value),
        MessageArgumentsAllowed(w, s[1..]), MessageArgumentsLayout(s[1..]));
    }
  }

  lemma {:induction false} RelatedAppend(w: Limits, o: Output, s: seq<RelatedLocation>)
    requires Ready(w, o)
    ensures Appends(w, o, PutRelated(w, o, s), RelatedAllowed(w, s), RelatedLayout(s))
    decreases s
  {
    hide PutText, PutLocation, Appends, Ready, Grows, TextLayout, TextAllowed, LocationLayout, LocationAllowed;
    if s == [] {
      Nothing(w, o);
    } else {
      assert s == [s[0]] + s[1..];
      var location := PutLocation(w, o, s[0].location);
      var message := PutText(w, location, s[0].message);
      var first := LocationAllowed(w, s[0].location) && TextAllowed(w, s[0].message);
      LocationAppends(w, o, s[0].location);
      if Ready(w, location) {
        TextAppends(w, location, s[0].message);
      }
      Both(w, o, location, message, LocationAllowed(w, s[0].location), LocationLayout(s[0].location),
        TextAllowed(w, s[0].message), TextLayout(s[0].message));
      if Ready(w, message) {
        RelatedAppend(w, message, s[1..]);
      }
      Both(w, o, message, PutRelated(w, o, s), first, LocationLayout(s[0].location) + TextLayout(s[0].message),
        RelatedAllowed(w, s[1..]), RelatedLayout(s[1..]));
    }
  }

  lemma {:induction false} EditsAppend(w: Limits, o: Output, s: seq<TextEdit>)
    requires Ready(w, o)
    ensures Appends(w, o, PutEdits(w, o, s), EditsAllowed(w, s), EditsLayout(s))
    decreases s
  {
    hide PutText, PutLocation, Appends, Ready, Grows, TextLayout, TextAllowed, LocationLayout, LocationAllowed;
    if s == [] {
      Nothing(w, o);
    } else {
      assert s == [s[0]] + s[1..];
      var location := PutLocation(w, o, s[0].location);
      var text := PutText(w, location, s[0].replacement);
      var first := LocationAllowed(w, s[0].location) && TextAllowed(w, s[0].replacement);
      LocationAppends(w, o, s[0].location);
      if Ready(w, location) {
        TextAppends(w, location, s[0].replacement);
      }
      Both(w, o, location, text, LocationAllowed(w, s[0].location), LocationLayout(s[0].location),
        TextAllowed(w, s[0].replacement), TextLayout(s[0].replacement));
      if Ready(w, text) {
        EditsAppend(w, text, s[1..]);
      }
      Both(w, o, text, PutEdits(w, o, s), first, LocationLayout(s[0].location) + TextLayout(s[0].replacement),
        EditsAllowed(w, s[1..]), EditsLayout(s[1..]));
    }
  }

  lemma FixAppends(limits: DocumentLimits, o: Output, f: Fix)
    requires Ready(WireLimits(limits), o)
    ensures Appends(WireLimits(limits), o, PutFix(limits, o, f), FixAllowed(limits, f), FixLayout(f))
  {
    hide PutText, PutCount, PutEdits, Appends, Ready, Grows, TextLayout, TextAllowed, CountLayout, CountAllowed,
        EditsLayout, EditsAllowed, WireLimits;
    var w := WireLimits(limits);
    var title := PutText(w, o, f.title);
    var counted := PutCount(w, title, |f.edits|, limits.maximumEditsPerFix);
    TextAppends(w, o, f.title);
    if Ready(w, title) {
      CountAppends(w, title, |f.edits|, limits.maximumEditsPerFix);
    }
    Both(w, o, title, counted, TextAllowed(w, f.title), TextLayout(f.title),
      CountAllowed(|f.edits|, limits.maximumEditsPerFix), CountLayout(|f.edits|));
    if Ready(w, counted) {
      EditsAppend(w, counted, f.edits);
    }
    Both(w, o, counted, PutFix(limits, o, f),
      TextAllowed(w, f.title) && CountAllowed(|f.edits|, limits.maximumEditsPerFix),
      TextLayout(f.title) + CountLayout(|f.edits|), EditsAllowed(w, f.edits), EditsLayout(f.edits));
  }

  lemma {:induction false} FixesAppend(limits: DocumentLimits, o: Output, s: seq<Fix>)
    requires Ready(WireLimits(limits), o)
    ensures Appends(WireLimits(limits), o, PutFixes(limits, o, s), FixesAllowed(limits, s), FixesLayout(s))
    decreases s
  {
    hide PutFix, Appends, Ready, Grows, FixLayout, FixAllowed, WireLimits;
    var w := WireLimits(limits);
    if s == [] {
      Nothing(w, o);
    } else {
      assert s == [s[0]] + s[1..];
      var first := PutFix(limits, o, s[0]);
      FixAppends(limits, o, s[0]);
      if Ready(w, first) {
        FixesAppend(limits, first, s[1..]);
      }
      Both(w, o, first, PutFixes(limits, o, s), FixAllowed(limits, s[0]), FixLayout(s[0]),
        FixesAllowed(limits, s[1..]), FixesLayout(s[1..]));
    }
  }

  lemma PrimaryAppends(w: Limits, o: Output, primary: Option<Location>)
    requires Ready(w, o)
    ensures Appends(w, o, PutPrimary(w, o, primary), PrimaryAllowed(w, primary), PrimaryLayout(primary))
  {
    hide PutBoolean, PutLocation, Appends, Ready, Grows, LocationLayout, LocationAllowed;
    var present := PutBoolean(w, o, primary.Some?);
    BooleanAppends(w, o, primary.Some?);
    if primary.Some? {
      if Ready(w, present) {
        LocationAppends(w, present, primary.value);
      }
      Both(w, o, present, PutPrimary(w, o, primary), true, [1], LocationAllowed(w, primary.value),
        LocationLayout(primary.value));
    }
  }

  lemma HeadAppends(w: Limits, o: Output, r: Record)
    requires Ready(w, o)
    ensures Appends(w, o, PutHead(w, o, r), TextAllowed(w, r.code) && TextAllowed(w, r.message), HeadLayout(r))
  {
    hide PutByte, PutText, Appends, Ready, Grows, TextLayout, TextAllowed;
    var stage := PutByte(w, o, r.stage);
    var severity := PutByte(w, stage, r.severity);
    var code := PutText(w, severity, r.code);
    ByteAppends(w, o, r.stage);
    if Ready(w, stage) {
      ByteAppends(w, stage, r.severity);
    }
    Both(w, o, stage, severity, true, [r.stage], true, [r.severity]);
    assert [r.stage] + [r.severity] == [r.stage, r.severity];
    if Ready(w, severity) {
      TextAppends(w, severity, r.code);
    }
    Both(w, o, severity, code, true, [r.stage, r.severity], TextAllowed(w, r.code), TextLayout(r.code));
    if Ready(w, code) {
      TextAppends(w, code, r.message);
    }
    Both(w, o, code, PutHead(w, o, r), TextAllowed(w, r.code), [r.stage, r.severity] + TextLayout(r.code),
      TextAllowed(w, r.message), TextLayout(r.message));
  }

  /** A record is written exactly when it is allowed and has room, and then as its layout. */
  lemma RecordAppends(limits: DocumentLimits, o: Output, r: Record)
    requires Ready(WireLimits(limits), o)
    ensures Appends(WireLimits(limits), o, PutRecord(limits, o, r), RecordAllowed(limits, r), RecordLayout(r))
  {
    hide PutHead, PutCount, PutMessageArguments, PutPrimary, PutRelated, PutFixes, Appends, Ready, Grows, WireLimits,
        HeadLayout, CountLayout, MessageArgumentsLayout, PrimaryLayout, RelatedLayout, FixesLayout, TextAllowed,
        CountAllowed, MessageArgumentsAllowed, PrimaryAllowed, RelatedAllowed, FixesAllowed;
    var w := WireLimits(limits);
    var head := PutHead(w, o, r);
    var argumentCount := PutCount(w, head, |r.arguments|, limits.maximumArguments);
    var arguments := PutMessageArguments(w, argumentCount, r.arguments);
    var primary := PutPrimary(w, arguments, r.primary);
    var relatedCount := PutCount(w, primary, |r.related|, limits.maximumRelatedLocations);
    var related := PutRelated(w, relatedCount, r.related);
    var fixCount := PutCount(w, related, |r.fixes|, limits.maximumFixes);
    HeadAppends(w, o, r);
    var allowed, layout := TextAllowed(w, r.code) && TextAllowed(w, r.message), HeadLayout(r);
    if Ready(w, head) {
      CountAppends(w, head, |r.arguments|, limits.maximumArguments);
    }
    Both(w, o, head, argumentCount, allowed, layout, CountAllowed(|r.arguments|, limits.maximumArguments),
      CountLayout(|r.arguments|));
    allowed, layout := allowed && CountAllowed(|r.arguments|, limits.maximumArguments),
      layout + CountLayout(|r.arguments|);
    if Ready(w, argumentCount) {
      MessageArgumentsAppend(w, argumentCount, r.arguments);
    }
    Both(w, o, argumentCount, arguments, allowed, layout, MessageArgumentsAllowed(w, r.arguments),
      MessageArgumentsLayout(r.arguments));
    allowed, layout := allowed && MessageArgumentsAllowed(w, r.arguments),
      layout + MessageArgumentsLayout(r.arguments);
    if Ready(w, arguments) {
      PrimaryAppends(w, arguments, r.primary);
    }
    Both(w, o, arguments, primary, allowed, layout, PrimaryAllowed(w, r.primary), PrimaryLayout(r.primary));
    allowed, layout := allowed && PrimaryAllowed(w, r.primary), layout + PrimaryLayout(r.primary);
    if Ready(w, primary) {
      CountAppends(w, primary, |r.related|, limits.maximumRelatedLocations);
    }
    Both(w, o, primary, relatedCount, allowed, layout, CountAllowed(|r.related|, limits.maximumRelatedLocations),
      CountLayout(|r.related|));
    allowed, layout := allowed && CountAllowed(|r.related|, limits.maximumRelatedLocations),
      layout + CountLayout(|r.related|);
    if Ready(w, relatedCount) {
      RelatedAppend(w, relatedCount, r.related);
    }
    Both(w, o, relatedCount, related, allowed, layout, RelatedAllowed(w, r.related), RelatedLayout(r.related));
    allowed, layout := allowed && RelatedAllowed(w, r.related), layout + RelatedLayout(r.related);
    if Ready(w, related) {
      CountAppends(w, related, |r.fixes|, limits.maximumFixes);
    }
    Both(w, o, related, fixCount, allowed, layout, CountAllowed(|r.fixes|, limits.maximumFixes),
      CountLayout(|r.fixes|));
    allowed, layout := allowed && CountAllowed(|r.fixes|, limits.maximumFixes), layout + CountLayout(|r.fixes|);
    if Ready(w, fixCount) {
      FixesAppend(limits, fixCount, r.fixes);
    }
    Both(w, o, fixCount, PutRecord(limits, o, r), allowed, layout, FixesAllowed(limits, r.fixes),
      FixesLayout(r.fixes));
  }

  lemma {:induction false} RecordsAppend(limits: DocumentLimits, o: Output, s: seq<Record>)
    requires Ready(WireLimits(limits), o)
    ensures Appends(WireLimits(limits), o, PutRecords(limits, o, s), RecordsAllowed(limits, s), RecordsLayout(s))
    decreases s
  {
    hide PutRecord, Appends, Ready, Grows, RecordLayout, RecordAllowed, WireLimits;
    var w := WireLimits(limits);
    if s == [] {
      Nothing(w, o);
    } else {
      assert s == [s[0]] + s[1..];
      var first := PutRecord(limits, o, s[0]);
      RecordAppends(limits, o, s[0]);
      if Ready(w, first) {
        RecordsAppend(limits, first, s[1..]);
      }
      Both(w, o, first, PutRecords(limits, o, s), RecordAllowed(limits, s[0]), RecordLayout(s[0]),
        RecordsAllowed(limits, s[1..]), RecordsLayout(s[1..]));
    }
  }

  lemma {:induction false} BytesAppend(w: Limits, o: Output, s: seq<Octet>)
    requires Ready(w, o)
    ensures Appends(w, o, PutBytes(w, o, s), true, s)
    decreases s
  {
    hide PutByte, Appends, Ready, Grows;
    if s == [] {
      Nothing(w, o);
    } else {
      var first := PutByte(w, o, s[0]);
      ByteAppends(w, o, s[0]);
      if Ready(w, first) {
        BytesAppend(w, first, s[1..]);
      }
      Both(w, o, first, PutBytes(w, o, s), true, [s[0]], true, s[1..]);
      assert [s[0]] + s[1..] == s;
    }
  }

  lemma HeaderAppends(w: Limits, o: Output)
    requires Ready(w, o)
    ensures Appends(w, o, PutHeader(w, o), true, [84, 65, 68, 71, 1, 0, 0, 0])
  {
    hide PutBytes, PutWord, Appends, Ready, Grows;
    var magic := PutBytes(w, o, MAGIC);
    var version := PutWord(w, magic, VERSION, 2);
    assert LittleEndian(VERSION, 2) == [1] + LittleEndian(0, 1) == [1, 0];
    assert LittleEndian(0, 2) == [0] + LittleEndian(0, 1) == [0, 0];
    BytesAppend(w, o, MAGIC);
    if Ready(w, magic) {
      WordAppends(w, magic, VERSION, 2);
    }
    Both(w, o, magic, version, true, MAGIC, true, [1, 0]);
    if Ready(w, version) {
      WordAppends(w, version, 0, 2);
    }
    Both(w, o, version, PutHeader(w, o), true, MAGIC + [1, 0], true, [0, 0]);
    assert MAGIC + [1, 0] + [0, 0] == [84, 65, 68, 71, 1, 0, 0, 0];
  }

  lemma DocumentAppends(limits: DocumentLimits, d: Document)
    ensures Appends(WireLimits(limits), Output([], None), PutDocument(limits, d),
      CountAllowed(|d.records|, limits.maximumRecords) && RecordsAllowed(limits, d.records), DocumentLayout(d))
  {
    hide PutHeader, PutCount, PutRecords, Appends, Grows, CountLayout, CountAllowed, RecordsLayout, RecordsAllowed,
        WireLimits;
    var w, o := WireLimits(limits), Output([], None);
    var header := PutHeader(w, o);
    var counted := PutCount(w, header, |d.records|, limits.maximumRecords);
    var layout := [84, 65, 68, 71, 1, 0, 0, 0];
    HeaderAppends(w, o);
    if Ready(w, header) {
      CountAppends(w, header, |d.records|, limits.maximumRecords);
    }
    Both(w, o, header, counted, true, layout, CountAllowed(|d.records|, limits.maximumRecords),
      CountLayout(|d.records|));
    if Ready(w, counted) {
      RecordsAppend(limits, counted, d.records);
    }
    Both(w, o, counted, PutDocument(limits, d), CountAllowed(|d.records|, limits.maximumRecords),
      layout + CountLayout(|d.records|), RecordsAllowed(limits, d.records), RecordsLayout(d.records));
  }

  // ---------------------------------------------------------------------------
  // Validity

  /** Capital letters, digits and hyphens. */
  predicate IsCode(code: Text) {
    0 < |code| <= 64 && forall i :: 0 <= i < |code| ==> 65 <= code[i] <= 90 || 48 <= code[i] <= 57 || code[i] == 45
  }

  /** A named source, and a range that does not end before it starts. */
  predicate IsLocation(l: Location) {
    && l.source != []
    && (l.start.line < l.end.line || (l.start.line == l.end.line && l.start.column <= l.end.column))
  }

  predicate IsFix(limits: DocumentLimits, f: Fix) {
    && f.title != [] && 0 < |f.edits| <= limits.maximumEditsPerFix
    && forall i :: 0 <= i < |f.edits| ==> IsLocation(f.edits[i].location)
  }

  predicate IsRecord(limits: DocumentLimits, r: Record) {
    && r.stage <= 14 && r.severity <= 3 && IsCode(r.code) && r.message != []
    && |r.arguments| <= limits.maximumArguments
    && |r.related| <= limits.maximumRelatedLocations
    && |r.fixes| <= limits.maximumFixes
    && (forall i :: 0 <= i < |r.arguments| ==> r.arguments[i].name != [])
    && (forall i, j :: 0 <= i < j < |r.arguments| ==> r.arguments[i].name != r.arguments[j].name)
    && (r.primary.Some? ==> IsLocation(r.primary.value))
    && (forall i :: 0 <= i < |r.related| ==> r.related[i].message != [] && IsLocation(r.related[i].location))
    && (forall i :: 0 <= i < |r.fixes| ==> IsFix(limits, r.fixes[i]))
  }

  lemma {:induction false} FixesAreValid(limits: DocumentLimits, s: seq<Fix>)
    ensures FixesProblem(s, limits) == None <==> forall i :: 0 <= i < |s| ==> IsFix(limits, s[i])
    decreases s
  {
    if s != [] {
      FixesAreValid(limits, s[1..]);
      assert s == [s[0]] + s[1..];
    }
  }

  /** Validation finds nothing wrong exactly with these records. */
  lemma RecordIsValid(limits: DocumentLimits, r: Record)
    ensures RecordProblem(r, limits) == None <==> IsRecord(limits, r)
  {
    hide FixesProblem, IsFix;
    FixesAreValid(limits, r.fixes);
  }

  /** What is wrong with a fix: it says nothing, it has too many edits, or one of them is nowhere. */
  predicate FixDefect(limits: DocumentLimits, f: Fix, kind: ErrorKind) {
    match kind
    case LimitExceeded => f.title != [] && |f.edits| > limits.maximumEditsPerFix
    case InvalidModel => (|f.edits| > limits.maximumEditsPerFix ==> f.title == []) && !IsFix(limits, f)
    case _ => false
  }

  lemma {:induction false} FirstDefect(limits: DocumentLimits, s: seq<Fix>, kind: ErrorKind)
    ensures FixesProblem(s, limits) == Some(kind) <==>
      exists i :: 0 <= i < |s| && FixDefect(limits, s[i], kind) && forall j :: 0 <= j < i ==> IsFix(limits, s[j])
    decreases s
  {
    hide IsFix, FixDefect;
    if s != [] {
      FixMeaning(limits, s[0], kind);
      FirstDefect(limits, s[1..], kind);
      if i :| 0 < i < |s| && FixDefect(limits, s[i], kind) && forall j :: 0 <= j < i ==> IsFix(limits, s[j]) {
        assert s[1..][i - 1] == s[i];
        assert forall j :: 0 <= j < i - 1 ==> s[1..][j] == s[j + 1];
      }
      if i :| 0 <= i < |s[1..]| && FixDefect(limits, s[1..][i], kind) && forall j :: 0 <= j < i ==>
          IsFix(limits, s[1..][j]) {
        assert s[i + 1] == s[1..][i];
        assert forall j :: 0 < j < i + 1 ==> s[j] == s[1..][j - 1];
      }
    }
  }

  lemma FixMeaning(limits: DocumentLimits, f: Fix, kind: ErrorKind)
    ensures FixProblem(f, limits) == Some(kind) <==> FixDefect(limits, f, kind)
    ensures FixProblem(f, limits) == None <==> IsFix(limits, f)
    ensures FixDefect(limits, f, kind) ==> !IsFix(limits, f)
  {
  }

  predicate HasTags(r: Record) {
    r.stage <= 14 && r.severity <= 3
  }

  predicate HasText(r: Record) {
    IsCode(r.code) && r.message != []
  }

  predicate HasFew(limits: DocumentLimits, r: Record) {
    && |r.arguments| <= limits.maximumArguments && |r.related| <= limits.maximumRelatedLocations
    && |r.fixes| <= limits.maximumFixes
  }

  predicate HasParts(r: Record) {
    && (forall i :: 0 <= i < |r.arguments| ==> r.arguments[i].name != [])
    && (forall i, j :: 0 <= i < j < |r.arguments| ==> r.arguments[i].name != r.arguments[j].name)
    && (r.primary.Some? ==> IsLocation(r.primary.value))
    && (forall i :: 0 <= i < |r.related| ==> r.related[i].message != [] && IsLocation(r.related[i].location))
  }

  /** The first fix that has a defect has one of this kind. */
  ghost predicate FixesFail(limits: DocumentLimits, s: seq<Fix>, kind: ErrorKind) {
    exists i :: 0 <= i < |s| && FixDefect(limits, s[i], kind) && forall j :: 0 <= j < i ==> IsFix(limits, s[j])
  }

  /** Tags first, then texts, numbers of parts, the parts themselves and the fixes. */
  lemma RecordFails(limits: DocumentLimits, r: Record, kind: ErrorKind)
    ensures RecordProblem(r, limits) == Some(kind) <==>
      if !HasTags(r) then kind == InvalidTag
      else if !HasText(r) then kind == InvalidModel
      else if !HasFew(limits, r) then kind == LimitExceeded
      else if !HasParts(r) then kind == InvalidModel
      else FixesFail(limits, r.fixes, kind)
  {
    hide FixesProblem, IsFix, FixDefect;
    FirstDefect(limits, r.fixes, kind);
  }

  lemma {:induction false} RecordsAreValid(limits: DocumentLimits, s: seq<Record>)
    ensures RecordsProblem(s, limits) == None <==> forall i :: 0 <= i < |s| ==> IsRecord(limits, s[i])
    decreases s
  {
    hide RecordProblem, IsRecord;
    if s != [] {
      RecordIsValid(limits, s[0]);
      RecordsAreValid(limits, s[1..]);
      assert s == [s[0]] + s[1..];
    }
  }

  // ---------------------------------------------------------------------------
  // Documents

  predicate DocumentAllowed(limits: DocumentLimits, d: Document) {
    && CountAllowed(|d.records|, limits.maximumRecords)
    && (forall i :: 0 <= i < |d.records| ==> IsRecord(limits, d.records[i]))
    && RecordsAllowed(limits, d.records)
    && |DocumentLayout(d)| <= limits.maximumWireBytes
  }

  /** Encoding succeeds exactly for the documents that are allowed, and gives their layout. */
  lemma EncodingIsLayout(d: Document, limits: DocumentLimits, bytes: seq<Octet>)
    ensures Encode(d, limits) == Done(bytes) <==> DocumentAllowed(limits, d) && bytes == DocumentLayout(d)
  {
    hide PutDocument, RecordsProblem, DocumentLayout, RecordsAllowed, IsRecord, WireLimits;
    RecordsAreValid(limits, d.records);
    DocumentAppends(limits, d);
    WireLimitIsKept(limits);
    assert [] + DocumentLayout(d) == DocumentLayout(d);
  }

  /** Decoding gives a document exactly for its layout, if it is allowed. */
  lemma DecodingIsLayout(bytes: seq<Octet>, limits: DocumentLimits, d: Document)
    ensures Decode(bytes, limits) == Done(d) <==> DocumentAllowed(limits, d) && bytes == DocumentLayout(d)
  {
    hide Encode, Decode, DocumentAllowed, DocumentLayout;
    EncodingIsLayout(d, limits, bytes);
    if Decode(bytes, limits) == Done(d) {
      DecodeThenEncode(bytes, limits);
    }
    if Encode(d, limits) == Done(bytes) {
      EncodeThenDecode(d, limits);
    }
  }
}
