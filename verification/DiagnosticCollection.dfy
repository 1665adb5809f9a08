/** The collection of diagnostics shared by compiler stages (Talac/Diagnostic/Collection.cpp): equal
    bytes are equal records, and a batch is merged whole or not at all. */
module DiagnosticCollection {
  import opened Wrappers
  import opened WireFormat
  import opened DiagnosticProtocol
  import DiagnosticLayout
  import opened DiagnosticStreams

  datatype AppendStatus = Added | Duplicate | OverLimit | Invalid

  datatype AppendResult = AppendResult(status: AppendStatus, error: Option<Error>)

  predicate Accepted(r: AppendResult) {
    r.status == Added || r.status == Duplicate
  }

  /** The bytes that stand for a record. */
  function Identity(record: Record, limits: DocumentLimits): Result<seq<Octet>> {
    Encode(Document([record]), limits)
  }

  function CountOf(records: seq<Record>, severity: Octet): nat {
    if records == [] then 0
    else CountOf(records[..|records| - 1], severity) + if records[|records| - 1].severity == severity then 1 else 0
  }

  // ---------------------------------------------------------------------------
  // What the operations promise, in terms of records alone

  function AppendOutcome(records: seq<Record>, record: Record, limits: DocumentLimits): AppendResult {
    match Identity(record, limits)
    case Failed(error) => AppendResult(if error.kind == LimitExceeded then OverLimit else Invalid, Some(error))
    case Done(_) =>
      if record in records then AppendResult(Duplicate, None)
      else if |records| >= limits.maximumRecords then AppendResult(OverLimit, Some(Error(LimitExceeded, 0)))
      else AppendResult(Added, None)
  }

  function Appended(records: seq<Record>, record: Record, limits: DocumentLimits): seq<Record> {
    if AppendOutcome(records, record, limits).status == Added then records + [record] else records
  }

  datatype Merging = Merging(result: AppendResult, records: seq<Record>)

  /** Append after append, up to the first that is not accepted. */
  function MergeFrom(records: seq<Record>, batch: seq<Record>, aggregate: AppendStatus, limits: DocumentLimits): Merging
    decreases batch
  {
    if batch == [] then Merging(AppendResult(aggregate, None), records)
    else
      var first := AppendOutcome(records, batch[0], limits);
      if !Accepted(first) then Merging(first, records)
      else
        MergeFrom(Appended(records, batch[0], limits), batch[1..], if first.status == Added then Added
            else aggregate, limits)
  }

  function Merge(records: seq<Record>, batch: seq<Record>, limits: DocumentLimits): Merging {
    var all := MergeFrom(records, batch, Duplicate, limits);
    if Accepted(all.result) then all else Merging(all.result, records)
  }

  // ---------------------------------------------------------------------------
  // The collection

  predicate Distinct(records: seq<Record>) {
    forall i, j :: 0 <= i < j < |records| ==> records[i] != records[j]
  }

  predicate Encodable(records: seq<Record>, limits: DocumentLimits) {
    forall i :: 0 <= i < |records| ==> Identity(records[i], limits).Done?
  }

  /** The identities are those of the records, each of which has its own. */
  ghost predicate Identified(records: seq<Record>, identities: set<seq<Octet>>, limits: DocumentLimits) {
    && Encodable(records, limits)
    && Distinct(records)
    && (forall i :: 0 <= i < |records| ==> Identity(records[i], limits).value in identities)
    && (forall bytes :: bytes in identities ==>
          exists i :: 0 <= i < |records| && Identity(records[i], limits).value == bytes)
  }

  lemma IdentityIsEquality(a: Record, b: Record, limits: DocumentLimits)
    requires Identity(a, limits).Done? && Identity(b, limits).Done?
    ensures Identity(a, limits) == Identity(b, limits) <==> a == b
  {
    hide Encode;
    EncodingsDiffer(Document([a]), Document([b]), limits);
    assert [a][0] == a && [b][0] == b;
  }

  /** Looking up bytes is looking up the record. */
  lemma KnownIdentity(records: seq<Record>, identities: set<seq<Octet>>, record: Record, limits: DocumentLimits)
    requires Identified(records, identities, limits) && Identity(record, limits).Done?
    ensures Identity(record, limits).value in identities <==> record in records
  {
    hide Identity;
    if Identity(record, limits).value in identities {
      var i :| 0 <= i < |records| && Identity(records[i], limits).value == Identity(record, limits).value;
      IdentityIsEquality(records[i], record, limits);
    }
  }

  lemma IdentifiedGrows(records: seq<Record>, identities: set<seq<Octet>>, record: Record, limits: DocumentLimits)
    requires Identified(records, identities, limits) && Identity(record, limits).Done? && record !in records
    ensures Identified(records + [record], identities + {Identity(record, limits).value}, limits)
  {
    hide Identity;
    var after := records + [record];
    var bytes := identities + {Identity(record, limits).value};
    forall b | b in bytes
      ensures exists i :: 0 <= i < |after| && Identity(after[i], limits).value == b
    {
      if b in identities {
        var i :| 0 <= i < |records| && Identity(records[i], limits).value == b;
        assert after[i] == records[i];
      } else {
        assert after[|records|] == record;
      }
    }
  }

  lemma NothingIdentified(limits: DocumentLimits)
    ensures Identified([], {}, limits) && CountOf([], ERROR) == 0 && CountOf([], WARNING) == 0
  {
    hide Identity;
  }

  lemma CountsGrow(records: seq<Record>, record: Record, severity: Octet)
    ensures CountOf(records + [record], severity) == CountOf(records, severity) + if record.severity == severity
      then 1 else 0
  {
    assert (records + [record])[..|records|] == records;
  }

  /** The places of the records of a severity. */
  function PlacesOf(records: seq<Record>, severity: Octet): set<nat> {
    set i | 0 <= i < |records| && records[i].severity == severity
  }

  lemma {:induction false} CountIsPlaces(records: seq<Record>, severity: Octet)
    ensures CountOf(records, severity) == |PlacesOf(records, severity)|
    decreases |records|
  {
    if records == [] {
      assert PlacesOf(records, severity) == {};
    } else {
      var n := |records| - 1;
      CountIsPlaces(records[..n], severity);
      LastPlace(records[..n], records[n], severity);
      assert records == records[..n] + [records[n]];
    }
  }

  lemma LastPlace(before: seq<Record>, record: Record, severity: Octet)
    ensures |PlacesOf(before + [record], severity)| == |PlacesOf(before, severity)|
      + if record.severity == severity then 1 else 0
  {
    var after := before + [record];
    assert forall i :: 0 <= i < |before| ==> after[i] == before[i];
    if record.severity == severity {
      assert PlacesOf(after, severity) == PlacesOf(before, severity) + {|before|};
    } else {
      assert PlacesOf(after, severity) == PlacesOf(before, severity);
    }
  }

  /** The counters of a collection are the numbers of its records of severity zero and one. */
  lemma CountersAreExact(c: Collection)
    requires c.Valid()
    ensures c.errorCount == |PlacesOf(c.records, 0)| && c.warningCount == |PlacesOf(c.records, 1)|
  {
    hide Identified, CountOf, PlacesOf;
    CountIsPlaces(c.records, 0);
    CountIsPlaces(c.records, 1);
  }

  /** A record is valid for a collection exactly when the document of it alone is allowed. */
  lemma EncodableMeaning(records: seq<Record>, limits: DocumentLimits)
    ensures Encodable(records, limits) <==>
      forall i :: 0 <= i < |records| ==> DiagnosticLayout.DocumentAllowed(limits, Document([records[i]]))
  {
    hide Encode, DiagnosticLayout.DocumentAllowed, DiagnosticLayout.DocumentLayout;
    forall i | 0 <= i < |records|
      ensures Identity(records[i], limits).Done? <==>
        DiagnosticLayout.DocumentAllowed(limits, Document([records[i]]))
    {
      var d := Document([records[i]]);
      DiagnosticLayout.EncodingIsLayout(d, limits, DiagnosticLayout.DocumentLayout(d));
      if Identity(records[i], limits).Done? {
        DiagnosticLayout.EncodingIsLayout(d, limits, Identity(records[i], limits).value);
      }
    }
  }

  /** What an append answers: known, no room, added, beyond a limit, or invalid. */
  lemma StatusMeaning(records: seq<Record>, record: Record, limits: DocumentLimits)
    requires limits.maximumRecords > 0
    ensures
      var status := AppendOutcome(records, record, limits).status;
      if DiagnosticLayout.DocumentAllowed(limits, Document([record])) then
        status == if record in records then Duplicate
          else if |records| >= limits.maximumRecords then OverLimit
          else Added
      else
        && (status == OverLimit || status == Invalid)
        && (RecordProblem(record, limits).Some? ==>
              (status == OverLimit <==> RecordProblem(record, limits) == Some(LimitExceeded)))
  {
    hide PutDocument, RecordProblem, DiagnosticLayout.DocumentAllowed, DiagnosticLayout.DocumentLayout;
    var d := Document([record]);
    DiagnosticLayout.EncodingIsLayout(d, limits, DiagnosticLayout.DocumentLayout(d));
    if Identity(record, limits).Done? {
      DiagnosticLayout.EncodingIsLayout(d, limits, Identity(record, limits).value);
    }
    assert [record][0] == record && [record][1..] == [];
  }

  class Collection {
    const limits: DocumentLimits
    var records: seq<Record>
    var identities: set<seq<Octet>>
    var errorCount: nat
    var warningCount: nat

    ghost predicate Valid()
      reads this
    {
      && Identified(records, identities, limits)
      && |records| <= limits.maximumRecords
      && errorCount == CountOf(records, ERROR)
      && warningCount == CountOf(records, WARNING)
    }

    constructor (limits: DocumentLimits)
      ensures Valid() && this.limits == limits && records == []
    {
      hide Identified, CountOf;
      this.limits := limits;
      records, identities, errorCount, warningCount := [], {}, 0, 0;
      NothingIdentified(limits);
    }

    method Append(record: Record) returns (result: AppendResult)
      requires Valid()
      modifies this
      ensures Valid()
      ensures result == AppendOutcome(old(records), record, limits)
      ensures records == Appended(old(records), record, limits)
    {
      hide Identified, Encode, CountOf;
      var encoded := EncodeDocument(Document([record]), limits);
      if encoded.Failed? {
        return AppendResult(if encoded.error.kind == LimitExceeded then OverLimit else Invalid, Some(encoded.error));
      }
      var identity := encoded.value;
      KnownIdentity(records, identities, record, limits);
      if identity in identities {
        return AppendResult(Duplicate, None);
      }
      if |records| >= limits.maximumRecords {
        return AppendResult(OverLimit, Some(Error(LimitExceeded, 0)));
      }
      IdentifiedGrows(records, identities, record, limits);
      CountsGrow(records, record, ERROR);
      CountsGrow(records, record, WARNING);
      identities := identities + {identity};
      if record.severity == ERROR {
        errorCount := errorCount + 1;
      }
      if record.severity == WARNING {
        warningCount := warningCount + 1;
      }
      records := records + [record];
      result := AppendResult(Added, None);
    }

    /** A copy takes the batch; it replaces the collection only when all of it was accepted. */
    method MergeDocument(document: Document) returns (result: AppendResult)
      requires Valid()
      modifies this
      ensures Valid()
      ensures Merging(result, records) == Merge(old(records), document.records, limits)
    {
      hide Identified, AppendOutcome, CountOf;
      var batch := document.records;
      var candidate := new Collection(limits);
      candidate.records, candidate.identities := records, identities;
      candidate.errorCount, candidate.warningCount := errorCount, warningCount;
      var aggregate := Duplicate;
      for i := 0 to |batch|
        invariant candidate.Valid() && candidate.limits == limits && Valid() && records == old(records)
        invariant aggregate == Duplicate || aggregate == Added
        invariant MergeFrom(records, batch, Duplicate, limits)
          == MergeFrom(candidate.records, batch[i..], aggregate, limits)
      {
        ghost var before := candidate.records;
        result := candidate.Append(batch[i]);
        if !Accepted(result) {
          return;
        }
        if result.status == Added {
          aggregate := Added;
        }
        assert batch[i..][1..] == batch[i + 1..];
      }
      records, identities := candidate.records, candidate.identities;
      errorCount, warningCount := candidate.errorCount, candidate.warningCount;
      result := AppendResult(aggregate, None);
    }

    function Snapshot(): Document
      reads this
    {
      Document(records)
    }

    method Take() returns (document: Document)
      requires Valid()
      modifies this
      ensures Valid() && document == old(Snapshot()) && records == []
    {
      document := Document(records);
      Clear();
    }

    method Clear()
      modifies this
      ensures Valid() && records == []
    {
      hide Identified, CountOf;
      NothingIdentified(limits);
      records, identities, errorCount, warningCount := [], {}, 0, 0;
    }
  }

  // ---------------------------------------------------------------------------
  // Merging

  /** The records of a batch that a collection does not have yet, each where it first comes. */
  function Fresh(records: seq<Record>, batch: seq<Record>): seq<Record>
    decreases batch
  {
    if batch == [] then []
    else if batch[0] in records then Fresh(records, batch[1..])
    else [batch[0]] + Fresh(records + [batch[0]], batch[1..])
  }

  /** A batch is accepted exactly when each of its records is valid and those that are new fit; then
      the new ones follow the old ones, and otherwise nothing changes. */
  lemma {:induction false} MergeIsWhole(records: seq<Record>, batch: seq<Record>, aggregate: AppendStatus,
      limits: DocumentLimits)
    requires |records| <= limits.maximumRecords && (aggregate == Added || aggregate == Duplicate)
    ensures var m := MergeFrom(records, batch, aggregate, limits);
            var news := Fresh(records, batch);
            && (Accepted(m.result) <==> Encodable(batch, limits) && |records| + |news| <= limits.maximumRecords)
            && (Accepted(m.result) ==>
                  && m.records == records + news
                  && m.result == AppendResult(if news == [] then aggregate else Added, None))
    decreases batch
  {
    hide Identity;
    if batch != [] {
      var rest := batch[1..];
      var first := AppendOutcome(records, batch[0], limits);
      assert Encodable(batch, limits) <==> Identity(batch[0], limits).Done? && Encodable(rest, limits) by {
        assert forall i :: 0 < i < |batch| ==> batch[i] == rest[i - 1];
        assert forall i :: 0 <= i < |rest| ==> rest[i] == batch[i + 1];
      }
      if Accepted(first) {
        MergeIsWhole(Appended(records, batch[0], limits), rest, if first.status == Added then Added
            else aggregate, limits);
        assert records + ([batch[0]] + Fresh(records + [batch[0]], rest)) == records + [batch[0]]
          + Fresh(records + [batch[0]], rest);
      }
    }
  }

  /** Merging either changes nothing or makes the records those of both sides, once each. */
  lemma MergeAllOrNothing(records: seq<Record>, document: Document, limits: DocumentLimits)
    requires Distinct(records) && |records| <= limits.maximumRecords
    ensures var m := Merge(records, document.records, limits);
            var news := Fresh(records, document.records);
            && Accepted(m.result) == (Encodable(document.records, limits)
                && |records| + |news| <= limits.maximumRecords)
            && m.records == (if Accepted(m.result) then records + news else records)
            && (m.result.status == Duplicate <==> Accepted(m.result) && news == [])
            && Distinct(m.records) && |m.records| <= limits.maximumRecords
  {
    hide Identity;
    MergeIsWhole(records, document.records, Duplicate, limits);
    FreshIsNew(records, document.records);
  }

  /** Nothing is new twice, nothing new was there, and everything of the batch is there at the end. */
  lemma {:induction false} FreshIsNew(records: seq<Record>, batch: seq<Record>)
    requires Distinct(records)
    ensures Distinct(records + Fresh(records, batch))
    ensures forall r :: r in Fresh(records, batch) <==> r in batch && r !in records
    decreases batch
  {
    if batch != [] {
      var head, rest := batch[0], batch[1..];
      assert batch == [head] + rest;
      if head in records {
        FreshIsNew(records, rest);
      } else {
        FreshIsNew(records + [head], rest);
        assert records + ([head] + Fresh(records + [head], rest)) == records + [head] + Fresh(records + [head], rest);
      }
    }
  }

  /** Where a record first comes in a batch. */
  function FirstAt(batch: seq<Record>, r: Record): (k: nat)
    requires r in batch
    ensures k < |batch| && batch[k] == r && r !in batch[..k]
  {
    if batch[0] == r then 0
    else
      assert batch == [batch[0]] + batch[1..];
      var k := 1 + FirstAt(batch[1..], r);
      assert batch[..k] == [batch[0]] + batch[1..][..k - 1];
      k
  }

  lemma FirstAtLater(batch: seq<Record>, r: Record)
    requires batch != [] && r in batch[1..] && r != batch[0]
    ensures r in batch && FirstAt(batch, r) == 1 + FirstAt(batch[1..], r)
  {
  }

  lemma FirstAtHead(batch: seq<Record>)
    requires batch != []
    ensures FirstAt(batch, batch[0]) == 0
  {
  }

  /** First-emission order is kept. */
  lemma {:induction false} FreshInOrder(records: seq<Record>, batch: seq<Record>, i: nat, j: nat)
    requires Distinct(records) && i < j < |Fresh(records, batch)|
    ensures Fresh(records, batch)[i] in batch && Fresh(records, batch)[j] in batch
    ensures FirstAt(batch, Fresh(records, batch)[i]) < FirstAt(batch, Fresh(records, batch)[j])
    decreases batch
  {
    hide FirstAt, Distinct;
    var head, rest := batch[0], batch[1..];
    if head in records {
      FreshInOrder(records, rest, i, j);
      IsNew(records, rest, i);
      IsNew(records, rest, j);
      hide Fresh;
      FirstAtLater(batch, Fresh(records, rest)[i]);
      FirstAtLater(batch, Fresh(records, rest)[j]);
    } else {
      var more := records + [head];
      FreshAt(records, batch, i);
      FreshAt(records, batch, j);
      OneMoreDistinct(records, head);
      IsNew(more, rest, j - 1);
      if i > 0 {
        FreshInOrder(more, rest, i - 1, j - 1);
        IsNew(more, rest, i - 1);
      }
      hide Fresh;
      FirstAtLater(batch, Fresh(more, rest)[j - 1]);
      if i > 0 {
        FirstAtLater(batch, Fresh(more, rest)[i - 1]);
      } else {
        FirstAtHead(batch);
      }
    }
  }

  lemma FreshAt(records: seq<Record>, batch: seq<Record>, i: nat)
    requires batch != [] && batch[0] !in records && i < |Fresh(records, batch)|
    ensures i > 0 ==> i <= |Fresh(records + [batch[0]], batch[1..])|
    ensures Fresh(records, batch)[i] == if i == 0 then batch[0] else Fresh(records + [batch[0]], batch[1..])[i - 1]
  {
  }

  lemma OneMoreDistinct(records: seq<Record>, r: Record)
    requires Distinct(records) && r !in records
    ensures Distinct(records + [r])
  {
  }

  lemma IsNew(records: seq<Record>, batch: seq<Record>, i: nat)
    requires Distinct(records) && i < |Fresh(records, batch)|
    ensures Fresh(records, batch)[i] in batch && Fresh(records, batch)[i] !in records
  {
    FreshIsNew(records, batch);
    hide Fresh;
    assert Fresh(records, batch)[i] in Fresh(records, batch);
  }

  /** Two batches after each other bring what one batch of both brings. */
  lemma {:induction false} FreshOfBoth(records: seq<Record>, a: seq<Record>, b: seq<Record>)
    ensures Fresh(records, a + b) == Fresh(records, a) + Fresh(records + Fresh(records, a), b)
    decreases a
  {
    if a == [] {
      assert a + b == b && records + [] == records;
    } else {
      assert (a + b)[0] == a[0] && (a + b)[1..] == a[1..] + b;
      if a[0] in records {
        FreshOfBoth(records, a[1..], b);
      } else {
        var more := records + [a[0]];
        FreshOfBoth(more, a[1..], b);
        assert records + ([a[0]] + Fresh(more, a[1..])) == more + Fresh(more, a[1..]);
      }
    }
  }

  /** A snapshot merged into an empty collection is the collection again, and into its own nothing. */
  lemma SnapshotMerges(records: seq<Record>, limits: DocumentLimits)
    requires Distinct(records) && Encodable(records, limits) && |records| <= limits.maximumRecords
    ensures Accepted(Merge([], records, limits).result) && Merge([], records, limits).records == records
    ensures Merge(records, records, limits) == Merging(AppendResult(Duplicate, None), records)
  {
    hide Identity;
    AllFresh([], records);
    NoneFresh(records, records);
    assert [] + records == records && records + [] == records;
    MergeIsWhole([], records, Duplicate, limits);
    MergeIsWhole(records, records, Duplicate, limits);
  }

  lemma {:induction false} AllFresh(records: seq<Record>, batch: seq<Record>)
    requires Distinct(records + batch)
    ensures Fresh(records, batch) == batch
    decreases batch
  {
    if batch != [] {
      assert (records + batch)[|records|] == batch[0];
      assert batch[0] !in records by {
        assert forall i :: 0 <= i < |records| ==> (records + batch)[i] == records[i];
      }
      assert records + [batch[0]] + batch[1..] == records + batch;
      AllFresh(records + [batch[0]], batch[1..]);
      assert batch == [batch[0]] + batch[1..];
    }
  }

  lemma {:induction false} NoneFresh(records: seq<Record>, batch: seq<Record>)
    requires forall r :: r in batch ==> r in records
    ensures Fresh(records, batch) == []
    decreases batch
  {
    if batch != [] {
      NoneFresh(records, batch[1..]);
    }
  }
}
