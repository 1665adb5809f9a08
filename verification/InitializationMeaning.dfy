/** What every report of definite initialization means, told by the accesses that stand on a path
    and not by the sets of the analysis. */
module InitializationMeaning {
  import opened Graphs
  import opened Wrappers
  import opened DenseBits
  import opened ReachableGraph
  import opened ForwardFlow
  import opened InitializationTheory
  import CF = ControlFlow

  // ---------------------------------------------------------------------------
  // Executions

  /** One of the first n accesses of a block writes x. */
  ghost predicate WrittenWithin(f: Function, b: BlockId, n: nat, x: Identity)
    requires n <= |AccessesOf(f, b)|
  {
    exists j :: 0 <= j < n && AccessesOf(f, b)[j].write == Some(x)
  }

  /** The caller does not give x, and nothing on the path up to access k of its last block writes it. */
  ghost predicate NeverWritten(f: Function, path: seq<BlockId>, k: nat, x: Identity)
    requires path != [] && k <= |AccessesOf(f, path[|path| - 1])|
  {
    && x !in f.initiallyInitialized
    && (forall i :: 0 <= i < |path| - 1 ==> !WrittenWithin(f, path[i], |AccessesOf(f, path[i])|, x))
    && !WrittenWithin(f, path[|path| - 1], k, x)
  }

  /** A path from the entry to access k of block b along which x is not written. */
  ghost predicate ComesUnwritten(f: Function, b: BlockId, k: nat, x: Identity)
    requires k <= |AccessesOf(f, b)|
  {
    exists path :: PathBetween(CF.Edges(ControlFlowFor(f)), path, f.entry, b) && NeverWritten(f, path, k, x)
  }

  lemma {:induction false} WritesMeaning(accesses: seq<Access>, x: Identity)
    ensures x in Writes(accesses) <==> exists j :: 0 <= j < |accesses| && accesses[j].write == Some(x)
  {
    if accesses != [] {
      WritesMeaning(accesses[1..], x);
      assert forall j :: 0 <= j < |accesses| - 1 ==> accesses[1..][j] == accesses[j + 1];
      if j :| 0 <= j < |accesses| && accesses[j].write == Some(x) && j > 0 {
        assert accesses[1..][j - 1].write == Some(x);
      }
    }
  }

  lemma WritesWithin(f: Function, b: BlockId, n: nat, x: Identity)
    requires n <= |AccessesOf(f, b)|
    ensures x in Writes(AccessesOf(f, b)[..n]) <==> WrittenWithin(f, b, n, x)
  {
    hide AccessesOf;
    var prefix := AccessesOf(f, b)[..n];
    WritesMeaning(prefix, x);
    assert forall j :: 0 <= j < n ==> prefix[j] == AccessesOf(f, b)[j];
  }

  lemma UnwrittenAlong(f: Function, path: seq<BlockId>, k: nat, x: Identity)
    requires path != [] && k <= |AccessesOf(f, path[|path| - 1])|
    ensures x in f.declarations && NeverWritten(f, path, k, x) <==>
      Uninitialized(f, path, x) && x !in Writes(AccessesOf(f, path[|path| - 1])[..k])
  {
    hide AccessesOf, Writes, WrittenWithin;
    WritesWithin(f, path[|path| - 1], k, x);
    forall i | 0 <= i < |path| - 1
      ensures x in Writes(AccessesOf(f, path[i])) <==> WrittenWithin(f, path[i], |AccessesOf(f, path[i])|, x)
    {
      var accesses := AccessesOf(f, path[i]);
      WritesWithin(f, path[i], |accesses|, x);
      assert accesses[..|accesses|] == accesses;
    }
  }

  lemma MissingIsUnwritten(f: Function, b: BlockId, k: nat, x: Identity)
    requires k <= |AccessesOf(f, b)|
    ensures x in f.declarations && ComesUnwritten(f, b, k, x) <==>
      MayBeMissing(f, b, x) && x !in Writes(AccessesOf(f, b)[..k])
  {
    hide AccessesOf, Writes, CF.Edges, ControlFlowFor, Uninitialized, NeverWritten;
    var edges := CF.Edges(ControlFlowFor(f));
    if x in f.declarations && ComesUnwritten(f, b, k, x) {
      var path :| PathBetween(edges, path, f.entry, b) && NeverWritten(f, path, k, x);
      UnwrittenAlong(f, path, k, x);
    }
    if MayBeMissing(f, b, x) && x !in Writes(AccessesOf(f, b)[..k]) {
      var path :| PathBetween(edges, path, f.entry, b) && Uninitialized(f, path, x);
      UnwrittenAlong(f, path, k, x);
    }
  }

  /** Storage is recorded as initialized on entry to a block exactly when on every path from the
      entry of the function the caller gives it or some access writes it. */
  lemma InitializedIffWritten(f: Function, missing: Facts<Identity>, outgoing: Facts<Identity>, b: BlockId, x: Identity)
    requires IsFlow(Missing(f), missing, outgoing) && b in Reachables(ControlFlowFor(f)) && x in f.declarations
    ensures x !in At(missing, b) <==> !ComesUnwritten(f, b, 0, x)
  {
    hide AccessesOf, CF.Edges, ControlFlowFor, IsFlow, MayBeMissing, ComesUnwritten, Reachables;
    MissingAtEntry(f, missing, outgoing, b, x);
    MissingIsUnwritten(f, b, 0, x);
    assert Writes(AccessesOf(f, b)[..0]) == {};
  }

  // ---------------------------------------------------------------------------
  // Reports about accesses

  /** The report is about access k of its block: it reads storage that is not declared, or that
      no path before it is sure to have written, or it writes storage that is not declared. */
  ghost predicate Concerns(f: Function, issue: Issue, k: nat) {
    && k < |AccessesOf(f, issue.block)|
    && var a := AccessesOf(f, issue.block)[k];
       var x := issue.storage;
       && issue.instruction == a.instruction && issue.terminator == a.terminator && issue.target == 0
       && match issue.kind
          case UnknownReadStorage => x in a.uses && x !in f.declarations
          case UnknownWriteStorage => a.write == Some(x) && x !in f.declarations
          case ReadBeforeInitialization =>
            x in a.uses && x in f.declarations && ComesUnwritten(f, issue.block, k, x)
          case _ => false
  }

  /** The same in terms of what is missing before the access. */
  ghost predicate Reports(f: Function, a: Access, missing: Storages, issue: Issue) {
    var x := issue.storage;
    && issue.instruction == a.instruction && issue.terminator == a.terminator && issue.target == 0
    && match issue.kind
       case UnknownReadStorage => x in a.uses && x !in f.declarations
       case UnknownWriteStorage => a.write == Some(x) && x !in f.declarations
       case ReadBeforeInitialization => x in a.uses && x in f.declarations && x in missing
       case _ => false
  }

  lemma {:induction false} ReadReports(f: Function, b: BlockId, a: Access, missing: Storages, n: nat, issue: Issue)
    requires n <= |a.uses|
    ensures issue in ReadIssues(f, b, a, missing, n) <==>
      issue.kind != UnknownWriteStorage && issue.block == b && issue.storage in a.uses[..n]
      && Reports(f, a, missing, issue)
  {
    if n > 0 {
      ReadReports(f, b, a, missing, n - 1, issue);
      assert a.uses[..n] == a.uses[..n - 1] + [a.uses[n - 1]];
    }
  }

  lemma AccessReports(f: Function, b: BlockId, a: Access, missing: Storages, issue: Issue)
    ensures issue in AccessIssues(f, b, a, missing) <==> issue.block == b && Reports(f, a, missing, issue)
  {
    ReadReports(f, b, a, missing, |a.uses|, issue);
    assert a.uses[..|a.uses|] == a.uses;
  }

  lemma {:induction false} BlockReports(f: Function, b: BlockId, accesses: seq<Access>, missing: Storages, issue: Issue)
    ensures issue in BlockIssues(f, b, accesses, missing) <==>
      issue.block == b
      && exists k :: 0 <= k < |accesses| && Reports(f, accesses[k], missing - Writes(accesses[..k]), issue)
  {
    hide AccessIssues, Writes, Reports;
    if accesses != [] {
      var n := |accesses| - 1;
      BlockReports(f, b, accesses[..n], missing, issue);
      AccessReports(f, b, accesses[n], missing - Writes(accesses[..n]), issue);
      forall k | 0 <= k < n
        ensures accesses[..n][k] == accesses[k] && accesses[..n][..k] == accesses[..k]
      {
      }
    }
  }

  lemma {:induction false} FlowReports(f: Function, order: seq<BlockId>, missing: Facts<Identity>, issue: Issue)
    ensures issue in FlowIssues(f, order, missing) <==>
      issue.block in order
      && issue in BlockIssues(f, issue.block, AccessesOf(f, issue.block), At(missing, issue.block))
  {
    hide BlockIssues, AccessesOf, At;
    if order != [] {
      var n := |order| - 1;
      FlowReports(f, order[..n], missing, issue);
      BlockReports(f, order[n], AccessesOf(f, order[n]), At(missing, order[n]), issue);
      assert order == order[..n] + [order[n]];
    }
  }

  lemma ConcernsIsReports(f: Function, missing: Facts<Identity>, outgoing: Facts<Identity>, issue: Issue, k: nat)
    requires IsFlow(Missing(f), missing, outgoing) && issue.block in Reachables(ControlFlowFor(f))
    requires k < |AccessesOf(f, issue.block)|
    ensures Concerns(f, issue, k) <==> Reports(f, AccessesOf(f, issue.block)[k],
        At(missing, issue.block) - Writes(AccessesOf(f, issue.block)[..k]), issue)
  {
    hide AccessesOf, IsFlow, MayBeMissing, ComesUnwritten, Reachables, At, Writes, ControlFlowFor;
    MissingAtEntry(f, missing, outgoing, issue.block, issue.storage);
    MissingIsUnwritten(f, issue.block, k, issue.storage);
  }

  /** The reports about accesses are exactly these: of reachable blocks, each for its own defect. */
  lemma AccessReportMeaning(f: Function, order: seq<BlockId>, missing: Facts<Identity>, outgoing: Facts<Identity>,
      issue: Issue)
    requires IsFlow(Missing(f), missing, outgoing) && Elements(order) == Reachables(ControlFlowFor(f))
    ensures issue in FlowIssues(f, order, missing) <==>
      issue.block in Reachables(ControlFlowFor(f)) && exists k :: Concerns(f, issue, k)
  {
    hide IsFlow, FlowIssues, BlockIssues, Reachables, At, Writes, AccessesOf, Concerns, Reports, ControlFlowFor;
    var b := issue.block;
    var accesses := AccessesOf(f, b);
    FlowReports(f, order, missing, issue);
    assert b in order <==> b in Elements(order);
    if b in Reachables(ControlFlowFor(f)) {
      BlockReports(f, b, accesses, At(missing, b), issue);
      forall k | 0 <= k < |accesses|
        ensures Concerns(f, issue, k) <==> Reports(f, accesses[k], At(missing, b) - Writes(accesses[..k]), issue)
      {
        ConcernsIsReports(f, missing, outgoing, issue, k);
      }
      if k: nat :| Concerns(f, issue, k) {
        assert k < |accesses| by { hide *; ConcernsAccess(f, issue, k); }
      }
    }
  }

  lemma ConcernsAccess(f: Function, issue: Issue, k: nat)
    requires Concerns(f, issue, k)
    ensures k < |AccessesOf(f, issue.block)|
  {
  }

  // ---------------------------------------------------------------------------
  // Reports about the function as a whole

  predicate HasTarget(f: Function, i: nat, t: BlockId) {
    i < |f.blocks| && t in f.blocks[i].successors
  }

  /** What every report about the graph and the declarations says. */
  ghost predicate Structural(f: Function, issue: Issue) {
    var ids := BlockIds(f);
    match issue.kind
    case DuplicateBlock =>
      && issue == Issue(DuplicateBlock, issue.block, 0, false, 0, 0)
      && exists i, j :: 0 <= i < j < |ids| && ids[i] == ids[j] == issue.block
    case MissingEntry => issue == Issue(MissingEntry, f.entry, 0, false, 0, 0) && f.entry !in ids
    case MissingTarget =>
      && issue == Issue(MissingTarget, issue.block, |AccessesOf(f, issue.block)|, true, 0, issue.target)
      && issue.target !in ids
      && exists i ::
           0 <= i < |ids| && ids[i] == issue.block && issue.block !in ids[..i] && HasTarget(f, i, issue.target)
    case DuplicateDeclaration =>
      && issue == Issue(DuplicateDeclaration, f.entry, 0, false, issue.storage, 0)
      && exists i, j :: 0 <= i < j < |f.declarations| && f.declarations[i] == f.declarations[j] == issue.storage
    case UnknownInitialStorage =>
      && issue == Issue(UnknownInitialStorage, f.entry, 0, false, issue.storage, 0)
      && issue.storage in f.initiallyInitialized && issue.storage !in f.declarations
    case _ => false
  }

  lemma {:induction false} LocatedMeaning(f: Function, issues: seq<CF.Issue>, issue: Issue)
    ensures issue in AllLocated(f, issues) <==> exists x :: x in issues && issue == Located(f, x)
  {
    hide Located;
    if issues != [] {
      var k := |issues| - 1;
      LocatedMeaning(f, issues[..k], issue);
      assert issues == issues[..k] + [issues[k]];
    }
  }

  lemma {:induction false} RedeclaredMeaning(f: Function, n: nat, issue: Issue)
    requires n <= |f.declarations|
    ensures issue in Redeclared(f, n) <==>
      issue == Issue(DuplicateDeclaration, f.entry, 0, false, issue.storage, 0)
      && exists i, j :: 0 <= i < j < n && f.declarations[i] == f.declarations[j] == issue.storage
  {
    if n > 0 {
      RedeclaredMeaning(f, n - 1, issue);
      var last := f.declarations[n - 1];
      if last in f.declarations[..n - 1] {
        var i :| 0 <= i < n - 1 && f.declarations[i] == last;
      }
      if i, j :| 0 <= i < j < n && f.declarations[i] == f.declarations[j] == issue.storage && j == n - 1 {
        assert f.declarations[..n - 1][i] == last;
      }
    }
  }

  lemma {:induction false} UnknownInitialMeaning(f: Function, n: nat, issue: Issue)
    requires n <= |f.initiallyInitialized|
    ensures issue in UnknownInitial(f, n) <==>
      issue == Issue(UnknownInitialStorage, f.entry, 0, false, issue.storage, 0)
      && issue.storage in f.initiallyInitialized[..n] && issue.storage !in f.declarations
  {
    if n > 0 {
      UnknownInitialMeaning(f, n - 1, issue);
      assert f.initiallyInitialized[..n] == f.initiallyInitialized[..n - 1] + [f.initiallyInitialized[n - 1]];
    }
  }

  lemma GraphIssueIsStructural(f: Function, x: CF.Issue)
    requires x in CF.Issues(ControlFlowFor(f))
    ensures Structural(f, Located(f, x))
  {
    hide CF.Issues, AccessesOf;
    var g, ids := ControlFlowFor(f), BlockIds(f);
    assert CF.Ids(g.blocks) == ids;
    CF.IssueMeaning(g, x);
    match x.kind
    case DuplicateBlock =>
      var j :| 0 <= j < |g.blocks| && g.blocks[j].id == x.block && x.block in ids[..j];
      var i :| 0 <= i < j && ids[i] == x.block;
      assert ids[j] == x.block;
    case MissingEntry =>
    case MissingTarget =>
      var i :| CF.IsFirst(g.blocks, i) && g.blocks[i].id == x.block && x.target in g.blocks[i].successors;
      assert ids[i] == x.block && HasTarget(f, i, x.target);
  }

  lemma StructuralIsGraphIssue(f: Function, issue: Issue) returns (x: CF.Issue)
    requires issue.kind in {DuplicateBlock, MissingEntry, MissingTarget} && Structural(f, issue)
    ensures x in CF.Issues(ControlFlowFor(f)) && issue == Located(f, x)
  {
    hide CF.Issues, AccessesOf;
    var g, ids := ControlFlowFor(f), BlockIds(f);
    assert CF.Ids(g.blocks) == ids;
    match issue.kind
    case DuplicateBlock =>
      var i, j :| 0 <= i < j < |ids| && ids[i] == ids[j] == issue.block;
      assert ids[i] in ids[..j] && g.blocks[j].id == issue.block;
      x := CF.Issue(CF.DuplicateBlock, issue.block, 0);
      CF.IssueMeaning(g, x);
    case MissingEntry =>
      x := CF.Issue(CF.MissingEntry, f.entry, 0);
      CF.IssueMeaning(g, x);
    case MissingTarget =>
      var i :| 0 <= i < |ids| && ids[i] == issue.block && issue.block !in ids[..i] && HasTarget(f, i, issue.target);
      assert CF.IsFirst(g.blocks, i) && g.blocks[i].id == issue.block;
      x := CF.Issue(CF.MissingTarget, issue.block, issue.target);
      CF.IssueMeaning(g, x);
  }

  /** Every report about the graph and the declarations names exactly the defect it stands for. */
  lemma StructuralReportMeaning(f: Function, issue: Issue)
    ensures (
        || issue in Redeclared(f, |f.declarations|)
        || issue in AllLocated(f, CF.Issues(ControlFlowFor(f)))
        || issue in UnknownInitial(f, |f.initiallyInitialized|)) <==> Structural(f, issue)
  {
    hide CF.Issues, AllLocated, Redeclared, UnknownInitial, ControlFlowFor, AccessesOf;
    LocatedMeaning(f, CF.Issues(ControlFlowFor(f)), issue);
    RedeclaredMeaning(f, |f.declarations|, issue);
    UnknownInitialMeaning(f, |f.initiallyInitialized|, issue);
    assert f.initiallyInitialized[..|f.initiallyInitialized|] == f.initiallyInitialized;
    if x :| x in CF.Issues(ControlFlowFor(f)) && issue == Located(f, x) {
      GraphIssueIsStructural(f, x);
    }
    if issue.kind in {DuplicateBlock, MissingEntry, MissingTarget} && Structural(f, issue) {
      var x := StructuralIsGraphIssue(f, issue);
    }
  }

  /** The whole list of reports. */
  lemma ReportMeaning(f: Function, order: seq<BlockId>, missing: Facts<Identity>, outgoing: Facts<Identity>,
      issue: Issue)
    requires IsFlow(Missing(f), missing, outgoing) && Elements(order) == Reachables(ControlFlowFor(f))
    ensures issue in AllIssues(f, order, missing) <==>
      || Structural(f, issue)
      || (issue.block in Reachables(ControlFlowFor(f)) && exists k :: Concerns(f, issue, k))
  {
    hide IsFlow, FlowIssues, CF.Issues, AllLocated, Redeclared, UnknownInitial, ControlFlowFor, Structural, Concerns,
        Reachables;
    AccessReportMeaning(f, order, missing, outgoing, issue);
    StructuralReportMeaning(f, issue);
  }
}
