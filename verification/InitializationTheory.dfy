/** Definite initialization: the accesses of a function, what it means for storage to be
    uninitialized along a path, and the diagnostics that follow. */
module InitializationTheory {
  import opened Graphs
  import opened Wrappers
  import opened DenseBits
  import opened ReachableGraph
  import opened ForwardFlow
  import CF = ControlFlow

  datatype Access = Access(
    instruction: nat,
    terminator: bool,
    uses: seq<Identity>,
    write: Option<Identity>)

  datatype Block = Block(id: BlockId, successors: seq<BlockId>, accesses: seq<Access>)

  datatype Function = Function(
    entry: BlockId,
    declarations: seq<Identity>,
    initiallyInitialized: seq<Identity>,
    blocks: seq<Block>)

  datatype IssueKind =
    | DuplicateBlock
    | MissingEntry
    | MissingTarget
    | DuplicateDeclaration
    | UnknownInitialStorage
    | UnknownReadStorage
    | UnknownWriteStorage
    | ReadBeforeInitialization

  datatype Issue = Issue(
    kind: IssueKind,
    block: BlockId,
    instruction: nat,
    terminator: bool,
    storage: Identity,
    target: BlockId)

  function ControlFlowFor(f: Function): CF.Graph {
    CF.Graph(f.entry, seq(|f.blocks|, i requires 0 <= i < |f.blocks| => CF.Block(f.blocks[i].id,
        f.blocks[i].successors)))
  }

  function BlockIds(f: Function): seq<BlockId> {
    seq(|f.blocks|, i requires 0 <= i < |f.blocks| => f.blocks[i].id)
  }

  /** The accesses of the first record of a block. */
  function AccessesOf(f: Function, b: BlockId): seq<Access> {
    if b in BlockIds(f) then f.blocks[FirstIndex(BlockIds(f), b)].accesses else []
  }

  // ---------------------------------------------------------------------------
  // What may be uninitialized

  type Storages = set<Identity>

  function Written(a: Access): Storages {
    if a.write.Some? then {a.write.value} else {}
  }

  function Writes(accesses: seq<Access>): Storages {
    if accesses == [] then {} else Written(accesses[0]) + Writes(accesses[1..])
  }

  lemma {:induction false} WritesSplit(a: seq<Access>, b: seq<Access>)
    ensures Writes(a + b) == Writes(a) + Writes(b)
  {
    if a == [] {
      assert a + b == b;
    } else {
      assert (a + b)[1..] == a[1..] + b;
      WritesSplit(a[1..], b);
    }
  }

  lemma WritesPrefix(accesses: seq<Access>, i: nat)
    requires i < |accesses|
    ensures Writes(accesses[..i + 1]) == Writes(accesses[..i]) + Written(accesses[i])
  {
    assert accesses[..i + 1] == accesses[..i] + [accesses[i]];
    WritesSplit(accesses[..i], [accesses[i]]);
  }

  function Declared(f: Function): Storages {
    Elements(f.declarations)
  }

  function InitiallyMissing(f: Function): Storages {
    Declared(f) - Elements(f.initiallyInitialized)
  }

  /** The analysis as a forward problem: what is missing can only be written away. */
  ghost function Missing(f: Function): Problem<Identity> {
    Problem(ControlFlowFor(f), InitiallyMissing(f), (b: BlockId, s: Storages) => s - Writes(AccessesOf(f, b)),
        Declared(f))
  }

  lemma MissingIsWellPosed(f: Function)
    ensures WellPosed(Missing(f))
  {
    hide Writes, AccessesOf, BlockIds, ControlFlowFor;
    var p := Missing(f);
    forall b, s, x | x in p.flow(b, s)
      ensures exists y :: y in s && x in p.flow(b, {y})
    {
      assert x in s && x in p.flow(b, {x});
    }
  }

  /** A path of the graph to block b along which x is declared, not given by the caller, and not
      written before b is entered. */
  ghost predicate Uninitialized(f: Function, path: seq<BlockId>, x: Identity) {
    x in InitiallyMissing(f) && forall i :: 0 <= i < |path| - 1 ==> x !in Writes(AccessesOf(f, path[i]))
  }

  ghost predicate MayBeMissing(f: Function, b: BlockId, x: Identity) {
    exists path :: PathBetween(CF.Edges(ControlFlowFor(f)), path, f.entry, b) && Uninitialized(f, path, x)
  }

  lemma {:induction false} AlongIsMissing(f: Function, path: seq<BlockId>, x: Identity)
    requires path != []
    ensures x in Along(Missing(f), path) <==> path[0] == f.entry && Uninitialized(f, path, x)
    decreases |path|
  {
    hide Writes, AccessesOf, InitiallyMissing, Declared;
    if |path| > 1 {
      var k := |path| - 1;
      AlongIsMissing(f, path[..k], x);
      assert path[..k][k - 1] == path[k - 1];
      if Uninitialized(f, path[..k], x) && x !in Writes(AccessesOf(f, path[k - 1])) {
        forall i | 0 <= i < k
          ensures x !in Writes(AccessesOf(f, path[i]))
        {
          assert path[..k][i] == path[i];
        }
      }
      if Uninitialized(f, path, x) {
        forall i | 0 <= i < k - 1
          ensures x !in Writes(AccessesOf(f, path[..k][i]))
        {
          assert path[..k][i] == path[i];
        }
      }
    }
  }

  /** Coming back to the entry never uncovers more: the last round alone misses as much. */
  lemma TraceIsMissing(f: Function, b: BlockId, x: Identity)
    requires b in Reachables(ControlFlowFor(f))
    ensures Trace(Missing(f), b, x) <==> MayBeMissing(f, b, x)
  {
    hide Along, Uninitialized, CF.Edges, Successors;
    var g := ControlFlowFor(f);
    ReachesSelf(CF.Edges(g), g.entry);
    if Trace(Missing(f), b, x) {
      var path: seq<BlockId> :| Tracks(g, path) && path[|path| - 1] == b && x in Along(Missing(f), path);
      AlongIsMissing(f, path, x);
      ReachablePartHasPaths(g, path);
      assert PathBetween(CF.Edges(g), path, f.entry, b);
    }
    if MayBeMissing(f, b, x) {
      var whole :| PathBetween(CF.Edges(g), whole, f.entry, b) && Uninitialized(f, whole, x);
      ReachablePartHasPaths(g, whole);
      var path := LastRound(g, whole);
      SuffixIsMissing(f, whole, path, x);
      AlongIsMissing(f, path, x);
    }
  }

  lemma SuffixIsMissing(f: Function, whole: seq<BlockId>, path: seq<BlockId>, x: Identity)
    requires |path| <= |whole| && path == whole[|whole| - |path|..]
    requires Uninitialized(f, whole, x)
    ensures Uninitialized(f, path, x)
  {
    hide Writes, AccessesOf, InitiallyMissing;
    var skip := |whole| - |path|;
    forall i | 0 <= i < |path| - 1
      ensures x !in Writes(AccessesOf(f, path[i]))
    {
      assert path[i] == whole[skip + i];
    }
  }

  // ---------------------------------------------------------------------------
  // Diagnostics

  function Redeclared(f: Function, n: nat): seq<Issue>
    requires n <= |f.declarations|
  {
    if n == 0 then []
    else
      Redeclared(f, n - 1)
      + if f.declarations[n - 1] in f.declarations[..n - 1]
        then [Issue(DuplicateDeclaration, f.entry, 0, false, f.declarations[n - 1], 0)] else []
  }

  function UnknownInitial(f: Function, n: nat): seq<Issue>
    requires n <= |f.initiallyInitialized|
  {
    if n == 0 then []
    else
      UnknownInitial(f, n - 1)
      + if f.initiallyInitialized[n - 1] in Declared(f) then []
        else [Issue(UnknownInitialStorage, f.entry, 0, false, f.initiallyInitialized[n - 1], 0)]
  }

  function KindOf(kind: CF.IssueKind): IssueKind {
    match kind
    case DuplicateBlock => DuplicateBlock
    case MissingEntry => MissingEntry
    case MissingTarget => MissingTarget
  }

  /** A missing target is located at the terminator of its block. */
  function Located(f: Function, issue: CF.Issue): Issue {
    var missing := issue.kind == CF.MissingTarget;
    Issue(KindOf(issue.kind), issue.block, if missing then |AccessesOf(f, issue.block)|
        else 0, missing, 0, issue.target)
  }

  function AllLocated(f: Function, issues: seq<CF.Issue>): seq<Issue> {
    if issues == [] then [] else
      var k := |issues| - 1;
      AllLocated(f, issues[..k]) + [Located(f, issues[k])]
  }

  function IssueAt(kind: IssueKind, b: BlockId, a: Access, x: Identity): Issue {
    Issue(kind, b, a.instruction, a.terminator, x, 0)
  }

  function ReadIssues(f: Function, b: BlockId, a: Access, missing: Storages, n: nat): seq<Issue>
    requires n <= |a.uses|
  {
    if n == 0 then []
    else
      var x := a.uses[n - 1];
      ReadIssues(f, b, a, missing, n - 1)
      + if x !in Declared(f) then [IssueAt(UnknownReadStorage, b, a, x)]
        else if x in missing then [IssueAt(ReadBeforeInitialization, b, a, x)]
        else []
  }

  function AccessIssues(f: Function, b: BlockId, a: Access, missing: Storages): seq<Issue> {
    ReadIssues(f, b, a, missing, |a.uses|)
    + if a.write.Some? && a.write.value !in Declared(f) then [IssueAt(UnknownWriteStorage, b, a, a.write.value)] else []
  }

  /** The issues of the first n accesses of a list that starts with the given storage missing. */
  function BlockIssues(f: Function, b: BlockId, accesses: seq<Access>, missing: Storages): seq<Issue> {
    if accesses == [] then []
    else
      var k := |accesses| - 1;
      BlockIssues(f, b, accesses[..k], missing) + AccessIssues(f, b, accesses[k], missing - Writes(accesses[..k]))
  }

  ghost function FlowIssues(f: Function, order: seq<BlockId>, missing: Facts<Identity>): seq<Issue> {
    if order == [] then []
    else
      var k := |order| - 1;
      FlowIssues(f, order[..k], missing) + BlockIssues(f, order[k], AccessesOf(f, order[k]), At(missing, order[k]))
  }

  /** Access k of block b, at the given position, reads declared storage x, and some path gets
      there without writing it. */
  ghost predicate ReadsTooEarly(f: Function, b: BlockId, k: nat, instruction: nat, terminator: bool, x: Identity) {
    && k < |AccessesOf(f, b)| && x in AccessesOf(f, b)[k].uses && x in Declared(f)
    && AccessesOf(f, b)[k].instruction == instruction && AccessesOf(f, b)[k].terminator == terminator
    && x !in Writes(AccessesOf(f, b)[..k])
    && MayBeMissing(f, b, x)
  }

  lemma {:induction false} ReadIssueMeaning(f: Function, b: BlockId, a: Access, missing: Storages, n: nat, issue: Issue)
    requires n <= |a.uses| && issue.kind == ReadBeforeInitialization
    ensures issue in ReadIssues(f, b, a, missing, n) <==>
      issue == IssueAt(ReadBeforeInitialization, b, a, issue.storage)
      && issue.storage in a.uses[..n] && issue.storage in Declared(f) && issue.storage in missing
  {
    hide Declared;
    if n > 0 {
      ReadIssueMeaning(f, b, a, missing, n - 1, issue);
      assert a.uses[..n] == a.uses[..n - 1] + [a.uses[n - 1]];
    }
  }

  lemma AccessIssueMeaning(f: Function, b: BlockId, a: Access, missing: Storages, issue: Issue)
    requires issue.kind == ReadBeforeInitialization
    ensures issue in AccessIssues(f, b, a, missing) <==>
      issue == IssueAt(ReadBeforeInitialization, b, a, issue.storage)
      && issue.storage in a.uses && issue.storage in Declared(f) && issue.storage in missing
  {
    hide Declared;
    ReadIssueMeaning(f, b, a, missing, |a.uses|, issue);
    assert a.uses[..|a.uses|] == a.uses;
  }

  ghost predicate TooEarlyAt(f: Function, b: BlockId, accesses: seq<Access>, missing: Storages, issue: Issue, k: nat) {
    && k < |accesses| && issue == IssueAt(ReadBeforeInitialization, b, accesses[k], issue.storage)
    && issue.storage in accesses[k].uses && issue.storage in Declared(f)
    && issue.storage in missing && issue.storage !in Writes(accesses[..k])
  }

  lemma {:induction false} BlockIssueMeaning(f: Function, b: BlockId, accesses: seq<Access>, missing: Storages,
      issue: Issue)
    requires issue.kind == ReadBeforeInitialization
    ensures issue in BlockIssues(f, b, accesses, missing) <==> exists k :: TooEarlyAt(f, b, accesses, missing, issue, k)
  {
    hide Declared, AccessIssues, Writes, Written;
    if accesses != [] {
      var n := |accesses| - 1;
      BlockIssueMeaning(f, b, accesses[..n], missing, issue);
      AccessIssueMeaning(f, b, accesses[n], missing - Writes(accesses[..n]), issue);
      forall k | 0 <= k < n
        ensures TooEarlyAt(f, b, accesses, missing, issue, k) <==> TooEarlyAt(f, b, accesses[..n], missing, issue, k)
      {
        assert accesses[..n][..k] == accesses[..k];
      }
      assert issue in AccessIssues(f, b, accesses[n], missing - Writes(accesses[..n]))
        <==> TooEarlyAt(f, b, accesses, missing, issue, n);
    }
  }

  lemma {:induction false} FlowIssueMeaning(f: Function, order: seq<BlockId>, missing: Facts<Identity>, issue: Issue)
    requires issue.kind == ReadBeforeInitialization
    ensures issue in FlowIssues(f, order, missing) <==>
      issue.block in order && exists k ::
          TooEarlyAt(f, issue.block, AccessesOf(f, issue.block), At(missing, issue.block), issue, k)
  {
    hide AccessesOf, At, BlockIssues;
    if order != [] {
      var n := |order| - 1;
      FlowIssueMeaning(f, order[..n], missing, issue);
      BlockIssueMeaning(f, order[n], AccessesOf(f, order[n]), At(missing, order[n]), issue);
      assert order == order[..n] + [order[n]];
      assert forall b: BlockId, accesses: seq<Access>, s: Storages, k: nat ::
        TooEarlyAt(f, b, accesses, s, issue, k) ==> issue.block == b;
    }
  }

  /** Every other diagnostic has another kind. */
  lemma {:induction false} OtherIssues(f: Function, n: nat, m: nat, cf: seq<CF.Issue>, issue: Issue)
    requires n <= |f.declarations| && m <= |f.initiallyInitialized|
    requires issue in Redeclared(f, n) + AllLocated(f, cf) + UnknownInitial(f, m)
    ensures issue.kind != ReadBeforeInitialization
    decreases n + m + |cf|
  {
    hide Declared, AccessesOf;
    if issue in Redeclared(f, n) && n > 0 && issue in Redeclared(f, n - 1) {
      OtherIssues(f, n - 1, m, cf, issue);
    } else if issue in UnknownInitial(f, m) && m > 0 && issue in UnknownInitial(f, m - 1) {
      OtherIssues(f, n, m - 1, cf, issue);
    } else if issue in AllLocated(f, cf) && cf != [] && issue in AllLocated(f, cf[..|cf| - 1]) {
      OtherIssues(f, n, m, cf[..|cf| - 1], issue);
    }
  }

  ghost function AllIssues(f: Function, order: seq<BlockId>, missing: Facts<Identity>): seq<Issue> {
    Redeclared(f, |f.declarations|) + AllLocated(f, CF.Issues(ControlFlowFor(f)))
    + UnknownInitial(f, |f.initiallyInitialized|) + FlowIssues(f, order, missing)
  }

  /** A read is reported exactly when some path from the entry reaches it with its storage
      neither given by the caller nor written. */
  lemma ReportedIffReadTooEarly(f: Function, order: seq<BlockId>, missing: Facts<Identity>, outgoing: Facts<Identity>,
                                b: BlockId, instruction: nat, terminator: bool, x: Identity)
    requires IsFlow(Missing(f), missing, outgoing) && Elements(order) == Reachables(ControlFlowFor(f))
    ensures Issue(ReadBeforeInitialization, b, instruction, terminator, x, 0) in AllIssues(f, order, missing) <==>
      b in Reachables(ControlFlowFor(f)) && exists k :: ReadsTooEarly(f, b, k, instruction, terminator, x)
  {
    hide IsFlow, Reachables, CF.Reachable, CF.Issues, Redeclared, AllLocated, UnknownInitial, FlowIssues, AccessesOf,
        Writes,
         MayBeMissing, Missing, Declared, ControlFlowFor, At;
    var issue := Issue(ReadBeforeInitialization, b, instruction, terminator, x, 0);
    FlowIssueMeaning(f, order, missing, issue);
    assert b in order <==> b in Elements(order);
    if issue in Redeclared(f, |f.declarations|) + AllLocated(f, CF.Issues(ControlFlowFor(f)))
        + UnknownInitial(f, |f.initiallyInitialized|) {
      OtherIssues(f, |f.declarations|, |f.initiallyInitialized|, CF.Issues(ControlFlowFor(f)), issue);
      assert false;
    }
    if b in Reachables(ControlFlowFor(f)) {
      MissingAtEntry(f, missing, outgoing, b, x);
      forall k: nat
        ensures TooEarlyAt(f, b, AccessesOf(f, b), At(missing, b), issue, k)
          <==> ReadsTooEarly(f, b, k, instruction, terminator, x)
      {
      }
    }
  }

  lemma MissingAtEntry(f: Function, missing: Facts<Identity>, outgoing: Facts<Identity>, b: BlockId, x: Identity)
    requires IsFlow(Missing(f), missing, outgoing) && b in Reachables(ControlFlowFor(f))
    ensures x in At(missing, b) <==> MayBeMissing(f, b, x)
  {
    hide Solved, Trace, MayBeMissing, CF.Reachable, Reachables;
    TraceIsMissing(f, b, x);
  }

  /** A function without any report reads no declared storage before it is initialized, on
      whatever path. */
  lemma NoReportNoEarlyRead(f: Function, order: seq<BlockId>, missing: Facts<Identity>, outgoing: Facts<Identity>,
                            b: BlockId, k: nat, instruction: nat, terminator: bool, x: Identity)
    requires IsFlow(Missing(f), missing, outgoing) && Elements(order) == Reachables(ControlFlowFor(f))
    requires AllIssues(f, order, missing) == [] && b in Reachables(ControlFlowFor(f))
    ensures !ReadsTooEarly(f, b, k, instruction, terminator, x)
  {
    hide IsFlow, CF.Reachable, Reachables, AllIssues, ReadsTooEarly, Missing, ControlFlowFor;
    ReportedIffReadTooEarly(f, order, missing, outgoing, b, instruction, terminator, x);
  }
}
