/** The diagnostics of ownership flow, and for which graphs their absence keeps the promise that
    no execution uses a handle it has given up. */
module OwnershipGuarantee {
  import opened Graphs
  import opened Wrappers
  import opened DenseBits
  import opened ReachableGraph
  import opened ForwardFlow
  import opened OwnershipTheory
  import CF = ControlFlow

  datatype IssueKind =
    | DuplicateBlock
    | MissingEntry
    | InvalidTarget
    | InvalidInitialHandle
    | ConflictingInitialKind
    | InvalidActionHandle
    | UseAfterConsume
    | HandleKindMismatch
    | PathStateMismatch

  datatype Issue = Issue(
    kind: IssueKind,
    block: BlockId,
    instruction: nat,
    terminator: bool,
    handle: Identity,
    expected: HandleKind,
    actual: StateMask)

  // ---------------------------------------------------------------------------
  // Structural diagnostics and entry state

  function KindOf(kind: CF.IssueKind): IssueKind {
    match kind
    case DuplicateBlock => DuplicateBlock
    case MissingEntry => MissingEntry
    case MissingTarget => InvalidTarget
  }

  function Located(f: Function, issue: CF.Issue): Issue {
    var missing := issue.kind == CF.MissingTarget;
    Issue(KindOf(issue.kind), issue.block, if missing then |ActionsOf(f, issue.block)|
        else 0, missing, 0, StrongKind, {Absent})
  }

  function AllLocated(f: Function, issues: seq<CF.Issue>): seq<Issue> {
    if issues == [] then [] else
      var k := |issues| - 1;
      AllLocated(f, issues[..k]) + [Located(f, issues[k])]
  }

  /** What is wrong with an entry handle: no identity, or another kind than before. */
  function InitialIssue(f: Function, i: nat): seq<Issue>
    requires i < |f.initialHandles|
  {
    var x := f.initialHandles[i];
    var before := InitialMask(f.initialHandles[..i], x.handle);
    if x.handle == 0 then [Issue(InvalidInitialHandle, f.entry, 0, false, 0, x.kind, {Absent})]
    else if before != {Absent} && before != {StateFor(x.kind)}
      then [Issue(ConflictingInitialKind, f.entry, 0, false, x.handle, x.kind, before)]
    else []
  }

  function InitialIssues(f: Function, n: nat): seq<Issue>
    requires n <= |f.initialHandles|
  {
    if n == 0 then [] else InitialIssues(f, n - 1) + InitialIssue(f, n - 1)
  }

  // ---------------------------------------------------------------------------
  // Requirements

  predicate HasOtherLiveKind(actual: StateMask, expected: Token) {
    actual * {Strong, Weak, Unowned} - {expected} != {}
  }

  /** Which diagnostic a use of a handle in the given states draws. */
  function Verdict(kind: HandleKind, actual: StateMask): Option<IssueKind> {
    var expected := StateFor(kind);
    var hasExpected := expected in actual;
    var hasConsumed := Consumed in actual;
    var hasAbsent := Absent in actual;
    var hasOtherKind := HasOtherLiveKind(actual, expected);
    if hasExpected && (hasConsumed || hasAbsent || hasOtherKind) then Some(PathStateMismatch)
    else if !hasExpected && hasConsumed then Some(UseAfterConsume)
    else if !hasExpected && hasOtherKind then Some(HandleKindMismatch)
    else None
  }

  /** A use is accepted exactly when every path brings the expected kind or none brings any. */
  lemma VerdictMeaning(kind: HandleKind, actual: StateMask)
    requires actual != {}
    ensures Verdict(kind, actual) == None <==> actual == {StateFor(kind)} || actual == {Absent}
    ensures Verdict(kind, actual) == Some(PathStateMismatch) <==> StateFor(kind) in actual && actual != {StateFor(kind)}
    ensures Verdict(kind, actual) == Some(UseAfterConsume) <==> StateFor(kind) !in actual && Consumed in actual
    ensures Verdict(kind, actual) == Some(HandleKindMismatch) <==>
      StateFor(kind) !in actual && Consumed !in actual && actual != {Absent}
  {
    var e := StateFor(kind);
    var other := actual * {Strong, Weak, Unowned} - {e};
    forall t | t in actual
      ensures t in other || t == e || t == Absent || t == Consumed
    {
      match t
      case Absent =>
      case Strong =>
      case Weak =>
      case Unowned =>
      case Consumed =>
    }
    if other != {} {
      var t :| t in other;
      assert t in actual && t != e && t != Absent && t != Consumed;
    }
  }

  function ActionIssues(b: BlockId, a: Action, s: set<Held>): seq<Issue> {
    if a.handle == 0 then [Issue(InvalidActionHandle, b, a.instruction, a.terminator, 0, a.expected, {Absent})]
    else if a.kind != Observe && a.kind != Consume then []
    else
      match Verdict(a.expected, Mask(s, a.handle))
      case None => []
      case Some(kind) => [Issue(kind, b, a.instruction, a.terminator, a.handle, a.expected, Mask(s, a.handle))]
  }

  function BlockIssues(b: BlockId, actions: seq<Action>, s: set<Held>): seq<Issue> {
    if actions == [] then []
    else
      var k := |actions| - 1;
      BlockIssues(b, actions[..k], s) + ActionIssues(b, actions[k], ActAllOnFacts(actions[..k], s))
  }

  ghost function FlowIssues(f: Function, order: seq<BlockId>, incoming: Facts<Held>): seq<Issue> {
    if order == [] then []
    else
      var k := |order| - 1;
      FlowIssues(f, order[..k], incoming) + BlockIssues(order[k], ActionsOf(f, order[k]), At(incoming, order[k]))
  }

  ghost function AllIssues(f: Function, order: seq<BlockId>, incoming: Facts<Held>): seq<Issue> {
    AllLocated(f, CF.Issues(ControlFlowFor(f))) + InitialIssues(f, |f.initialHandles|) + FlowIssues(f, order, incoming)
  }

  lemma {:induction false} ActAllOnFactsSplit(a: seq<Action>, b: seq<Action>, s: set<Held>)
    ensures ActAllOnFacts(a + b, s) == ActAllOnFacts(b, ActAllOnFacts(a, s))
    decreases |a|
  {
    if a == [] {
      assert a + b == b;
    } else {
      assert (a + b)[1..] == a[1..] + b;
      ActAllOnFactsSplit(a[1..], b, ActOnFacts(a[0], s));
    }
  }

  lemma ActAllOnFactsPrefix(actions: seq<Action>, i: nat, s: set<Held>)
    requires i < |actions|
    ensures ActAllOnFacts(actions[..i + 1], s) == ActOnFacts(actions[i], ActAllOnFacts(actions[..i], s))
  {
    hide ActOnFacts;
    assert actions[..i + 1] == actions[..i] + [actions[i]];
    ActAllOnFactsSplit(actions[..i], [actions[i]], s);
    assert ActAllOnFacts([actions[i]], ActAllOnFacts(actions[..i], s))
      == ActOnFacts(actions[i], ActAllOnFacts(actions[..i], s)) by {
      assert [actions[i]][1..] == [];
    }
  }

  lemma {:induction false} BlockIssuesMeaning(b: BlockId, actions: seq<Action>, s: set<Held>, issue: Issue)
    ensures issue in BlockIssues(b, actions, s) <==>
      exists k :: 0 <= k < |actions| && issue in ActionIssues(b, actions[k], ActAllOnFacts(actions[..k], s))
  {
    hide ActionIssues, ActAllOnFacts;
    if actions != [] {
      var n := |actions| - 1;
      BlockIssuesMeaning(b, actions[..n], s, issue);
      forall k | 0 <= k < n
        ensures actions[..n][k] == actions[k] && actions[..n][..k] == actions[..k]
      {
      }
    }
  }

  lemma {:induction false} FlowIssuesMeaning(f: Function, order: seq<BlockId>, incoming: Facts<Held>, issue: Issue)
    ensures issue in FlowIssues(f, order, incoming) <==>
      exists b :: b in order && issue in BlockIssues(b, ActionsOf(f, b), At(incoming, b))
  {
    hide BlockIssues, ActionsOf, At;
    if order != [] {
      var n := |order| - 1;
      FlowIssuesMeaning(f, order[..n], incoming, issue);
      assert order == order[..n] + [order[n]];
    }
  }

  // ---------------------------------------------------------------------------
  // What a path brings to an action

  /** An action on a handle that neither defines nor forgets it. */
  predicate IsUse(a: Action) {
    a.handle != 0 && a.kind != Define && a.kind != Forget
  }

  /** State t of handle h is brought to action k of block b by a path that does not come back
      to the entry. */
  ghost predicate MayHoldAt(f: Function, b: BlockId, k: nat, h: Identity, t: Token)
    requires k <= |ActionsOf(f, b)|
  {
    exists u :: MayHold(f, b, h, u) && ActAll(ActionsOf(f, b)[..k], h, u) == t
  }

  lemma ActionMaskIsExact(f: Function, incoming: Facts<Held>, outgoing: Facts<Held>, b: BlockId, k: nat, h: Identity,
      t: Token)
    requires IsFlow(Ownership(f), incoming, outgoing) && b in Reachables(ControlFlowFor(f))
    requires h in Handles(f) && h != 0 && k <= |ActionsOf(f, b)|
    ensures t in Mask(ActAllOnFacts(ActionsOf(f, b)[..k], At(incoming, b)), h) <==> MayHoldAt(f, b, k, h, t)
    ensures Mask(ActAllOnFacts(ActionsOf(f, b)[..k], At(incoming, b)), h) != {}
  {
    hide IsFlow, ActAllOnFacts, ActAll, MayHold, Handles, CF.Reachable, Reachables, At, ActionsOf;
    forall u
      ensures u in Mask(At(incoming, b), h) <==> MayHold(f, b, h, u)
    {
      MaskIsExact(f, incoming, outgoing, b, h, u);
    }
    MaskIsExact(f, incoming, outgoing, b, h, t);
    MaskIsImage(ActionsOf(f, b)[..k], At(incoming, b), h, t);
  }

  lemma ActionHandleIsKnown(f: Function, b: BlockId, k: nat)
    requires k < |ActionsOf(f, b)| && ActionsOf(f, b)[k].handle != 0
    ensures ActionsOf(f, b)[k].handle in Handles(f)
  {
    ActionsAreMentioned(f, b);
    assert ActionsOf(f, b)[k].handle in MentionedIn(ActionsOf(f, b));
  }

  /** A use draws a diagnostic exactly when the states the paths bring are neither all the
      expected one nor all absent. */
  lemma ReportedIffPathsDisagree(f: Function, incoming: Facts<Held>, outgoing: Facts<Held>, b: BlockId, k: nat)
    requires IsFlow(Ownership(f), incoming, outgoing) && b in Reachables(ControlFlowFor(f))
    requires k < |ActionsOf(f, b)| && IsUse(ActionsOf(f, b)[k])
    ensures
      var a := ActionsOf(f, b)[k];
      ActionIssues(b, a, ActAllOnFacts(ActionsOf(f, b)[..k], At(incoming, b))) == [] <==>
        (forall t :: MayHoldAt(f, b, k, a.handle, t) <==> t == StateFor(a.expected))
        || (forall t :: MayHoldAt(f, b, k, a.handle, t) <==> t == Absent)
  {
    hide IsFlow, ActAllOnFacts, MayHoldAt, Handles, CF.Reachable, Reachables, At, ActionsOf, Verdict;
    var a := ActionsOf(f, b)[k];
    var mask := Mask(ActAllOnFacts(ActionsOf(f, b)[..k], At(incoming, b)), a.handle);
    ActionHandleIsKnown(f, b, k);
    forall t
      ensures t in mask <==> MayHoldAt(f, b, k, a.handle, t)
    {
      ActionMaskIsExact(f, incoming, outgoing, b, k, a.handle, t);
    }
    ActionMaskIsExact(f, incoming, outgoing, b, k, a.handle, Absent);
    VerdictMeaning(a.expected, mask);
  }

  // ---------------------------------------------------------------------------
  // The guarantee

  /** State t of handle h is brought to action k of block b by any path from the entry. */
  ghost predicate OnSomePath(f: Function, b: BlockId, k: nat, h: Identity, t: Token)
    requires k <= |ActionsOf(f, b)|
  {
    exists path: seq<BlockId>, u, v ::
      && PathBetween(CF.Edges(ControlFlowFor(f)), path, f.entry, b)
      && u in InitialMask(f.initialHandles, h) && TokenAt(f, path, h, u) == v
      && ActAll(ActionsOf(f, b)[..k], h, v) == t
  }

  ghost predicate UseIsSafe(f: Function, b: BlockId, k: nat)
    requires k < |ActionsOf(f, b)|
  {
    var a := ActionsOf(f, b)[k];
    forall t :: OnSomePath(f, b, k, a.handle, t) ==> t == StateFor(a.expected) || t == Absent
  }

  /** Whatever path an execution takes, a use of a handle finds the expected kind of token or a
      handle that was never defined: never one of another kind, and never one already given up. */
  ghost predicate Safe(f: Function) {
    forall b, k ::
      (&& b in Reachables(ControlFlowFor(f)) && 0 <= k < |ActionsOf(f, b)|
       && IsUse(ActionsOf(f, b)[k])) ==> UseIsSafe(f, b, k)
  }

  /** An analysis of f without any report about its actions. */
  ghost predicate Accepted(f: Function, order: seq<BlockId>, incoming: Facts<Held>, outgoing: Facts<Held>) {
    && IsFlow(Ownership(f), incoming, outgoing)
    && Elements(order) == Reachables(ControlFlowFor(f))
    && FlowIssues(f, order, incoming) == []
  }

  /** No reachable block leads back to the entry. */
  ghost predicate EntryIsFresh(g: CF.Graph) {
    forall q :: q in Reachables(g) ==> !Edge(CF.Edges(g), q, g.entry)
  }

  lemma SomethingInside(issues: seq<Issue>)
    requires issues != []
    ensures exists issue :: issue in issues
  {
    assert issues[0] in issues;
  }

  lemma AcceptedActions(f: Function, order: seq<BlockId>, incoming: Facts<Held>, outgoing: Facts<Held>, b: BlockId,
      k: nat)
    requires Accepted(f, order, incoming, outgoing) && b in Reachables(ControlFlowFor(f)) && k < |ActionsOf(f, b)|
    ensures ActionIssues(b, ActionsOf(f, b)[k], ActAllOnFacts(ActionsOf(f, b)[..k], At(incoming, b))) == []
  {
    hide IsFlow, ActAllOnFacts, CF.Reachable, Reachables, At, ActionsOf, ActionIssues, BlockIssues, FlowIssues;
    assert b in order;
    var issues := ActionIssues(b, ActionsOf(f, b)[k], ActAllOnFacts(ActionsOf(f, b)[..k], At(incoming, b)));
    forall issue
      ensures issue !in issues
    {
      BlockIssuesMeaning(b, ActionsOf(f, b), At(incoming, b), issue);
      FlowIssuesMeaning(f, order, incoming, issue);
    }
    if issues != [] {
      SomethingInside(issues);
    }
  }

  lemma FreshPathsTrack(g: CF.Graph, path: seq<BlockId>)
    requires EntryIsFresh(g) && g.entry in CF.IdSet(g) && IsPath(CF.Edges(g), path) && path[0] == g.entry
    ensures Tracks(g, path)
  {
    hide CF.Edges, Successors;
    ReachesSelf(CF.Edges(g), g.entry);
    ReachablePartHasPaths(g, path);
    forall i | 0 < i < |path|
      ensures path[i] != g.entry
    {
      SliceIsPath(CF.Edges(g), path, 0, i - 1);
      assert Reaches(CF.Edges(g), g.entry, path[i - 1]);
      assert Edge(CF.Edges(g), path[i - 1], path[i - 1 + 1]);
    }
  }

  /** When nothing leads back to the entry, accepted functions are safe on every path. */
  lemma FreshEntryIsSafe(f: Function, order: seq<BlockId>, incoming: Facts<Held>, outgoing: Facts<Held>)
    requires Accepted(f, order, incoming, outgoing) && EntryIsFresh(ControlFlowFor(f))
    ensures Safe(f)
  {
    hide Accepted, UseIsSafe, CF.Reachable, Reachables, EntryIsFresh, ActionsOf;
    forall b, k | b in Reachables(ControlFlowFor(f)) && 0 <= k < |ActionsOf(f, b)|
      && IsUse(ActionsOf(f, b)[k])
      ensures UseIsSafe(f, b, k)
    {
      FreshUseIsSafe(f, order, incoming, outgoing, b, k);
    }
  }

  lemma FreshUseIsSafe(f: Function, order: seq<BlockId>, incoming: Facts<Held>, outgoing: Facts<Held>, b: BlockId,
      k: nat)
    requires Accepted(f, order, incoming, outgoing) && EntryIsFresh(ControlFlowFor(f))
    requires b in Reachables(ControlFlowFor(f)) && k < |ActionsOf(f, b)|
    requires IsUse(ActionsOf(f, b)[k])
    ensures UseIsSafe(f, b, k)
  {
    hide IsFlow, ActAllOnFacts, ActAll, TokenAt, ActionIssues, FlowIssues, Reachables, At, ActionsOf, CF.Edges,
        EntryIsFresh, InitialMask, Tracks;
    var a := ActionsOf(f, b)[k];
    AcceptedActions(f, order, incoming, outgoing, b, k);
    ReportedIffPathsDisagree(f, incoming, outgoing, b, k);
    forall t | OnSomePath(f, b, k, a.handle, t)
      ensures t == StateFor(a.expected) || t == Absent
    {
      var path: seq<BlockId>, u, v :| PathBetween(CF.Edges(ControlFlowFor(f)), path, f.entry, b)
        && u in InitialMask(f.initialHandles, a.handle) && TokenAt(f, path, a.handle, u) == v
        && ActAll(ActionsOf(f, b)[..k], a.handle, v) == t;
      FreshPathsTrack(ControlFlowFor(f), path);
      assert Reached(f, path, a.handle, v);
      assert MayHold(f, b, a.handle, v);
      assert MayHoldAt(f, b, k, a.handle, t);
    }
  }

  // ---------------------------------------------------------------------------
  // A graph with a way back to the entry

  /** A function on the given graph that gives up handle 1 at its entry and does nothing else. */
  function GivesUpAtEntry(g: CF.Graph): (f: Function)
    ensures ControlFlowFor(f) == g && f.entry == g.entry
  {
    var f := Function(g.entry, [InitialHandle(1, StrongKind)],
      seq(|g.blocks|, i requires 0 <= i < |g.blocks| =>
        Block(g.blocks[i].id, g.blocks[i].successors,
              if g.blocks[i].id == g.entry then [Action(Consume, 1, StrongKind, 0, false)] else [])));
    assert ControlFlowFor(f).blocks == g.blocks;
    f
  }

  lemma GivesUpActions(g: CF.Graph, b: BlockId)
    requires g.entry in CF.IdSet(g)
    ensures ActionsOf(GivesUpAtEntry(g), b) == if b == g.entry then [Action(Consume, 1, StrongKind, 0, false)] else []
  {
    var f := GivesUpAtEntry(g);
    assert BlockIds(f) == CF.Ids(g.blocks);
    if b in BlockIds(f) {
      assert f.blocks[FirstIndex(BlockIds(f), b)].id == b;
    }
  }

  lemma GivesUpHandles(g: CF.Graph)
    requires g.entry in CF.IdSet(g)
    ensures Handles(GivesUpAtEntry(g)) == {1}
    ensures InitialMask(GivesUpAtEntry(g).initialHandles, 1) == {Strong}
  {
    var f := GivesUpAtEntry(g);
    assert f.initialHandles[0].handle == 1;
    assert f.initialHandles[..0] == [];
    assert Given(f.initialHandles, 1) == {Strong};
  }

  /** Before the entry the handle is strong, and given up everywhere else. */
  ghost function GivenUpBefore(g: CF.Graph): Facts<Held> {
    map b | b in Reachables(g) :: {Held(1, if b == g.entry then Strong else Consumed)}
  }

  ghost function GivenUpAfter(g: CF.Graph): Facts<Held> {
    map b | b in Reachables(g) :: {Held(1, Consumed)}
  }

  lemma GivesUpFlow(g: CF.Graph, b: BlockId)
    requires g.entry in CF.IdSet(g) && b in Reachables(g)
    ensures ActAllOnFacts(ActionsOf(GivesUpAtEntry(g), b), GivenUpBefore(g)[b]) == GivenUpAfter(g)[b]
  {
    hide ActionsOf, GivesUpAtEntry, CF.Reachable, Reachables;
    GivesUpActions(g, b);
    if b == g.entry {
      var a := Action(Consume, 1, StrongKind, 0, false);
      var s := {Held(1, Strong)};
      assert Mask(s, 1) == {Strong};
      assert [a][1..] == [];
      assert ActAllOnFacts([a], s) == ActOnFacts(a, s);
      assert Mask(ActOnFacts(a, s), 1) == {Consumed};
      forall x | x in ActOnFacts(a, s)
        ensures x == Held(1, Consumed)
      {
        assert x.token in Mask(ActOnFacts(a, s), x.handle);
      }
    }
  }

  lemma GivesUpStart(g: CF.Graph)
    requires g.entry in CF.IdSet(g)
    ensures InitialFacts(GivesUpAtEntry(g)) == {Held(1, Strong)}
  {
    hide Handles, InitialMask, GivesUpAtEntry;
    GivesUpHandles(g);
    var f := GivesUpAtEntry(g);
    forall x | x in InitialFacts(f)
      ensures x == Held(1, Strong)
    {
    }
  }

  lemma GivesUpSolved(g: CF.Graph, b: BlockId)
    requires g.entry in CF.IdSet(g) && b in Reachables(g)
    ensures Solved(Ownership(GivesUpAtEntry(g)), GivenUpBefore(g), GivenUpAfter(g), b)
  {
    hide ActionsOf, GivesUpAtEntry, CF.Reachable, Reachables, ActAllOnFacts, InitialFacts, Every, Successors, CF.Edges;
    GivesUpFlow(g, b);
    GivesUpStart(g);
    var p := Ownership(GivesUpAtEntry(g));
    var before, after := GivenUpBefore(g), GivenUpAfter(g);
    if b != g.entry {
      HasPredecessor(g, b);
      forall q | Edge(Successors(g), q, b)
        ensures At(after, q) == {Held(1, Consumed)}
      {
        SuccessorEdge(g, q, b);
      }
    }
    forall x
      ensures x in At(before, b) <==> Arrives(p, after, b, x)
    {
    }
  }

  lemma GivesUpTraced(g: CF.Graph, b: BlockId, x: Held)
    requires g.entry in CF.IdSet(g) && b in Reachables(g)
    ensures x in GivenUpBefore(g)[b] <==> Trace(Ownership(GivesUpAtEntry(g)), b, x)
  {
    hide ActionsOf, GivesUpAtEntry, CF.Reachable, Reachables, Along, Successors, Solved, Ownership, Handles;
    var f := GivesUpAtEntry(g);
    var p := Ownership(f);
    OwnershipIsMonotone(f);
    forall c | c in Reachables(g)
      ensures Solved(p, GivenUpBefore(g), GivenUpAfter(g), c)
    {
      GivesUpSolved(g, c);
    }
    assert p.graph == g by { OwnershipGraph(f); }
    var path := HasTrack(g, b);
    GivesUpHandles(g);
    AlongIsReached(f, path, 1, Absent);
    var t :| t in Mask(Along(p, path), 1);
    assert Trace(p, b, Held(1, t));
    ForwardFlow.TraceIsHeld(p, GivenUpBefore(g), GivenUpAfter(g), b, Held(1, t));
    if Trace(p, b, x) {
      ForwardFlow.TraceIsHeld(p, GivenUpBefore(g), GivenUpAfter(g), b, x);
    }
  }

  lemma OwnershipGraph(f: Function)
    ensures Ownership(f).graph == ControlFlowFor(f) && Ownership(f).universe == Every(Handles(f))
  {
  }

  lemma GivesUpIsFlow(g: CF.Graph)
    requires g.entry in CF.IdSet(g)
    ensures IsFlow(Ownership(GivesUpAtEntry(g)), GivenUpBefore(g), GivenUpAfter(g))
  {
    hide GivesUpAtEntry, CF.Reachable, Reachables, Solved, Trace, Ownership;
    var p := Ownership(GivesUpAtEntry(g));
    assert p.graph == g by { OwnershipGraph(GivesUpAtEntry(g)); }
    forall b | b in Reachables(g)
      ensures Solved(p, GivenUpBefore(g), GivenUpAfter(g), b)
    {
      GivesUpSolved(g, b);
    }
    forall b, x | b in Reachables(g)
      ensures x in GivenUpBefore(g)[b] <==> Trace(p, b, x)
    {
      GivesUpTraced(g, b, x);
    }
  }

  lemma GivesUpIsAccepted(g: CF.Graph)
    requires g.entry in CF.IdSet(g)
    ensures exists order, incoming, outgoing :: Accepted(GivesUpAtEntry(g), order, incoming, outgoing)
  {
    hide GivesUpAtEntry, CF.Reachable, Reachables, ActionsOf, IsFlow, FlowIssues, BlockIssues;
    var f := GivesUpAtEntry(g);
    GivesUpIsFlow(g);
    var order := ToVector(Reachables(g));
    forall issue
      ensures issue !in FlowIssues(f, order, GivenUpBefore(g))
    {
      FlowIssuesMeaning(f, order, GivenUpBefore(g), issue);
      forall b | b in order
        ensures issue !in BlockIssues(b, ActionsOf(f, b), At(GivenUpBefore(g), b))
      {
        assert b in Elements(order);
        GivesUpBlockIssues(g, b);
      }
    }
    if FlowIssues(f, order, GivenUpBefore(g)) != [] {
      SomethingInside(FlowIssues(f, order, GivenUpBefore(g)));
    }
    assert Accepted(f, order, GivenUpBefore(g), GivenUpAfter(g));
  }

  lemma GivesUpBlockIssues(g: CF.Graph, b: BlockId)
    requires g.entry in CF.IdSet(g) && b in Reachables(g)
    ensures BlockIssues(b, ActionsOf(GivesUpAtEntry(g), b), At(GivenUpBefore(g), b)) == []
  {
    hide GivesUpAtEntry, CF.Reachable, Reachables, ActionsOf;
    GivesUpActions(g, b);
    if b == g.entry {
      var a := Action(Consume, 1, StrongKind, 0, false);
      var s := {Held(1, Strong)};
      assert At(GivenUpBefore(g), b) == s;
      assert Mask(s, 1) == {Strong};
      assert [a][..0] == [];
      assert ActAllOnFacts([], s) == s;
      assert ActionIssues(b, a, s) == [];
    }
  }

  lemma {:induction false} GivenUpAlongPath(g: CF.Graph, path: seq<BlockId>)
    requires g.entry in CF.IdSet(g) && |path| > 1 && path[0] == g.entry
    ensures TokenAt(GivesUpAtEntry(g), path, 1, Strong) == Consumed
    decreases |path|
  {
    hide GivesUpAtEntry, ActionsOf;
    var shorter, q := path[..|path| - 1], path[|path| - 2];
    GivesUpActions(g, q);
    var a := Action(Consume, 1, StrongKind, 0, false);
    assert [a][1..] == [];
    assert forall t :: ActAll([a], 1, t) == Act(a, 1, t);
    if |path| == 2 {
      assert TokenAt(GivesUpAtEntry(g), shorter, 1, Strong) == Strong;
    } else {
      GivenUpAlongPath(g, shorter);
    }
  }

  /** A way back to the entry hides a handle that is given up twice. */
  lemma BackEdgeIsUnsafe(g: CF.Graph, q: BlockId)
    requires q in Reachables(g) && Edge(CF.Edges(g), q, g.entry)
    ensures !Safe(GivesUpAtEntry(g))
  {
    hide GivesUpAtEntry, ActionsOf, CF.Edges, TokenAt;
    var f := GivesUpAtEntry(g);
    GivesUpActions(g, g.entry);
    GivesUpHandles(g);
    var way :| PathBetween(CF.Edges(g), way, g.entry, q);
    var path := way + [g.entry];
    AppendEdge(CF.Edges(g), way, g.entry);
    GivenUpAlongPath(g, path);
    ReachesSelf(CF.Edges(g), g.entry);
    assert ActionsOf(f, g.entry)[..0] == [];
    assert PathBetween(CF.Edges(ControlFlowFor(f)), path, f.entry, g.entry)
      && Strong in InitialMask(f.initialHandles, 1) && TokenAt(f, path, 1, Strong) == Consumed
      && ActAll(ActionsOf(f, g.entry)[..0], 1, Consumed) == Consumed;
    assert OnSomePath(f, g.entry, 0, 1, Consumed);
    assert ActionsOf(f, g.entry)[0] == Action(Consume, 1, StrongKind, 0, false);
    assert !UseIsSafe(f, g.entry, 0);
    assert g.entry in Reachables(g);
  }

  /** Acceptance means safety for every function on a graph exactly when no reachable block of
      the graph leads back to its entry. */
  lemma GuaranteeHoldsIffEntryIsFresh(g: CF.Graph)
    requires g.entry in CF.IdSet(g)
    ensures EntryIsFresh(g) <==>
      forall f, order, incoming, outgoing :: ControlFlowFor(f) == g && Accepted(f, order, incoming, outgoing) ==>
          Safe(f)
  {
    hide Accepted, Safe, CF.Edges, CF.Reachable, Reachables, GivesUpAtEntry, ControlFlowFor;
    if EntryIsFresh(g) {
      forall f, order, incoming, outgoing | ControlFlowFor(f) == g && Accepted(f, order, incoming, outgoing)
        ensures Safe(f)
      {
        FreshEntryIsSafe(f, order, incoming, outgoing);
      }
    } else {
      var q :| q in Reachables(g) && Edge(CF.Edges(g), q, g.entry);
      GivesUpIsAccepted(g);
      BackEdgeIsUnsafe(g, q);
      var f := GivesUpAtEntry(g);
      var order, incoming, outgoing :| Accepted(f, order, incoming, outgoing);
      assert ControlFlowFor(f) == g && Accepted(f, order, incoming, outgoing) && !Safe(f);
    }
  }

  /** A result without any diagnostic, on a graph that never comes back to its entry: no execution
      uses a handle it has given up, or one of another kind. */
  lemma NoReportIsSafe(f: Function, order: seq<BlockId>, incoming: Facts<Held>, outgoing: Facts<Held>)
    requires IsFlow(Ownership(f), incoming, outgoing) && Elements(order) == Reachables(ControlFlowFor(f))
    requires AllIssues(f, order, incoming) == [] && EntryIsFresh(ControlFlowFor(f))
    ensures Safe(f)
  {
    hide IsFlow, Safe, EntryIsFresh, CF.Reachable, Reachables, CF.Issues, InitialIssues, AllLocated, FlowIssues;
    FreshEntryIsSafe(f, order, incoming, outgoing);
  }
}
