/** What the reports of ownership flow mean for the actions an execution performs: no state of
    the analysis is mentioned, only which action gave a handle up, defined it or forgot it. */
module OwnershipMeaning {
  import opened Graphs
  import opened Wrappers
  import opened DenseBits
  import opened ReachableGraph
  import opened ForwardFlow
  import opened OwnershipTheory
  import opened OwnershipGuarantee
  import CF = ControlFlow

  // ---------------------------------------------------------------------------
  // The history of a handle

  /** The live state that a kind of handle stands for. */
  predicate Names(kind: HandleKind, t: Token) {
    match t
    case Strong => kind == StrongKind
    case Weak => kind == WeakKind
    case Unowned => kind == UnownedKind
    case Absent => false
    case Consumed => false
  }

  /** The caller brings handle h in state t: of a kind it lists for h, or absent when it lists none. */
  ghost predicate Brought(initial: seq<InitialHandle>, h: Identity, t: Token) {
    || (exists i :: 0 <= i < |initial| && initial[i].handle == h && Names(initial[i].kind, t))
    || (t == Absent && forall i :: 0 <= i < |initial| ==> initial[i].handle != h)
  }

  predicate Sets(a: Action, h: Identity) {
    a.handle == h && (a.kind == Define || a.kind == Forget)
  }

  /** From position i on nothing defines or forgets h. */
  predicate Untouched(history: seq<Action>, h: Identity, i: nat) {
    forall j :: i <= j < |history| ==> !Sets(history[j], h)
  }

  /** What a defining or forgetting action leaves. */
  predicate Leaves(a: Action, t: Token) {
    if a.kind == Define then Names(a.expected, t) else t == Absent
  }

  /** State t goes back to the last action that defined or forgot h, or to the start. */
  ghost predicate GoesBackTo(history: seq<Action>, h: Identity, start: Token, t: Token) {
    || (Untouched(history, h, 0) && t == start)
    || exists i :: 0 <= i < |history| && Sets(history[i], h) && Leaves(history[i], t) && Untouched(history, h, i + 1)
  }

  /** Action i consumes h, which has the kind it expects. */
  ghost predicate GivesUp(history: seq<Action>, h: Identity, start: Token, i: nat) {
    && i < |history| && history[i].handle == h && history[i].kind == Consume
    && exists t :: Names(history[i].expected, t) && GoesBackTo(history[..i], h, start, t)
  }

  /** h was given up, and neither defined nor forgotten since. */
  ghost predicate GivenUp(history: seq<Action>, h: Identity, start: Token) {
    exists i: nat :: GivesUp(history, h, start, i) && Untouched(history, h, i + 1)
  }

  lemma KindNamesState(kind: HandleKind, t: Token)
    ensures Names(kind, t) <==> t == StateFor(kind)
  {
  }

  lemma {:induction false} GoesBackOnce(history: seq<Action>, h: Identity, start: Token, t: Token, u: Token)
    requires GoesBackTo(history, h, start, t) && GoesBackTo(history, h, start, u)
    ensures t == u
  {
    if !Untouched(history, h, 0) {
      var i :| 0 <= i < |history| && Sets(history[i], h) && Leaves(history[i], t) && Untouched(history, h, i + 1);
      var j :| 0 <= j < |history| && Sets(history[j], h) && Leaves(history[j], u) && Untouched(history, h, j + 1);
      assert i == j;
    }
  }

  lemma GoesBackStep(before: seq<Action>, a: Action, h: Identity, start: Token, t: Token)
    ensures GoesBackTo(before + [a], h, start, t) <==>
      if Sets(a, h) then Leaves(a, t) else GoesBackTo(before, h, start, t)
  {
    hide Leaves, Sets;
    var n := |before|;
    var history := before + [a];
    assert history[n] == a && forall i :: 0 <= i < n ==> history[i] == before[i];
    if Sets(a, h) {
      assert Untouched(history, h, n + 1);
    } else {
      assert forall i: nat :: i <= n ==> (Untouched(history, h, i) <==> Untouched(before, h, i));
    }
  }

  lemma GivesUpEarlier(before: seq<Action>, a: Action, h: Identity, start: Token, i: nat)
    requires i < |before|
    ensures GivesUp(before + [a], h, start, i) <==> GivesUp(before, h, start, i)
  {
    assert (before + [a])[..i] == before[..i];
  }

  lemma GivenUpStep(before: seq<Action>, a: Action, h: Identity, start: Token)
    ensures GivenUp(before + [a], h, start) <==>
      !Sets(a, h) && (GivenUp(before, h, start) || GivesUp(before + [a], h, start, |before|))
  {
    hide GivesUp, Sets;
    var n := |before|;
    var history := before + [a];
    assert history[n] == a && forall i :: 0 <= i < n ==> history[i] == before[i];
    if GivenUp(history, h, start) {
      var i: nat :| GivesUp(history, h, start, i) && Untouched(history, h, i + 1);
      assert i < |history| by { hide *; GivesUpInside(history, h, start, i); }
      if i < n {
        GivesUpEarlier(before, a, h, start, i);
        assert Untouched(before, h, i + 1);
      } else {
        GivesUpSetsNothing(history, h, start, n);
      }
    }
    if !Sets(a, h) && GivenUp(before, h, start) {
      var i: nat :| GivesUp(before, h, start, i) && Untouched(before, h, i + 1);
      assert i < |before| by { hide *; GivesUpInside(before, h, start, i); }
      GivesUpEarlier(before, a, h, start, i);
      assert Untouched(history, h, i + 1);
    }
    if GivesUp(history, h, start, n) {
      assert Untouched(history, h, n + 1);
    }
  }

  lemma GivesUpInside(history: seq<Action>, h: Identity, start: Token, i: nat)
    requires GivesUp(history, h, start, i)
    ensures i < |history|
  {
  }

  lemma GivesUpSetsNothing(history: seq<Action>, h: Identity, start: Token, i: nat)
    requires GivesUp(history, h, start, i)
    ensures i < |history| && !Sets(history[i], h)
  {
  }

  lemma {:induction false} ActAllSplit(a: seq<Action>, b: seq<Action>, h: Identity, t: Token)
    ensures ActAll(a + b, h, t) == ActAll(b, h, ActAll(a, h, t))
    decreases |a|
  {
    if a == [] {
      assert a + b == b;
    } else {
      assert (a + b)[1..] == a[1..] + b;
      ActAllSplit(a[1..], b, h, Act(a[0], h, t));
    }
  }

  lemma ActAllStep(before: seq<Action>, a: Action, h: Identity, t: Token)
    ensures ActAll(before + [a], h, t) == Act(a, h, ActAll(before, h, t))
  {
    hide Act;
    ActAllSplit(before, [a], h, t);
    assert [a][1..] == [];
  }

  /** The state of a handle tells its history: it is consumed exactly when it was given up and
      neither defined nor forgotten since, and otherwise what the last such action left. */
  lemma {:induction false} StateTellsHistory(history: seq<Action>, h: Identity, start: Token, t: Token)
    requires start != Consumed
    ensures ActAll(history, h, start) == t <==>
      if t == Consumed then GivenUp(history, h, start)
      else GoesBackTo(history, h, start, t) && !GivenUp(history, h, start)
    decreases |history|
  {
    hide GoesBackTo, GivenUp, Act, GivesUp;
    if history == [] {
      EmptyHistory(h, start, t);
    } else {
      var n := |history| - 1;
      var before, a := history[..n], history[n];
      assert history == before + [a];
      var u := ActAll(before, h, start);
      StateTellsHistory(before, h, start, u);
      ActAllStep(before, a, h, start);
      StepTellsHistory(before, a, h, start, u, t);
    }
  }

  lemma EmptyHistory(h: Identity, start: Token, t: Token)
    ensures GoesBackTo([], h, start, t) <==> t == start
    ensures !GivenUp([], h, start)
  {
  }

  lemma StepTellsHistory(before: seq<Action>, a: Action, h: Identity, start: Token, u: Token, t: Token)
    requires if u == Consumed then GivenUp(before, h, start)
      else GoesBackTo(before, h, start, u) && !GivenUp(before, h, start)
    requires start != Consumed
    ensures Act(a, h, u) == t <==>
      if t == Consumed then GivenUp(before + [a], h, start)
      else GoesBackTo(before + [a], h, start, t) && !GivenUp(before + [a], h, start)
  {
    hide GoesBackTo, GivenUp, Untouched;
    GoesBackStep(before, a, h, start, t);
    GivenUpStep(before, a, h, start);
    var e := StateFor(a.expected);
    assert forall s :: Names(a.expected, s) <==> s == e;
    assert (before + [a])[..|before|] == before && (before + [a])[|before|] == a;
    assert GivesUp(before + [a], h, start, |before|) <==>
      a.handle == h && a.kind == Consume && GoesBackTo(before, h, start, e);
    if u != Consumed && GoesBackTo(before, h, start, e) {
      GoesBackOnce(before, h, start, u, e);
    }
    if u != Consumed && GoesBackTo(before, h, start, t) {
      GoesBackOnce(before, h, start, u, t);
    }
  }

  // ---------------------------------------------------------------------------
  // Executions

  /** Everything done before the last block of a path is entered. */
  function Performed(f: Function, path: seq<BlockId>): seq<Action>
    requires path != []
  {
    if |path| == 1 then [] else Performed(f, path[..|path| - 1]) + ActionsOf(f, path[|path| - 2])
  }

  lemma {:induction false} TokenIsPerformed(f: Function, path: seq<BlockId>, h: Identity, t: Token)
    requires path != []
    ensures TokenAt(f, path, h, t) == ActAll(Performed(f, path), h, t)
    decreases |path|
  {
    hide ActionsOf;
    if |path| > 1 {
      var shorter, q := path[..|path| - 1], path[|path| - 2];
      TokenIsPerformed(f, shorter, h, t);
      ActAllSplit(Performed(f, shorter), ActionsOf(f, q), h, t);
    }
  }

  lemma {:induction false} GivenMeaning(initial: seq<InitialHandle>, h: Identity, t: Token)
    ensures t in Given(initial, h) <==>
      exists i :: 0 <= i < |initial| && initial[i].handle == h && Names(initial[i].kind, t)
    decreases |initial|
  {
    if initial != [] {
      var k := |initial| - 1;
      GivenMeaning(initial[..k], h, t);
      KindNamesState(initial[k].kind, t);
      assert forall i :: 0 <= i < k ==> initial[..k][i] == initial[i];
    }
  }

  /** The states an analysis starts from are those the caller may bring. */
  lemma InitialMaskIsBrought(initial: seq<InitialHandle>, h: Identity, t: Token)
    ensures t in InitialMask(initial, h) <==> Brought(initial, h, t)
  {
    GivenMeaning(initial, h, t);
    if i :| 0 <= i < |initial| && initial[i].handle == h {
      var s := StateFor(initial[i].kind);
      KindNamesState(initial[i].kind, s);
      GivenMeaning(initial, h, s);
    } else if s :| s in Given(initial, h) {
      GivenMeaning(initial, h, s);
    }
  }

  /** The entry exists, the caller brings a handle in state start, the path is taken, and then the first k actions
      of its last block are performed. */
  ghost predicate Execution(f: Function, path: seq<BlockId>, k: nat, h: Identity, start: Token)
    requires path != []
  {
    && f.entry in BlockIds(f)
    && PathBetween(CF.Edges(ControlFlowFor(f)), path, f.entry, path[|path| - 1])
    && k <= |ActionsOf(f, path[|path| - 1])|
    && Brought(f.initialHandles, h, start)
  }

  function History(f: Function, path: seq<BlockId>, k: nat): seq<Action>
    requires path != [] && k <= |ActionsOf(f, path[|path| - 1])|
  {
    Performed(f, path) + ActionsOf(f, path[|path| - 1])[..k]
  }

  lemma ExecutionIsOnPath(f: Function, path: seq<BlockId>, k: nat, h: Identity, start: Token)
    requires path != [] && Execution(f, path, k, h, start)
    ensures path[|path| - 1] in Reachables(ControlFlowFor(f))
    ensures OnSomePath(f, path[|path| - 1], k, h, ActAll(History(f, path, k), h, start))
  {
    hide ActAll, ActionsOf, CF.Edges, InitialMask, Brought;
    var b := path[|path| - 1];
    var g := ControlFlowFor(f);
    assert CF.Ids(g.blocks) == BlockIds(f);
    assert Reaches(CF.Edges(g), g.entry, b);
    InitialMaskIsBrought(f.initialHandles, h, start);
    TokenIsPerformed(f, path, h, start);
    ActAllSplit(Performed(f, path), ActionsOf(f, b)[..k], h, start);
  }

  lemma StartIsLive(initial: seq<InitialHandle>, h: Identity, start: Token)
    requires Brought(initial, h, start)
    ensures start != Consumed
  {
  }

  /** A function without a report, on a graph that never comes back to its entry: whenever an
      execution gets to an action that observes or consumes a handle, that handle was not given
      up before, unless it was defined or forgotten in between; and it goes back to a definition
      of the expected kind, or is absent. */
  lemma NoUseAfterGivingUp(f: Function, order: seq<BlockId>, incoming: Facts<Held>, outgoing: Facts<Held>,
      path: seq<BlockId>, k: nat, h: Identity, start: Token)
    requires Accepted(f, order, incoming, outgoing) && EntryIsFresh(ControlFlowFor(f))
    requires path != [] && Execution(f, path, k, h, start) && k < |ActionsOf(f, path[|path| - 1])|
    requires var a := ActionsOf(f, path[|path| - 1])[k];
      a.handle == h != 0 && (a.kind == Observe || a.kind == Consume)
    ensures forall i: nat :: GivesUp(History(f, path, k), h, start, i) ==>
      exists m :: i < m < |History(f, path, k)| && Sets(History(f, path, k)[m], h)
    ensures GoesBackTo(History(f, path, k), h, start, Absent)
      || exists t :: Names(ActionsOf(f, path[|path| - 1])[k].expected, t)
           && GoesBackTo(History(f, path, k), h, start, t)
  {
    hide Accepted, EntryIsFresh, Execution, ActionsOf, GoesBackTo, GivesUp, Sets, History, CF.Edges, ActAll, Safe,
        OnSomePath, ControlFlowFor, Reachables;
    var b := path[|path| - 1];
    var a := ActionsOf(f, b)[k];
    var history := History(f, path, k);
    var t := ActAll(history, h, start);
    ExecutionIsOnPath(f, path, k, h, start);
    FreshUseIsSafe(f, order, incoming, outgoing, b, k);
    assert t == StateFor(a.expected) || t == Absent;
    assert start != Consumed by { hide *; ExecutionStart(f, path, k, h, start); }
    StateTellsHistory(history, h, start, t);
    KindNamesState(a.expected, t);
    forall i: nat | GivesUp(history, h, start, i)
      ensures exists m :: i < m < |history| && Sets(history[m], h)
    {
      assert !Untouched(history, h, i + 1);
    }
  }

  lemma ExecutionStart(f: Function, path: seq<BlockId>, k: nat, h: Identity, start: Token)
    requires path != [] && Execution(f, path, k, h, start)
    ensures start != Consumed
  {
    hide CF.Edges, ActionsOf;
    StartIsLive(f.initialHandles, h, start);
  }

  // ---------------------------------------------------------------------------
  // What every report means

  /** The kind of report for a use that expects a kind and finds the given states. */
  ghost predicate Disagrees(kind: IssueKind, expected: HandleKind, actual: StateMask) {
    match kind
    case PathStateMismatch =>
      (exists t :: t in actual && Names(expected, t)) && exists t :: t in actual && !Names(expected, t)
    case UseAfterConsume => Consumed in actual && forall t :: t in actual ==> !Names(expected, t)
    case HandleKindMismatch =>
      Consumed !in actual && (exists t :: t in actual && t != Absent) && forall t :: t in actual ==> !Names(expected, t)
    case _ => false
  }

  lemma VerdictDisagrees(expected: HandleKind, actual: StateMask, kind: IssueKind)
    requires actual != {}
    ensures Verdict(expected, actual) == Some(kind) <==> Disagrees(kind, expected, actual)
  {
    hide Verdict;
    VerdictMeaning(expected, actual);
    assert forall t :: Names(expected, t) <==> t == StateFor(expected);
    if kind != PathStateMismatch && kind != UseAfterConsume && kind != HandleKindMismatch {
      assert Verdict(expected, actual) != Some(kind) by { hide *; VerdictIsOneOfThree(expected, actual); }
    }
    if actual != {StateFor(expected)} && StateFor(expected) in actual {
      var t :| t in actual && t != StateFor(expected);
    }
    if actual != {Absent} && StateFor(expected) !in actual {
      var t :| t in actual && t != Absent;
    }
  }

  lemma VerdictIsOneOfThree(expected: HandleKind, actual: StateMask)
    ensures Verdict(expected, actual).Some? ==>
      Verdict(expected, actual).value in {PathStateMismatch, UseAfterConsume, HandleKindMismatch}
  {
  }

  /** The report concerns action k of its block: an action on no handle at all, or one that
      observes or consumes a handle in states that disagree with what it expects. */
  ghost predicate Concerns(f: Function, issue: Issue, k: nat) {
    && k < |ActionsOf(f, issue.block)|
    && var a := ActionsOf(f, issue.block)[k];
       && issue.instruction == a.instruction && issue.terminator == a.terminator
       && issue.handle == a.handle && issue.expected == a.expected
       && if a.handle == 0 then issue.kind == InvalidActionHandle && issue.actual == {Absent}
          else
            && (a.kind == Observe || a.kind == Consume)
            && (forall t :: t in issue.actual <==> MayHoldAt(f, issue.block, k, a.handle, t))
            && Disagrees(issue.kind, a.expected, issue.actual)
  }

  lemma ActionReportMeaning(f: Function, incoming: Facts<Held>, outgoing: Facts<Held>, issue: Issue, b: BlockId, k: nat)
    requires IsFlow(Ownership(f), incoming, outgoing) && b in Reachables(ControlFlowFor(f))
    requires k < |ActionsOf(f, b)|
    ensures issue in ActionIssues(b, ActionsOf(f, b)[k], ActAllOnFacts(ActionsOf(f, b)[..k], At(incoming, b)))
      <==> issue.block == b && Concerns(f, issue, k)
  {
    hide IsFlow, ActAllOnFacts, MayHoldAt, Handles, Reachables, At, ActionsOf, Verdict, Disagrees;
    var a := ActionsOf(f, b)[k];
    if a.handle != 0 {
      var mask := Mask(ActAllOnFacts(ActionsOf(f, b)[..k], At(incoming, b)), a.handle);
      ActionHandleIsKnown(f, b, k);
      forall t
        ensures t in mask <==> MayHoldAt(f, b, k, a.handle, t)
      {
        ActionMaskIsExact(f, incoming, outgoing, b, k, a.handle, t);
      }
      ActionMaskIsExact(f, incoming, outgoing, b, k, a.handle, Absent);
      VerdictDisagrees(a.expected, mask, issue.kind);
      if issue.block == b && Concerns(f, issue, k) {
        assert issue.actual == mask;
      }
    }
  }

  /** Every report about an action tells exactly what the paths bring to it. */
  lemma ReportMeaning(f: Function, order: seq<BlockId>, incoming: Facts<Held>, outgoing: Facts<Held>, issue: Issue)
    requires IsFlow(Ownership(f), incoming, outgoing) && Elements(order) == Reachables(ControlFlowFor(f))
    ensures issue in FlowIssues(f, order, incoming) <==>
      issue.block in Reachables(ControlFlowFor(f)) && exists k :: Concerns(f, issue, k)
  {
    hide IsFlow, FlowIssues, BlockIssues, ActionIssues, ActAllOnFacts, Reachables, At, ActionsOf, Concerns;
    FlowIssuesMeaning(f, order, incoming, issue);
    forall b | b in order
      ensures issue in BlockIssues(b, ActionsOf(f, b), At(incoming, b)) <==>
        issue.block == b && exists k :: Concerns(f, issue, k)
    {
      assert b in Elements(order);
      BlockReportMeaning(f, incoming, outgoing, issue, b);
    }
    assert issue.block in order <==> issue.block in Elements(order);
  }

  lemma BlockReportMeaning(f: Function, incoming: Facts<Held>, outgoing: Facts<Held>, issue: Issue, b: BlockId)
    requires IsFlow(Ownership(f), incoming, outgoing) && b in Reachables(ControlFlowFor(f))
    ensures issue in BlockIssues(b, ActionsOf(f, b), At(incoming, b)) <==>
      issue.block == b && exists k :: Concerns(f, issue, k)
  {
    hide IsFlow, BlockIssues, ActionIssues, ActAllOnFacts, Reachables, At, ActionsOf, Concerns;
    var actions := ActionsOf(f, b);
    BlockIssuesMeaning(b, actions, At(incoming, b), issue);
    forall k | 0 <= k < |actions|
      ensures issue in ActionIssues(b, actions[k], ActAllOnFacts(actions[..k], At(incoming, b)))
        <==> issue.block == b && Concerns(f, issue, k)
    {
      ActionReportMeaning(f, incoming, outgoing, issue, b, k);
    }
    if k: nat :| issue.block == b && Concerns(f, issue, k) {
      assert k < |actions| by { hide *; ConcernsAction(f, issue, k); }
    }
  }

  lemma ConcernsAction(f: Function, issue: Issue, k: nat)
    requires Concerns(f, issue, k)
    ensures k < |ActionsOf(f, issue.block)|
  {
  }

  /** What the history of a handle leaves it in. */
  ghost predicate EndsIn(history: seq<Action>, h: Identity, start: Token, t: Token) {
    if t == Consumed then GivenUp(history, h, start)
    else GoesBackTo(history, h, start, t) && !GivenUp(history, h, start)
  }

  /** A path to b that does not come back to the entry, on which the history of h leads to t. */
  ghost predicate Brings(f: Function, b: BlockId, k: nat, h: Identity, t: Token, path: seq<BlockId>, start: Token)
    requires k <= |ActionsOf(f, b)|
  {
    && path != [] && Tracks(ControlFlowFor(f), path) && path[0] == f.entry && path[|path| - 1] == b
    && Brought(f.initialHandles, h, start) && EndsIn(History(f, path, k), h, start, t)
  }

  /** The states a report is about are those the histories of the paths end in. */
  lemma StatesAreHistories(f: Function, b: BlockId, k: nat, h: Identity, t: Token)
    requires k <= |ActionsOf(f, b)|
    ensures MayHoldAt(f, b, k, h, t) <==> exists path, start :: Brings(f, b, k, h, t, path, start)
  {
    hide ActAll, ActionsOf, InitialMask, Brought, EndsIn, TokenAt, ControlFlowFor, Successors, CF.Reachable, Reachables;
    if MayHoldAt(f, b, k, h, t) {
      var u :| MayHold(f, b, h, u) && ActAll(ActionsOf(f, b)[..k], h, u) == t;
      var path: seq<BlockId> :| Tracks(ControlFlowFor(f), path) && path[0] == f.entry && path[|path| - 1] == b
          && Reached(f, path, h, u);
      var start :| start in InitialMask(f.initialHandles, h) && TokenAt(f, path, h, start) == u;
      HistoryEndsIn(f, path, k, h, start, t);
      assert Brings(f, b, k, h, t, path, start);
    }
    if path, start :| Brings(f, b, k, h, t, path, start) {
      HistoryEndsIn(f, path, k, h, start, t);
      var u := TokenAt(f, path, h, start);
      assert Reached(f, path, h, u);
      assert MayHold(f, b, h, u);
    }
  }

  lemma HistoryEndsIn(f: Function, path: seq<BlockId>, k: nat, h: Identity, start: Token, t: Token)
    requires path != [] && k <= |ActionsOf(f, path[|path| - 1])|
    ensures start in InitialMask(f.initialHandles, h) <==> Brought(f.initialHandles, h, start)
    ensures Brought(f.initialHandles, h, start) ==>
      (EndsIn(History(f, path, k), h, start, t) <==>
        ActAll(ActionsOf(f, path[|path| - 1])[..k], h, TokenAt(f, path, h, start)) == t)
  {
    hide ActAll, ActionsOf, InitialMask, Brought, GoesBackTo, GivenUp;
    InitialMaskIsBrought(f.initialHandles, h, start);
    if Brought(f.initialHandles, h, start) {
      StartIsLive(f.initialHandles, h, start);
      TokenIsPerformed(f, path, h, start);
      ActAllSplit(Performed(f, path), ActionsOf(f, path[|path| - 1])[..k], h, start);
      StateTellsHistory(History(f, path, k), h, start, t);
    }
  }

  // ---------------------------------------------------------------------------
  // Reports about the graph and the entry handles

  lemma {:induction false} LocatedMeaning(f: Function, issues: seq<CF.Issue>, issue: Issue)
    ensures issue in AllLocated(f, issues) <==> exists x :: x in issues && issue == Located(f, x)
  {
    hide Located;
    if issues != [] {
      var k := |issues| - 1;
      LocatedMeaning(f, issues[..k], issue);
      assert issues == issues[..k] + [issues[k]];
    }
  }

  /** Entry handle i has another kind than an entry handle of the same identity before it. */
  ghost predicate Conflicts(f: Function, i: nat, issue: Issue) {
    && i < |f.initialHandles|
    && issue == Issue(ConflictingInitialKind, f.entry, 0, false, f.initialHandles[i].handle,
         f.initialHandles[i].kind, issue.actual)
    && issue.handle != 0
    && (forall t :: t in issue.actual <==>
         exists j :: 0 <= j < i && f.initialHandles[j].handle == issue.handle && Names(f.initialHandles[j].kind, t))
    && exists j ::
         0 <= j < i && f.initialHandles[j].handle == issue.handle && f.initialHandles[j].kind != issue.expected
  }

  ghost predicate NoIdentity(f: Function, i: nat, issue: Issue) {
    && i < |f.initialHandles| && f.initialHandles[i].handle == 0
    && issue == Issue(InvalidInitialHandle, f.entry, 0, false, 0, f.initialHandles[i].kind, {Absent})
  }

  lemma GivenToPrefix(f: Function, i: nat, h: Identity, t: Token)
    requires i <= |f.initialHandles|
    ensures t in Given(f.initialHandles[..i], h) <==>
      exists j :: 0 <= j < i && f.initialHandles[j].handle == h && Names(f.initialHandles[j].kind, t)
  {
    var prefix := f.initialHandles[..i];
    GivenMeaning(prefix, h, t);
    assert forall j :: 0 <= j < i ==> prefix[j] == f.initialHandles[j];
  }

  lemma InitialIssueMeaning(f: Function, i: nat, issue: Issue)
    requires i < |f.initialHandles|
    ensures issue in InitialIssue(f, i) <==> NoIdentity(f, i, issue) || Conflicts(f, i, issue)
  {
    hide Given;
    var x := f.initialHandles[i];
    var given := Given(f.initialHandles[..i], x.handle);
    forall t
      ensures t in given <==>
        exists j :: 0 <= j < i && f.initialHandles[j].handle == x.handle && Names(f.initialHandles[j].kind, t)
    {
      GivenToPrefix(f, i, x.handle, t);
    }
    ConflictIsAnotherKind(f, i, given);
    assert Conflicts(f, i, issue) ==> issue.actual == given;
  }

  lemma ConflictIsAnotherKind(f: Function, i: nat, given: StateMask)
    requires i < |f.initialHandles|
    requires forall t :: t in given <==> exists j ::
      0 <= j < i && f.initialHandles[j].handle == f.initialHandles[i].handle && Names(f.initialHandles[j].kind, t)
    ensures given != {} && given != {Absent} && given != {StateFor(f.initialHandles[i].kind)} <==>
      exists j :: 0 <= j < i && f.initialHandles[j].handle == f.initialHandles[i].handle
        && f.initialHandles[j].kind != f.initialHandles[i].kind
    ensures Absent !in given
  {
    var e := StateFor(f.initialHandles[i].kind);
    var h, kind := f.initialHandles[i].handle, f.initialHandles[i].kind;
    if j :| 0 <= j < i && f.initialHandles[j].handle == h && f.initialHandles[j].kind != kind {
      var t := StateFor(f.initialHandles[j].kind);
      KindNamesState(f.initialHandles[j].kind, t);
      assert t in given && t != e;
    } else if given != {} {
      assert forall t :: t in given ==> t == e;
    }
  }

  lemma {:induction false} InitialIssuesMeaning(f: Function, n: nat, issue: Issue)
    requires n <= |f.initialHandles|
    ensures issue in InitialIssues(f, n) <==> exists i :: 0 <= i < n && issue in InitialIssue(f, i)
  {
    hide InitialIssue;
    if n > 0 {
      InitialIssuesMeaning(f, n - 1, issue);
    }
  }

  /** What every report about the function as a whole says. */
  ghost predicate Structural(f: Function, issue: Issue) {
    var ids := BlockIds(f);
    match issue.kind
    case DuplicateBlock =>
      && issue == Issue(DuplicateBlock, issue.block, 0, false, 0, StrongKind, {Absent})
      && exists i, j :: 0 <= i < j < |ids| && ids[i] == ids[j] == issue.block
    case MissingEntry =>
      issue == Issue(MissingEntry, f.entry, 0, false, 0, StrongKind, {Absent}) && f.entry !in ids
    case InvalidTarget =>
      && issue == Issue(InvalidTarget, issue.block, |ActionsOf(f, issue.block)|, true, 0, StrongKind, {Absent})
      && exists i :: 0 <= i < |ids| && ids[i] == issue.block && issue.block !in ids[..i] && HasUnknownTarget(f, i)
    case InvalidInitialHandle => exists i :: NoIdentity(f, i, issue)
    case ConflictingInitialKind => exists i :: Conflicts(f, i, issue)
    case _ => false
  }

  predicate HasUnknownTarget(f: Function, i: nat)
    requires i < |f.blocks|
  {
    exists t :: t in f.blocks[i].successors && t !in BlockIds(f)
  }

  lemma GraphIssueIsStructural(f: Function, x: CF.Issue)
    requires x in CF.Issues(ControlFlowFor(f))
    ensures Structural(f, Located(f, x))
  {
    hide CF.Issues, ActionsOf;
    var g, ids := ControlFlowFor(f), BlockIds(f);
    assert CF.Ids(g.blocks) == ids;
    CF.IssueMeaning(g, x);
    match x.kind
    case DuplicateBlock =>
      var j :| 0 <= j < |g.blocks| && g.blocks[j].id == x.block && x.block in ids[..j];
      var i :| 0 <= i < j && ids[i] == x.block;
      assert ids[j] == x.block;
    case MissingEntry =>
    case MissingTarget =>
      var i :| CF.IsFirst(g.blocks, i) && g.blocks[i].id == x.block && x.target in g.blocks[i].successors;
      assert ids[i] == x.block && HasUnknownTarget(f, i);
  }

  lemma StructuralIsGraphIssue(f: Function, issue: Issue) returns (x: CF.Issue)
    requires issue.kind in {DuplicateBlock, MissingEntry, InvalidTarget} && Structural(f, issue)
    ensures x in CF.Issues(ControlFlowFor(f)) && issue == Located(f, x)
  {
    hide CF.Issues, ActionsOf;
    var g, ids := ControlFlowFor(f), BlockIds(f);
    assert CF.Ids(g.blocks) == ids;
    match issue.kind
    case DuplicateBlock =>
      var i, j :| 0 <= i < j < |ids| && ids[i] == ids[j] == issue.block;
      assert ids[i] in ids[..j] && g.blocks[j].id == issue.block;
      x := CF.Issue(CF.DuplicateBlock, issue.block, 0);
      CF.IssueMeaning(g, x);
    case MissingEntry =>
      x := CF.Issue(CF.MissingEntry, f.entry, 0);
      CF.IssueMeaning(g, x);
    case InvalidTarget =>
      var i :| 0 <= i < |ids| && ids[i] == issue.block && issue.block !in ids[..i] && HasUnknownTarget(f, i);
      var t :| t in f.blocks[i].successors && t !in ids;
      assert CF.IsFirst(g.blocks, i) && g.blocks[i].id == issue.block;
      x := CF.Issue(CF.MissingTarget, issue.block, t);
      CF.IssueMeaning(g, x);
  }

  /** Every report about the graph and the entry handles names exactly the defect it stands for. */
  lemma StructuralReportMeaning(f: Function, issue: Issue)
    ensures issue in AllLocated(f, CF.Issues(ControlFlowFor(f))) + InitialIssues(f, |f.initialHandles|) <==>
      Structural(f, issue)
  {
    hide CF.Issues, AllLocated, InitialIssues, InitialIssue, ControlFlowFor, ActionsOf;
    var n := |f.initialHandles|;
    LocatedMeaning(f, CF.Issues(ControlFlowFor(f)), issue);
    InitialIssuesMeaning(f, n, issue);
    forall i | 0 <= i < n
      ensures issue in InitialIssue(f, i) <==> NoIdentity(f, i, issue) || Conflicts(f, i, issue)
    {
      InitialIssueMeaning(f, i, issue);
    }
    if x :| x in CF.Issues(ControlFlowFor(f)) && issue == Located(f, x) {
      GraphIssueIsStructural(f, x);
    }
    if issue.kind in {DuplicateBlock, MissingEntry, InvalidTarget} && Structural(f, issue) {
      var x := StructuralIsGraphIssue(f, issue);
    } else if i: nat :| NoIdentity(f, i, issue) || Conflicts(f, i, issue) {
      assert i < n;
    }
  }
}
