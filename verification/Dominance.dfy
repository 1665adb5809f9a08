/** The dominance analysis as a whole (Talac/Analysis/Dominance.cpp:466-630): dominators and
    post-dominators, frontiers, natural loops and irreducible regions of any graph, malformed
    ones included, and the queries other passes put to the result. */
module Dominance {
  import opened Graphs
  import opened Wrappers
  import opened DominanceTheory
  import opened DominanceSets
  import opened BackwardSearch
  import opened Components
  import opened Regions
  import opened ReachableGraph
  import CF = ControlFlow

  datatype BlockFacts = BlockFacts(
    block: BlockId,
    reachable: bool,
    immediateDominator: Option<BlockId>,
    immediatePostDominator: Option<BlockId>,
    dominators: seq<BlockId>,
    postDominators: seq<BlockId>,
    dominanceFrontier: seq<BlockId>,
    postDominanceFrontier: seq<BlockId>,
    loopHeaders: seq<BlockId>,
    loopDepth: nat)

  datatype Result = Result(
    controlFlow: CF.Result,
    facts: seq<BlockFacts>,
    naturalLoops: seq<NaturalLoop>,
    irreducibleRegions: seq<IrreducibleRegion>,
    exits: seq<BlockId>,
    hasPostDominance: bool)

  // ---------------------------------------------------------------------------
  // Dominance and post-dominance on paths of the graph

  /** Every path from the entry to b passes d. */
  ghost predicate OnEveryEntryPath(g: CF.Graph, d: BlockId, b: BlockId) {
    forall p :: PathBetween(CF.Edges(g), p, g.entry, b) ==> d in p
  }

  /** A reachable block without successors. */
  ghost predicate IsExit(g: CF.Graph, x: BlockId) {
    CF.Reachable(g, x) && Targets(CF.Edges(g), x) == []
  }

  ghost function Exits(g: CF.Graph): set<BlockId> {
    set x | x in Reachables(g) && IsExit(g, x)
  }

  ghost predicate ExitPath(g: CF.Graph, p: seq<BlockId>, b: BlockId) {
    IsPath(CF.Edges(g), p) && p[0] == b && IsExit(g, p[|p| - 1])
  }

  /** Every terminating path from b passes d. */
  ghost predicate OnEveryExitPath(g: CF.Graph, d: BlockId, b: BlockId) {
    forall p :: ExitPath(g, p, b) ==> d in p
  }

  ghost predicate ReachesExit(g: CF.Graph, b: BlockId) {
    exists p :: ExitPath(g, p, b)
  }

  ghost predicate Dominator(g: CF.Graph, d: BlockId, b: BlockId) {
    Dom(Predecessors(g), {g.entry}, d, b)
  }

  ghost predicate PostDominator(g: CF.Graph, d: BlockId, b: BlockId) {
    Dom(Successors(g), Exits(g), d, b)
  }

  lemma EntryPathIsRootPath(g: CF.Graph, p: seq<BlockId>, b: BlockId)
    requires g.entry in CF.IdSet(g)
    ensures RootPath(Predecessors(g), {g.entry}, p, b) <==> PathBetween(CF.Edges(g), p, g.entry, b)
  {
    if |p| > 0 && p[0] == g.entry {
      ReachesSelf(CF.Edges(g), g.entry);
      ReachablePartHasPaths(g, p);
      ReachablePartIsClosed(g);
      PathsAreFlows(Successors(g), Predecessors(g), p);
    }
  }

  /** The dominance of the flow graph is dominance on the paths of the graph. */
  lemma DominatorIsOnEveryPath(g: CF.Graph, d: BlockId, b: BlockId)
    requires CF.Reachable(g, b)
    ensures Dominator(g, d, b) <==> OnEveryEntryPath(g, d, b)
  {
    hide Predecessors, RootPath, PathBetween;
    forall p
      ensures RootPath(Predecessors(g), {g.entry}, p, b) <==> PathBetween(CF.Edges(g), p, g.entry, b)
    {
      EntryPathIsRootPath(g, p, b);
    }
  }

  lemma ReversedFlow(g: CF.Graph, p: seq<BlockId>, b: BlockId)
    requires CF.Reachable(g, b)
    ensures RootPath(Successors(g), Exits(g), p, b) <==> |p| > 0 && ExitPath(g, CF.Reverse(p), b)
  {
    if |p| > 0 {
      var q := CF.Reverse(p);
      assert FlowPath(Successors(g), p) <==> IsPath(Successors(g), q) by {
        ReverseFlowPath(Successors(g), p);
      }
      if q[0] == b {
        ReachablePartHasPaths(g, q);
      }
    }
  }

  lemma ReverseFlowPath(e: EdgeMap, p: seq<BlockId>)
    requires |p| > 0
    ensures FlowPath(e, p) <==> IsPath(e, CF.Reverse(p))
  {
    var q := CF.Reverse(p);
    if FlowPath(e, p) {
      forall i | 0 <= i < |q| - 1
        ensures Edge(e, q[i], q[i + 1])
      {
        assert Edge(e, p[|p| - 1 - i], p[|p| - 1 - i - 1]);
      }
    }
    if IsPath(e, q) {
      forall i | 0 < i < |p|
        ensures Edge(e, p[i], p[i - 1])
      {
        assert Edge(e, q[|p| - 1 - i], q[|p| - 1 - i + 1]);
      }
    }
  }

  /** Post-dominance of the reversed flow graph is post-dominance on terminating paths. */
  lemma PostDominatorIsOnEveryExitPath(g: CF.Graph, d: BlockId, b: BlockId)
    requires CF.Reachable(g, b)
    ensures PostDominator(g, d, b) <==> OnEveryExitPath(g, d, b)
  {
    hide Successors, Exits, RootPath, ExitPath;
    if PostDominator(g, d, b) {
      forall q: seq<BlockId> | ExitPath(g, q, b)
        ensures d in q
      {
        var p := CF.Reverse(q);
        assert CF.Reverse(p) == q;
        ExitPathNotEmpty(g, q, b);
        ReversedFlow(g, p, b);
        assert d in Elements(p);
      }
    }
    if OnEveryExitPath(g, d, b) {
      forall p: seq<BlockId> | RootPath(Successors(g), Exits(g), p, b)
        ensures d in p
      {
        ReversedFlow(g, p, b);
        assert d in Elements(CF.Reverse(p));
      }
    }
  }

  lemma ExitPathNotEmpty(g: CF.Graph, p: seq<BlockId>, b: BlockId)
    requires ExitPath(g, p, b)
    ensures |p| > 0
  {
  }

  lemma EntryFlowGraph(g: CF.Graph)
    requires g.entry in CF.IdSet(g)
    ensures FlowGraph(Reachables(g), {g.entry}, Predecessors(g))
  {
    ReachesSelf(CF.Edges(g), g.entry);
    ReachablePartIsClosed(g);
    hide Predecessors, FlowReachable, Reaches;
    forall n | n in Reachables(g)
      ensures FlowReachable(Predecessors(g), {g.entry}, n)
    {
      EntryReaches(g, n);
    }
  }

  lemma EntryReaches(g: CF.Graph, n: BlockId)
    requires CF.Reachable(g, n)
    ensures FlowReachable(Predecessors(g), {g.entry}, n)
  {
    var p :| PathBetween(CF.Edges(g), p, g.entry, n);
    EntryPathIsRootPath(g, p, n);
  }

  lemma ExitFlowGraph(g: CF.Graph)
    requires forall n :: n in Reachables(g) ==> ReachesExit(g, n)
    ensures FlowGraph(Reachables(g), Exits(g), Successors(g))
  {
    hide Successors, FlowReachable, ReachesExit, IsExit, CF.Reachable;
    ReachablePartIsClosed(g);
    forall n | n in Reachables(g)
      ensures FlowReachable(Successors(g), Exits(g), n)
    {
      ReachesExitBackwards(g, n);
    }
  }

  lemma ReachesExitBackwards(g: CF.Graph, n: BlockId)
    requires CF.Reachable(g, n)
    ensures ReachesExit(g, n) <==> FlowReachable(Successors(g), Exits(g), n)
  {
    hide Successors, RootPath, ExitPath;
    if ReachesExit(g, n) {
      var q :| ExitPath(g, q, n);
      ExitPathNotEmpty(g, q, n);
      var p := CF.Reverse(q);
      assert CF.Reverse(p) == q;
      ReversedFlow(g, p, n);
    }
    if FlowReachable(Successors(g), Exits(g), n) {
      var p :| RootPath(Successors(g), Exits(g), p, n);
      ReversedFlow(g, p, n);
    }
  }

  // ---------------------------------------------------------------------------
  // What the result says

  /** The forward half of a reachable block's facts. */
  ghost predicate ForwardFacts(g: CF.Graph, f: BlockFacts) {
    && Ascending(f.dominators)
    && (forall d :: d in Elements(f.dominators) <==> Dominator(g, d, f.block))
    && IsParent(Predecessors(g), {g.entry}, f.block, f.immediateDominator)
    && Ascending(f.dominanceFrontier)
    && (forall j :: j in Elements(f.dominanceFrontier) <==>
          CF.Reachable(g, j) && |Targets(Predecessors(g), j)| >= 2
              && InFrontier(Predecessors(g), {g.entry}, f.block, j))
  }

  /** The backward half, available only with post-dominance. */
  ghost predicate BackwardFacts(g: CF.Graph, f: BlockFacts) {
    && Ascending(f.postDominators)
    && (forall d :: d in Elements(f.postDominators) <==> PostDominator(g, d, f.block))
    && IsParent(Successors(g), Exits(g), f.block, f.immediatePostDominator)
    && Ascending(f.postDominanceFrontier)
    && (forall j :: j in Elements(f.postDominanceFrontier) <==>
          CF.Reachable(g, j) && |Targets(Successors(g), j)| >= 2 && InFrontier(Successors(g), Exits(g), f.block, j))
  }

  predicate NoForwardFacts(f: BlockFacts) {
    f.immediateDominator == None && f.dominators == [] && f.dominanceFrontier == []
  }

  predicate NoBackwardFacts(f: BlockFacts) {
    f.immediatePostDominator == None && f.postDominators == [] && f.postDominanceFrontier == []
  }

  ghost predicate StructuralFacts(g: CF.Graph, hasPost: bool, f: BlockFacts) {
    && (f.reachable <==> CF.Reachable(g, f.block))
    && (if f.reachable then ForwardFacts(g, f) else NoForwardFacts(f))
    && (if f.reachable && hasPost then BackwardFacts(g, f) else NoBackwardFacts(f))
  }

  /** The loops that contain a block. */
  function LoopsAround(loops: seq<NaturalLoop>, b: BlockId): set<NaturalLoop> {
    set l | l in loops && b in l.members
  }

  function HeadersAround(loops: seq<NaturalLoop>, b: BlockId): set<BlockId> {
    set l | l in LoopsAround(loops, b) :: l.header
  }

  /** Depth counts containing loops, one a back edge; headers name each header once. */
  predicate LoopFacts(loops: seq<NaturalLoop>, f: BlockFacts) {
    && f.loopDepth == |LoopsAround(loops, f.block)|
    && Ascending(f.loopHeaders)
    && Elements(f.loopHeaders) == HeadersAround(loops, f.block)
  }

  ghost predicate PostDominanceAvailable(g: CF.Graph) {
    Exits(g) != {} && forall n :: CF.Reachable(g, n) ==> ReachesExit(g, n)
  }

  ghost predicate FactsDescribe(g: CF.Graph, hasPost: bool, loops: seq<NaturalLoop>, flow: seq<CF.BlockFacts>,
      facts: seq<BlockFacts>) {
    && |facts| == |flow|
    && forall i :: 0 <= i < |facts| ==>
         facts[i].block == flow[i].block && StructuralFacts(g, hasPost, facts[i]) && LoopFacts(loops, facts[i])
  }

  ghost predicate Describes(g: CF.Graph, r: Result) {
    && CF.Describes(g, r.controlFlow)
    && Ascending(r.exits) && Elements(r.exits) == Exits(g)
    && (r.hasPostDominance <==> PostDominanceAvailable(g))
    && AreLoops(Reachables(g), g.entry, Successors(g), Predecessors(g), r.naturalLoops)
    && AreRegions(Reachables(g), Successors(g), Predecessors(g), r.irreducibleRegions)
    && FactsDescribe(g, r.hasPostDominance, r.naturalLoops, r.controlFlow.facts, r.facts)
  }

  // ---------------------------------------------------------------------------
  // Exits

  method FindExits(ghost g: CF.Graph, flow: CF.Result) returns (exits: seq<BlockId>)
    requires CF.FactsDescribe(g, flow.facts)
    ensures Ascending(exits) && Elements(exits) == Exits(g)
  {
    hide CF.FactDescribes, CF.Reachable, Exits, IsExit;
    FlowFactBlocks(g, flow.facts);
    exits := [];
    for i := 0 to |flow.facts|
      invariant Ascending(exits)
      invariant forall k :: 0 <= k < |exits| ==> i < |flow.facts| ==> exits[k] < flow.facts[i].block
      invariant forall k :: 0 <= k < |exits| ==> exits[k] in Exits(g)
      invariant forall j :: 0 <= j < i && flow.facts[j].block in Exits(g) ==> flow.facts[j].block in exits
    {
      var facts := flow.facts[i];
      ExitFact(g, facts);
      if facts.reachable && facts.successors == [] {
        exits := exits + [facts.block];
      }
    }
    forall x | x in Exits(g)
      ensures x in exits
    {
      ExitIsReachable(g, x);
      ReachableHasFact(g, flow.facts, x);
    }
  }

  lemma ExitIsReachable(g: CF.Graph, x: BlockId)
    requires x in Exits(g)
    ensures x in Reachables(g)
  {
  }

  lemma ExitFact(g: CF.Graph, f: CF.BlockFacts)
    requires CF.FactDescribes(g, f)
    ensures f.block in Exits(g) <==> f.reachable && f.successors == []
  {
    var t := CF.Edges(g)[f.block];
    assert f.successors == [] <==> t == [] by {
      if t != [] {
        assert t[0] in Elements(f.successors);
      }
      if f.successors != [] {
        assert f.successors[0] in Elements(f.successors);
      }
    }
  }

  // ---------------------------------------------------------------------------
  // Assembling the result

  /** The sets, parents and frontiers one direction of the analysis computes. */
  datatype Direction = Direction(sets: BlockSets, parents: ParentMap, frontiers: BlockSets)

  ghost predicate IsDirection(nodes: set<BlockId>, roots: set<BlockId>, incoming: EdgeMap, d: Direction) {
    && IsDominators(nodes, roots, incoming, d.sets)
    && AreParents(nodes, roots, incoming, d.parents)
    && AreFrontiers(nodes, roots, incoming, d.frontiers)
  }

  method Analyze(nodes: set<BlockId>, roots: seq<BlockId>, incoming: EdgeMap, visitOrder: seq<BlockId>)
      returns (d: Direction)
    requires FlowGraph(nodes, Elements(roots), incoming) && Elements(visitOrder) == nodes
    ensures IsDirection(nodes, Elements(roots), incoming, d)
  {
    hide FlowGraph, IsDominators, AreParents, AreFrontiers;
    var sets := ComputeDominatingSets(nodes, roots, incoming, visitOrder);
    var parents := ImmediateParents(nodes, roots, incoming, sets);
    var frontiers := ComputeFrontiers(nodes, Elements(roots), incoming, parents);
    d := Direction(sets, parents, frontiers);
  }

  lemma ForwardFactsFrom(g: CF.Graph, d: Direction, f: BlockFacts)
    requires IsDirection(Reachables(g), {g.entry}, Predecessors(g), d) && CF.Reachable(g, f.block)
    requires f.dominators == ToVector(d.sets[f.block]) && f.immediateDominator == d.parents[f.block]
    requires f.dominanceFrontier == ToVector(d.frontiers[f.block])
    ensures ForwardFacts(g, f)
  {
    hide Predecessors, ToVector, Elements, InFrontier, CF.Reachable;
  }

  lemma BackwardFactsFrom(g: CF.Graph, d: Direction, f: BlockFacts)
    requires IsDirection(Reachables(g), Exits(g), Successors(g), d) && CF.Reachable(g, f.block)
    requires f.postDominators == ToVector(d.sets[f.block]) && f.immediatePostDominator == d.parents[f.block]
    requires f.postDominanceFrontier == ToVector(d.frontiers[f.block])
    ensures BackwardFacts(g, f)
  {
    hide Successors, ToVector, Elements, InFrontier, CF.Reachable;
  }

  lemma DirectionKeys(nodes: set<BlockId>, roots: set<BlockId>, incoming: EdgeMap, d: Direction)
    requires IsDirection(nodes, roots, incoming, d)
    ensures d.sets.Keys == d.parents.Keys == d.frontiers.Keys == nodes
  {
  }

  /** The facts of one block, before the loops are added. */
  method BuildBlockFact(ghost g: CF.Graph, flow: CF.BlockFacts, forward: Direction, backward: Direction,
      hasPostDominance: bool)
    returns (facts: BlockFacts)
    requires CF.FactDescribes(g, flow)
    requires flow.reachable ==> IsDirection(Reachables(g), {g.entry}, Predecessors(g), forward)
    requires flow.reachable && hasPostDominance ==> IsDirection(Reachables(g), Exits(g), Successors(g), backward)
    ensures facts.block == flow.block && StructuralFacts(g, hasPostDominance, facts)
    ensures facts.loopDepth == 0 && facts.loopHeaders == []
  {
    hide IsDirection, ForwardFacts, BackwardFacts, CF.Reachable, Successors, Predecessors, Exits;
    facts := BlockFacts(flow.block, flow.reachable, None, None, [], [], [], [], [], 0);
    if flow.reachable {
      var b := flow.block;
      DirectionKeys(Reachables(g), {g.entry}, Predecessors(g), forward);
      facts := facts.(immediateDominator := forward.parents[b],
                      dominators := ToVector(forward.sets[b]),
                      dominanceFrontier := ToVector(forward.frontiers[b]));
      if hasPostDominance {
        DirectionKeys(Reachables(g), Exits(g), Successors(g), backward);
        facts := facts.(immediatePostDominator := backward.parents[b],
                        postDominators := ToVector(backward.sets[b]),
                        postDominanceFrontier := ToVector(backward.frontiers[b]));
        BackwardFactsFrom(g, backward, facts);
      }
      ForwardFactsFrom(g, forward, facts);
    }
  }

  /** Count the containing loops and collect their headers. */
  method AddLoopFact(loops: seq<NaturalLoop>, before: BlockFacts) returns (facts: BlockFacts)
    requires LoopsSorted(loops) && before.loopDepth == 0 && before.loopHeaders == []
    ensures LoopFacts(loops, facts)
    ensures facts == before.(loopDepth := facts.loopDepth, loopHeaders := facts.loopHeaders)
  {
    hide LoopsAround, LoopsSorted, Elements, HeadersAround;
    var b := before.block;
    var depth: nat := 0;
    var headers: seq<BlockId> := [];
    NoLoopsAround(loops, b);
    NoElements();
    for i := 0 to |loops|
      invariant depth == |LoopsAround(loops[..i], b)|
      invariant Elements(headers) == HeadersAround(loops[..i], b)
    {
      LoopsAroundGrows(loops, i, b);
      HeadersAroundGrow(loops, i, b);
      if b in loops[i].members {
        depth := depth + 1;
        ElementsAppend(headers, loops[i].header);
        headers := headers + [loops[i].header];
      }
    }
    assert loops[..|loops|] == loops;
    facts := before.(loopDepth := depth, loopHeaders := SortUnique(headers));
  }

  lemma ElementsAppend(s: seq<BlockId>, x: BlockId)
    ensures Elements(s + [x]) == Elements(s) + {x}
  {
  }

  lemma NoLoopsAround(loops: seq<NaturalLoop>, b: BlockId)
    ensures LoopsAround(loops[..0], b) == {} && HeadersAround(loops[..0], b) == {}
  {
  }

  lemma NoElements()
    ensures var none: seq<BlockId> := []; Elements(none) == {}
  {
  }

  lemma HeadersAroundGrow(loops: seq<NaturalLoop>, i: nat, b: BlockId)
    requires i < |loops|
    requires LoopsAround(loops[..i + 1], b) == LoopsAround(loops[..i], b)
      + (if b in loops[i].members then {loops[i]} else {})
    ensures HeadersAround(loops[..i + 1], b)
         == HeadersAround(loops[..i], b) + (if b in loops[i].members then {loops[i].header} else {})
  {
    hide LoopsAround;
  }

  lemma LoopsAroundGrows(loops: seq<NaturalLoop>, i: nat, b: BlockId)
    requires i < |loops| && LoopsSorted(loops)
    ensures LoopsAround(loops[..i + 1], b) == LoopsAround(loops[..i], b)
      + (if b in loops[i].members then {loops[i]} else {})
    ensures loops[i] !in LoopsAround(loops[..i], b)
  {
    assert loops[..i + 1] == loops[..i] + [loops[i]];
    assert forall j :: 0 <= j < i ==> LoopBefore(loops[j], loops[i]);
  }

  method BuildBlockFacts(ghost g: CF.Graph, flow: CF.Result, forward: Direction, backward: Direction,
      hasPostDominance: bool,
                         loops: seq<NaturalLoop>) returns (result: seq<BlockFacts>)
    requires CF.FactsDescribe(g, flow.facts) && LoopsSorted(loops)
    requires Reachables(g) != {} ==> IsDirection(Reachables(g), {g.entry}, Predecessors(g), forward)
    requires Reachables(g) != {} && hasPostDominance ==> IsDirection(Reachables(g), Exits(g), Successors(g), backward)
    ensures FactsDescribe(g, hasPostDominance, loops, flow.facts, result)
  {
    hide IsDirection, CF.FactDescribes, StructuralFacts, LoopFacts, LoopsSorted, Successors, Predecessors, Exits;
    result := [];
    for i := 0 to |flow.facts|
      invariant |result| == i
      invariant forall j :: 0 <= j < i ==>
        result[j].block == flow.facts[j].block && StructuralFacts(g, hasPostDominance, result[j])
            && LoopFacts(loops, result[j])
    {
      ReachableNotEmpty(g, flow.facts[i]);
      var facts := BuildBlockFact(g, flow.facts[i], forward, backward, hasPostDominance);
      var complete := AddLoopFact(loops, facts);
      LoopFactsKeepStructure(g, hasPostDominance, facts, complete);
      result := result + [complete];
    }
  }

  lemma ReachableNotEmpty(g: CF.Graph, f: CF.BlockFacts)
    requires CF.FactDescribes(g, f)
    ensures f.reachable ==> Reachables(g) != {}
  {
    if f.reachable {
      assert f.block in Reachables(g);
    }
  }

  lemma LoopFactsKeepStructure(g: CF.Graph, hasPost: bool, before: BlockFacts, after: BlockFacts)
    requires StructuralFacts(g, hasPost, before)
    requires after == before.(loopDepth := after.loopDepth, loopHeaders := after.loopHeaders)
    ensures StructuralFacts(g, hasPost, after)
  {
    hide IsParent, InFrontier, Dominator, PostDominator, Elements, Ascending, CF.Reachable;
  }

  lemma PostDominanceMeans(g: CF.Graph, all: bool, exits: seq<BlockId>)
    requires Elements(exits) == Exits(g)
    requires all <==> exits != [] && forall n :: n in Reachables(g) ==> ReachesOneOf(Successors(g), n, exits)
    ensures all <==> PostDominanceAvailable(g)
  {
    hide ReachesOneOf, ReachesExit, Successors, Exits, CF.Reachable;
    forall n | n in Reachables(g)
      ensures ReachesOneOf(Successors(g), n, exits) <==> ReachesExit(g, n)
    {
      ReachesOneExit(g, n, exits);
    }
    if exits != [] {
      assert exits[0] in Elements(exits);
    }
  }

  lemma ReachesOneExit(g: CF.Graph, n: BlockId, exits: seq<BlockId>)
    requires Elements(exits) == Exits(g) && CF.Reachable(g, n)
    ensures ReachesOneOf(Successors(g), n, exits) <==> ReachesExit(g, n)
  {
    hide Successors, CF.Edges, IsPath;
    if ReachesOneOf(Successors(g), n, exits) {
      var x: BlockId :| x in exits && Reaches(Successors(g), n, x);
      assert x in Elements(exits);
      var p :| PathBetween(Successors(g), p, n, x);
      PathNotEmpty(Successors(g), p);
      ReachablePartHasPaths(g, p);
      assert ExitPath(g, p, n);
    }
    if ReachesExit(g, n) {
      var p :| ExitPath(g, p, n);
      PathNotEmpty(CF.Edges(g), p);
      ReachablePartHasPaths(g, p);
      var x := p[|p| - 1];
      assert PathBetween(Successors(g), p, n, x);
      assert x in Elements(exits);
      assert x in exits && Reaches(Successors(g), n, x);
    }
  }

  lemma PathNotEmpty(e: EdgeMap, p: seq<BlockId>)
    requires IsPath(e, p)
    ensures |p| > 0
  {
  }

  lemma NothingReachable(g: CF.Graph)
    requires Reachables(g) == {}
    ensures Exits(g) == {} && !PostDominanceAvailable(g)
    ensures AreLoops(Reachables(g), g.entry, Successors(g), Predecessors(g), [])
    ensures AreRegions(Reachables(g), Successors(g), Predecessors(g), [])
  {
  }

  lemma SomethingReachable(g: CF.Graph)
    requires Reachables(g) != {}
    ensures g.entry in CF.IdSet(g)
  {
    var b :| b in Reachables(g);
  }

  method AnalyzeDominance(g: CF.Graph) returns (result: Result)
    ensures Describes(g, result)
  {
    hide CF.OrdersDescribe, CF.FactsDescribe, FactsDescribe, IsDirection, AreLoops, AreRegions, CF.Reachable, Reaches,
         FlowGraph, Converse, ClosedUnder, PostDominanceAvailable, IsDominators, ReachesOneOf, Successors,
             Predecessors, Exits;
    var flow := CF.AnalyzeControlFlow(g);
    var nodes := Elements(flow.preorder);
    PreorderIsReachables(g, flow);
    var successors := ReachableEdges(g, flow, false);
    var predecessors := ReachableEdges(g, flow, true);
    var none := Direction(map[], map[], map[]);
    if nodes == {} {
      NothingReachable(g);
      var facts := BuildBlockFacts(g, flow, none, none, false, []);
      return Result(flow, facts, [], [], [], false);
    }
    SomethingReachable(g);
    EntryFlowGraph(g);
    ReachablePartIsClosed(g);
    SingletonElements(g.entry);
    var forward := Analyze(nodes, [g.entry], predecessors, flow.reversePostorder);
    DirectionDominators(nodes, {g.entry}, predecessors, forward);
    var exits := FindExits(g, flow);
    ExitsAreReachable(g, exits);
    var available := EveryReachableBlockCanReachAnExit(nodes, exits, successors, predecessors);
    PostDominanceMeans(g, available, exits);
    var backward := none;
    if available {
      AvailableFlowGraph(g);
      backward := Analyze(nodes, exits, successors, CF.Reverse(flow.reversePostorder));
    }
    var loops := FindNaturalLoops(nodes, g.entry, successors, predecessors, forward.sets);
    LoopsAreSorted(nodes, g.entry, successors, predecessors, loops);
    var regions := FindIrreducibleRegions(nodes, g.entry, successors, predecessors, forward.sets);
    var facts := BuildBlockFacts(g, flow, forward, backward, available, loops);
    result := Result(flow, facts, loops, regions, exits, available);
  }

  lemma PreorderIsReachables(g: CF.Graph, flow: CF.Result)
    requires CF.Describes(g, flow)
    ensures Elements(flow.preorder) == Reachables(g) == Elements(flow.reversePostorder)
    ensures ReachablePart(g, false) == Successors(g) && ReachablePart(g, true) == Predecessors(g)
    ensures LoopsSorted([])
  {
  }

  lemma SingletonElements(b: BlockId)
    ensures Elements([b]) == {b}
  {
  }

  lemma DirectionDominators(nodes: set<BlockId>, roots: set<BlockId>, incoming: EdgeMap, d: Direction)
    requires IsDirection(nodes, roots, incoming, d)
    ensures IsDominators(nodes, roots, incoming, d.sets)
  {
  }

  lemma ExitsAreReachable(g: CF.Graph, exits: seq<BlockId>)
    requires Elements(exits) == Exits(g)
    ensures forall x :: x in exits ==> x in Reachables(g)
    ensures forall a, b :: b in Reachables(g) && Edge(Successors(g), a, b) ==> a in Reachables(g)
  {
    assert forall x :: x in exits ==> x in Elements(exits);
    forall a, b | Edge(Successors(g), a, b)
      ensures a in Reachables(g)
    {
      SuccessorEdge(g, a, b);
    }
  }

  lemma AvailableFlowGraph(g: CF.Graph)
    requires PostDominanceAvailable(g)
    ensures FlowGraph(Reachables(g), Exits(g), Successors(g))
  {
    ExitFlowGraph(g);
  }

  lemma LoopsAreSorted(nodes: set<BlockId>, entry: BlockId, successors: EdgeMap, predecessors: EdgeMap,
      loops: seq<NaturalLoop>)
    requires AreLoops(nodes, entry, successors, predecessors, loops)
    ensures LoopsSorted(loops)
  {
  }

  // ---------------------------------------------------------------------------
  // Queries

  /** The record of a block, if there is one. */
  function FactsFor(r: Result, block: BlockId): (o: Option<BlockFacts>)
    ensures o.Some? ==> o.value in r.facts && o.value.block == block
    ensures o == None ==> forall f :: f in r.facts ==> f.block != block
  {
    FindFacts(r.facts, block)
  }

  function FindFacts(facts: seq<BlockFacts>, block: BlockId): (o: Option<BlockFacts>)
    ensures o.Some? ==> o.value in facts && o.value.block == block
    ensures o == None ==> forall f :: f in facts ==> f.block != block
  {
    if facts == [] then None
    else if facts[0].block == block then Some(facts[0])
    else
      assert facts == [facts[0]] + facts[1..];
      FindFacts(facts[1..], block)
  }

  predicate Dominates(r: Result, dominator: BlockId, block: BlockId) {
    var facts := FactsFor(r, block);
    facts.Some? && facts.value.reachable && dominator in facts.value.dominators
  }

  predicate StrictlyDominates(r: Result, dominator: BlockId, block: BlockId) {
    dominator != block && Dominates(r, dominator, block)
  }

  predicate PostDominates(r: Result, postDominator: BlockId, block: BlockId) {
    var facts := FactsFor(r, block);
    r.hasPostDominance && facts.Some? && facts.value.reachable && postDominator in facts.value.postDominators
  }

  predicate StrictlyPostDominates(r: Result, postDominator: BlockId, block: BlockId) {
    postDominator != block && PostDominates(r, postDominator, block)
  }

  /** Every reachable block has a record, and records tell reachability. */
  lemma RecordOf(g: CF.Graph, r: Result, block: BlockId)
    requires Describes(g, r)
    ensures CF.Reachable(g, block) ==> FactsFor(r, block).Some?
    ensures FactsFor(r, block).Some? ==>
      var f := FactsFor(r, block).value;
      f.block == block && StructuralFacts(g, r.hasPostDominance, f)
  {
    hide CF.Reachable, AreLoops, AreRegions, StructuralFacts, LoopFacts, CF.OrdersDescribe, PostDominanceAvailable;
    if CF.Reachable(g, block) {
      ReachableHasFact(g, r.controlFlow.facts, block);
      var i :| 0 <= i < |r.controlFlow.facts| && r.controlFlow.facts[i].block == block;
      assert r.facts[i].block == block && r.facts[i] in r.facts;
    }
    if FactsFor(r, block).Some? {
      var f := FactsFor(r, block).value;
      var i :| 0 <= i < |r.facts| && r.facts[i] == f;
    }
  }

  lemma RecordedDominators(g: CF.Graph, hasPost: bool, f: BlockFacts, d: BlockId)
    requires StructuralFacts(g, hasPost, f)
    ensures f.reachable <==> CF.Reachable(g, f.block)
    ensures f.reachable ==> (d in f.dominators <==> Dominator(g, d, f.block))
    ensures f.reachable && hasPost ==> (d in f.postDominators <==> PostDominator(g, d, f.block))
  {
    hide CF.Reachable, IsParent, InFrontier, Dominator, PostDominator;
    assert d in f.dominators <==> d in Elements(f.dominators);
    assert d in f.postDominators <==> d in Elements(f.postDominators);
  }

  /** The dominance query is path dominance: the block is reachable and every path from the
      entry to it passes the dominator. */
  lemma DominatesIsPathDominance(g: CF.Graph, r: Result, d: BlockId, b: BlockId)
    requires Describes(g, r)
    ensures Dominates(r, d, b) <==> CF.Reachable(g, b) && OnEveryEntryPath(g, d, b)
  {
    hide CF.Reachable, Describes, StructuralFacts, Dominator, PostDominator, OnEveryEntryPath, FactsFor;
    RecordOf(g, r, b);
    if CF.Reachable(g, b) {
      DominatorIsOnEveryPath(g, d, b);
    }
    if FactsFor(r, b).Some? {
      RecordedDominators(g, r.hasPostDominance, FactsFor(r, b).value, d);
    }
  }

  /** The post-dominance query is path post-dominance where it is available, and false
      everywhere else. */
  lemma PostDominatesIsPathPostDominance(g: CF.Graph, r: Result, d: BlockId, b: BlockId)
    requires Describes(g, r)
    ensures PostDominates(r, d, b) <==> PostDominanceAvailable(g) && CF.Reachable(g, b) && OnEveryExitPath(g, d, b)
  {
    hide CF.Reachable, Describes, StructuralFacts, PostDominator, OnEveryExitPath, PostDominanceAvailable, FactsFor,
        Dominator;
    Availability(g, r);
    RecordOf(g, r, b);
    if CF.Reachable(g, b) {
      PostDominatorIsOnEveryExitPath(g, d, b);
    }
    if FactsFor(r, b).Some? {
      RecordedDominators(g, r.hasPostDominance, FactsFor(r, b).value, d);
    }
  }

  lemma Availability(g: CF.Graph, r: Result)
    requires Describes(g, r)
    ensures r.hasPostDominance <==> PostDominanceAvailable(g)
  {
    hide PostDominanceAvailable;
  }

  /** The strict queries leave out the block itself and nothing else. */
  lemma StrictQueriesArePathQueries(g: CF.Graph, r: Result, d: BlockId, b: BlockId)
    requires Describes(g, r)
    ensures StrictlyDominates(r, d, b) <==> d != b && CF.Reachable(g, b) && OnEveryEntryPath(g, d, b)
    ensures StrictlyPostDominates(r, d, b)
       <==> d != b && PostDominanceAvailable(g) && CF.Reachable(g, b) && OnEveryExitPath(g, d, b)
  {
    hide CF.Reachable, Describes, Dominates, PostDominates, OnEveryEntryPath, OnEveryExitPath, PostDominanceAvailable;
    DominatesIsPathDominance(g, r, d, b);
    PostDominatesIsPathPostDominance(g, r, d, b);
  }
}
