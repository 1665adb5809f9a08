/** Edge-sensitive control dependence derived from post-dominance
    (Talac/Analysis/ControlDependence.cpp), proved exact against its definition on terminating
    paths. */
module ControlDependence {
  import opened Graphs
  import opened Wrappers
  import opened DominanceTheory
  import opened DominanceSets
  import opened Regions
  import opened ReachableGraph
  import opened Dominance
  import CF = ControlFlow

  datatype DependenceEdge = DependenceEdge(controller: BlockId, successor: BlockId, dependent: BlockId)

  datatype DependenceFacts = DependenceFacts(block: BlockId, controllers: seq<BlockId>, dependents: seq<BlockId>)

  datatype DependenceResult = DependenceResult(
    structure: Result,
    edges: seq<DependenceEdge>,
    facts: seq<DependenceFacts>,
    available: bool)

  // ---------------------------------------------------------------------------
  // What control dependence means

  /** The dependent executes on every terminating path through the successor, but not on every
      terminating path that continues from the controller. */
  ghost predicate ControlDepends(g: CF.Graph, e: DependenceEdge) {
    && CF.Reachable(g, e.controller)
    && Edge(CF.Edges(g), e.controller, e.successor)
    && OnEveryExitPath(g, e.dependent, e.successor)
    && !(e.dependent != e.controller && OnEveryExitPath(g, e.dependent, e.controller))
  }

  /** The same over the reversed flow graph the analysis works on. */
  ghost predicate Depends(g: CF.Graph, controller: BlockId, successor: BlockId, dependent: BlockId) {
    Escapes(Successors(g), Exits(g), dependent, controller, successor)
  }

  lemma DependsMeans(g: CF.Graph, e: DependenceEdge)
    ensures Depends(g, e.controller, e.successor, e.dependent) <==> ControlDepends(g, e)
  {
    SuccessorEdge(g, e.controller, e.successor);
    if CF.Reachable(g, e.controller) && Edge(CF.Edges(g), e.controller, e.successor) {
      ReachesThenEdge(CF.Edges(g), g.entry, e.controller, e.successor);
      PostDominatorIsOnEveryExitPath(g, e.dependent, e.successor);
      PostDominatorIsOnEveryExitPath(g, e.dependent, e.controller);
    }
  }

  /** A post-dominating successor other than the controller contributes nothing. */
  lemma PostDominatingSuccessor(g: CF.Graph, a: BlockId, s: BlockId, d: BlockId)
    requires FlowGraph(Reachables(g), Exits(g), Successors(g)) && CF.Reachable(g, a)
    requires s != a && PostDominator(g, s, a)
    ensures !Depends(g, a, s, d)
  {
    if Depends(g, a, s, d) {
      DomTransitive(Successors(g), Exits(g), d, s, a);
      assert d == a;
      assert FlowReachable(Successors(g), Exits(g), a);
      DomAntisymmetric(Successors(g), Exits(g), s, a);
    }
  }

  /** The only successor of a block post-dominates it. */
  lemma SoleSuccessorPostDominates(g: CF.Graph, a: BlockId, s: BlockId)
    requires Targets(Successors(g), a) == [s]
    ensures PostDominator(g, s, a)
  {
    assert Edge(Successors(g), a, s);
    SuccessorEdge(g, a, s);
    assert a !in Exits(g);
    forall m | Edge(Successors(g), a, m)
      ensures Dom(Successors(g), Exits(g), s, m)
    {
      assert m == s;
      DomSelf(Successors(g), Exits(g), s);
    }
    DomFromIncoming(Successors(g), Exits(g), s, a);
  }

  // ---------------------------------------------------------------------------
  // The walk

  lemma ParentRecorded(g: CF.Graph, r: Result, b: BlockId)
    requires Describes(g, r) && r.hasPostDominance && CF.Reachable(g, b)
    ensures FactsFor(r, b).Some?
    ensures IsParent(Successors(g), Exits(g), b, FactsFor(r, b).value.immediatePostDominator)
  {
    hide Describes, IsParent, InFrontier, Dominator, PostDominator, CF.Reachable, ForwardFacts;
    RecordOf(g, r, b);
  }

  /** From the successor up the immediate post-dominators to that of the controller. */
  method PostDominatorChain(ghost g: CF.Graph, structure: Result, ghost controller: BlockId, start: BlockId,
      stop: Option<BlockId>)
    returns (result: seq<BlockId>)
    requires Describes(g, structure) && structure.hasPostDominance
    requires FlowGraph(Reachables(g), Exits(g), Successors(g))
    requires CF.Reachable(g, controller) && Edge(Successors(g), controller, start)
    requires IsParent(Successors(g), Exits(g), controller, stop)
    ensures Distinct(result)
    ensures forall d :: d in result <==> Depends(g, controller, start, d)
  {
    hide Describes, FlowGraph, Dom, Runner, IsParent, Escapes, Edge, Successors, Exits, CF.Reachable;
    ghost var nodes, roots, incoming := Reachables(g), Exits(g), Successors(g);
    result := [];
    var visited: set<BlockId> := {};
    var current := Some(start);
    RunnerStarts(nodes, roots, incoming, controller, start);
    RunnerIsNode(nodes, roots, incoming, controller, start, current, visited);
    while current.Some? && current != stop && current.value !in visited
      invariant Runner(nodes, roots, incoming, controller, start, current, visited)
      invariant current.Some? ==> current.value in nodes && current.value !in visited
      invariant visited <= nodes && visited == Elements(result) && Distinct(result)
      decreases nodes - visited
    {
      var b := current.value;
      ParentRecorded(g, structure, b);
      var above := FactsFor(structure, b).value.immediatePostDominator;
      RunnerSteps(nodes, roots, incoming, controller, start, b, visited, stop, above);
      assert b !in result by {
        assert b in result <==> b in Elements(result);
      }
      visited := visited + {b};
      ElementsAppend(result, b);
      result := result + [b];
      current := above;
      RunnerIsNode(nodes, roots, incoming, controller, start, current, visited);
    }
    RunnerStops(nodes, roots, incoming, controller, start, current, visited, stop);
    assert forall d :: d in result <==> d in Elements(result);
  }

  // ---------------------------------------------------------------------------
  // The edge list

  predicate EdgeBefore(a: DependenceEdge, b: DependenceEdge) {
    || a.controller < b.controller
    || (a.controller == b.controller && a.successor < b.successor)
    || (a.controller == b.controller && a.successor == b.successor && a.dependent < b.dependent)
  }

  predicate EdgesSorted(s: seq<DependenceEdge>) {
    forall i, j :: 0 <= i < j < |s| ==> EdgeBefore(s[i], s[j])
  }

  lemma EdgesTail(s: seq<DependenceEdge>)
    requires EdgesSorted(s) && s != []
    ensures forall x :: x in s[1..] ==> EdgeBefore(s[0], x)
  {
    forall x | x in s[1..]
      ensures EdgeBefore(s[0], x)
    {
      var j :| 0 <= j < |s[1..]| && s[1..][j] == x;
      assert s[j + 1] == x;
    }
  }

  function InsertEdge(s: seq<DependenceEdge>, e: DependenceEdge): (r: seq<DependenceEdge>)
    requires EdgesSorted(s)
    ensures EdgesSorted(r)
    ensures forall x :: x in r <==> x in s || x == e
  {
    if s == [] then [e]
    else if EdgeBefore(e, s[0]) then [e] + s
    else if e == s[0] then s
    else
      var rest := InsertEdge(s[1..], e);
      assert s == [s[0]] + s[1..];
      EdgesTail(s);
      assert forall x :: x in rest ==> EdgeBefore(s[0], x);
      [s[0]] + rest
  }

  /** Sorting by (controller, successor, dependent) and dropping equal neighbours. */
  function SortEdges(s: seq<DependenceEdge>): (r: seq<DependenceEdge>)
    ensures EdgesSorted(r)
    ensures forall x :: x in r <==> x in s
  {
    if s == [] then [] else
      var k := |s| - 1;
      assert s == s[..k] + [s[k]];
      InsertEdge(SortEdges(s[..k]), s[k])
  }

  /** Membership of the edges of one controller through the successors looked at so far. */
  ghost predicate EdgesUpTo(g: CF.Graph, edges: seq<DependenceEdge>, before: seq<DependenceEdge>,
      controller: BlockId, targets: seq<BlockId>) {
    forall e :: e in edges <==>
      e in before || (e.controller == controller && e.successor in targets && e.successor != controller
                      && Depends(g, controller, e.successor, e.dependent))
  }

  function ChainEdges(controller: BlockId, successor: BlockId, chain: seq<BlockId>): (r: seq<DependenceEdge>)
    ensures forall e :: e in r <==> e.controller == controller && e.successor == successor && e.dependent in chain
  {
    if chain == [] then [] else
      assert chain == [chain[0]] + chain[1..];
      [DependenceEdge(controller, successor, chain[0])] + ChainEdges(controller, successor, chain[1..])
  }

  /** The edges one branch contributes. */
  method EdgesOf(ghost g: CF.Graph, structure: Result, controller: CF.BlockFacts, before: seq<DependenceEdge>)
    returns (edges: seq<DependenceEdge>)
    requires Describes(g, structure) && structure.hasPostDominance
    requires CF.FactDescribes(g, controller) && controller.reachable
    ensures EdgesUpTo(g, edges, before, controller.block, controller.successors)
  {
    hide Describes, CF.FactDescribes, CF.Reachable, IsParent, Depends, EdgesUpTo, FlowGraph, PostDominator,
        Successors, Exits;
    var a := controller.block;
    ControllerMeans(g, structure, controller);
    edges := before;
    assert controller.successors[..0] == [];
    NoEdgesYet(g, before, a);
    if |controller.successors| < 2 {
      SoleSuccessorGivesNothing(g, controller, before);
      return;
    }
    var facts := FactsFor(structure, a);
    for k := 0 to |controller.successors|
      invariant EdgesUpTo(g, edges, before, a, controller.successors[..k])
    {
      var successor := controller.successors[k];
      assert Edge(Successors(g), a, successor);
      assert controller.successors[..k + 1] == controller.successors[..k] + [successor];
      QueryMeans(g, structure, successor, a);
      if PostDominates(structure, successor, a) {
        EdgesSkip(g, edges, before, a, controller.successors[..k], successor);
      } else {
        var chain := PostDominatorChain(g, structure, a, successor, facts.value.immediatePostDominator);
        EdgesGrow(g, edges, before, a, controller.successors[..k], successor, chain);
        edges := edges + ChainEdges(a, successor, chain);
      }
    }
    assert controller.successors[..|controller.successors|] == controller.successors;
  }

  lemma QueryMeans(g: CF.Graph, r: Result, s: BlockId, a: BlockId)
    requires Describes(g, r) && r.hasPostDominance && CF.Reachable(g, a)
    ensures PostDominates(r, s, a) <==> PostDominator(g, s, a)
  {
    hide CF.Reachable, Describes, StructuralFacts, PostDominator;
    RecordOf(g, r, a);
    RecordedDominators(g, r.hasPostDominance, FactsFor(r, a).value, s);
  }

  lemma ControllerMeans(g: CF.Graph, r: Result, f: CF.BlockFacts)
    requires Describes(g, r) && r.hasPostDominance
    requires CF.FactDescribes(g, f) && f.reachable
    ensures CF.Reachable(g, f.block)
    ensures FlowGraph(Reachables(g), Exits(g), Successors(g))
    ensures Targets(Successors(g), f.block) == f.successors
    ensures FactsFor(r, f.block).Some?
    ensures IsParent(Successors(g), Exits(g), f.block, FactsFor(r, f.block).value.immediatePostDominator)
  {
    FlowFactEdges(g, f);
    AvailableFlowGraph(g);
    ParentRecorded(g, r, f.block);
  }

  lemma NoEdgesYet(g: CF.Graph, before: seq<DependenceEdge>, a: BlockId)
    ensures EdgesUpTo(g, before, before, a, [])
  {
  }

  lemma EdgesSkip(g: CF.Graph, edges: seq<DependenceEdge>, before: seq<DependenceEdge>, a: BlockId,
      targets: seq<BlockId>, s: BlockId)
    requires EdgesUpTo(g, edges, before, a, targets)
    requires FlowGraph(Reachables(g), Exits(g), Successors(g)) && CF.Reachable(g, a) && PostDominator(g, s, a)
    ensures EdgesUpTo(g, edges, before, a, targets + [s])
  {
    hide FlowGraph, CF.Reachable, PostDominator, Depends;
    if s != a {
      forall d
        ensures !Depends(g, a, s, d)
      {
        PostDominatingSuccessor(g, a, s, d);
      }
    }
  }

  lemma EdgesGrow(g: CF.Graph, edges: seq<DependenceEdge>, before: seq<DependenceEdge>, a: BlockId,
      targets: seq<BlockId>,
                  s: BlockId, chain: seq<BlockId>)
    requires EdgesUpTo(g, edges, before, a, targets) && !PostDominator(g, s, a)
    requires forall d :: d in chain <==> Depends(g, a, s, d)
    ensures EdgesUpTo(g, edges + ChainEdges(a, s, chain), before, a, targets + [s])
  {
    DomSelf(Successors(g), Exits(g), a);
    assert s != a;
    hide PostDominator, Depends;
  }

  lemma SoleSuccessorGivesNothing(g: CF.Graph, f: CF.BlockFacts, before: seq<DependenceEdge>)
    requires Targets(Successors(g), f.block) == f.successors && |f.successors| < 2 && CF.Reachable(g, f.block)
    requires FlowGraph(Reachables(g), Exits(g), Successors(g))
    ensures EdgesUpTo(g, before, before, f.block, f.successors)
  {
    hide EdgesUpTo, FlowGraph, CF.Reachable, PostDominator, Exits, Successors;
    NoEdgesYet(g, before, f.block);
    if |f.successors| == 1 {
      assert f.successors == [f.successors[0]] == [] + [f.successors[0]];
      SoleSuccessorPostDominates(g, f.block, f.successors[0]);
      EdgesSkip(g, before, before, f.block, [], f.successors[0]);
    }
  }

  /** Exactly the dependences along edges that are not self-loops, in order. */
  ghost predicate AreDependences(g: CF.Graph, edges: seq<DependenceEdge>) {
    && EdgesSorted(edges)
    && forall e :: e in edges <==> ControlDepends(g, e) && e.successor != e.controller
  }

  ghost predicate Collected(g: CF.Graph, flow: seq<CF.BlockFacts>, n: nat, edges: seq<DependenceEdge>)
    requires n <= |flow|
  {
    forall e :: e in edges <==>
      e.successor != e.controller && Depends(g, e.controller, e.successor, e.dependent)
      && exists i :: 0 <= i < n && flow[i].block == e.controller
  }

  lemma CollectedGrows(g: CF.Graph, flow: seq<CF.BlockFacts>, n: nat, before: seq<DependenceEdge>,
      edges: seq<DependenceEdge>)
    requires n < |flow| && CF.FactDescribes(g, flow[n]) && Collected(g, flow, n, before)
    requires if flow[n].reachable then EdgesUpTo(g, edges, before, flow[n].block, flow[n].successors)
      else edges == before
    ensures Collected(g, flow, n + 1, edges)
  {
    hide CF.FactDescribes;
    forall e: DependenceEdge
      ensures Depends(g, e.controller, e.successor, e.dependent) && e.controller == flow[n].block ==>
        flow[n].reachable && e.successor in flow[n].successors
    {
      if Depends(g, e.controller, e.successor, e.dependent) && e.controller == flow[n].block {
        DependsMeans(g, e);
        ReachableFact(g, flow[n]);
        FlowFactEdges(g, flow[n]);
      }
    }
    hide Depends;
  }

  lemma ReachableFact(g: CF.Graph, f: CF.BlockFacts)
    requires CF.FactDescribes(g, f)
    ensures f.reachable <==> CF.Reachable(g, f.block)
  {
  }

  method BuildEdges(ghost g: CF.Graph, structure: Result) returns (edges: seq<DependenceEdge>)
    requires Describes(g, structure) && structure.hasPostDominance
    ensures AreDependences(g, edges)
  {
    hide Collected, EdgesUpTo, StructuralFacts, CF.FactDescribes, AreLoops, AreRegions, FactsDescribe,
        CF.OrdersDescribe,
         ControlDepends, Depends, PostDominanceAvailable, Exits;
    var flow := structure.controlFlow.facts;
    edges := [];
    NothingCollected(g, flow);
    for i := 0 to |flow|
      invariant Collected(g, flow, i, edges)
    {
      ghost var before := edges;
      if flow[i].reachable {
        edges := EdgesOf(g, structure, flow[i], edges);
      }
      CollectedGrows(g, flow, i, before, edges);
    }
    AllCollected(g, flow, edges);
    edges := SortEdges(edges);
  }

  lemma NothingCollected(g: CF.Graph, flow: seq<CF.BlockFacts>)
    ensures Collected(g, flow, 0, [])
  {
  }

  lemma AllCollected(g: CF.Graph, flow: seq<CF.BlockFacts>, edges: seq<DependenceEdge>)
    requires CF.FactsDescribe(g, flow) && Collected(g, flow, |flow|, edges)
    ensures forall e :: e in edges <==> ControlDepends(g, e) && e.successor != e.controller
  {
    hide Depends, CF.FactDescribes;
    forall e: DependenceEdge
      ensures e in edges <==> ControlDepends(g, e) && e.successor != e.controller
    {
      DependsMeans(g, e);
      if ControlDepends(g, e) {
        ReachableHasFact(g, flow, e.controller);
      }
    }
  }

  // ---------------------------------------------------------------------------
  // Per-block summaries

  ghost predicate SummaryDescribes(edges: seq<DependenceEdge>, f: DependenceFacts) {
    && Ascending(f.controllers)
    && (forall c :: c in Elements(f.controllers) <==>
          exists e :: e in edges && e.controller == c && e.dependent == f.block)
    && Ascending(f.dependents)
    && (forall d :: d in Elements(f.dependents) <==>
          exists e :: e in edges && e.dependent == d && e.controller == f.block)
  }

  ghost predicate SummariesDescribe(flow: seq<CF.BlockFacts>, edges: seq<DependenceEdge>, facts: seq<DependenceFacts>) {
    && |facts| == |flow|
    && forall i :: 0 <= i < |facts| ==> facts[i].block == flow[i].block && SummaryDescribes(edges, facts[i])
  }

  /** The two maps after the first n edges were entered. */
  ghost predicate Entered(keys: set<BlockId>, edges: seq<DependenceEdge>, n: nat, controllers: BlockSets,
      dependents: BlockSets)
    requires n <= |edges|
  {
    && controllers.Keys == keys && dependents.Keys == keys
    && (forall b, c :: b in keys ==>
          (c in controllers[b] <==> exists i :: 0 <= i < n && edges[i].controller == c && edges[i].dependent == b))
    && (forall b, d :: b in keys ==>
          (d in dependents[b] <==> exists i :: 0 <= i < n && edges[i].dependent == d && edges[i].controller == b))
  }

  lemma EnteredGrows(keys: set<BlockId>, edges: seq<DependenceEdge>, n: nat, controllers: BlockSets,
      dependents: BlockSets)
    requires n < |edges| && Entered(keys, edges, n, controllers, dependents)
    requires edges[n].controller in keys && edges[n].dependent in keys
    ensures
      var e := edges[n];
      Entered(keys, edges, n + 1,
              controllers[e.dependent := controllers[e.dependent] + {e.controller}],
              dependents[e.controller := dependents[e.controller] + {e.dependent}])
  {
  }

  lemma SummaryIs(keys: set<BlockId>, edges: seq<DependenceEdge>, controllers: BlockSets, dependents: BlockSets,
      b: BlockId)
    requires Entered(keys, edges, |edges|, controllers, dependents) && b in keys
    ensures SummaryDescribes(edges, DependenceFacts(b, ToVector(controllers[b]), ToVector(dependents[b])))
  {
    hide Ascending, ToVector, Elements;
  }

  method BuildFacts(flow: seq<CF.BlockFacts>, edges: seq<DependenceEdge>) returns (facts: seq<DependenceFacts>)
    requires forall e :: e in edges ==>
      (exists i :: 0 <= i < |flow| && flow[i].block == e.controller)
          && (exists i :: 0 <= i < |flow| && flow[i].block == e.dependent)
    ensures SummariesDescribe(flow, edges, facts)
  {
    hide Entered, SummaryDescribes, ToVector;
    var keys := set i | 0 <= i < |flow| :: flow[i].block;
    var controllers: BlockSets := map b | b in keys :: {};
    var dependents: BlockSets := map b | b in keys :: {};
    NothingEntered(keys, edges, controllers, dependents);
    for n := 0 to |edges|
      invariant Entered(keys, edges, n, controllers, dependents)
      invariant controllers.Keys == keys && dependents.Keys == keys
    {
      var e := edges[n];
      assert e in edges;
      EnteredGrows(keys, edges, n, controllers, dependents);
      controllers := controllers[e.dependent := controllers[e.dependent] + {e.controller}];
      dependents := dependents[e.controller := dependents[e.controller] + {e.dependent}];
    }
    facts := [];
    for i := 0 to |flow|
      invariant |facts| == i
      invariant forall j :: 0 <= j < i ==> facts[j].block == flow[j].block && SummaryDescribes(edges, facts[j])
    {
      var b := flow[i].block;
      assert b in keys;
      SummaryIs(keys, edges, controllers, dependents, b);
      facts := facts + [DependenceFacts(b, ToVector(controllers[b]), ToVector(dependents[b]))];
    }
  }

  lemma NothingEntered(keys: set<BlockId>, edges: seq<DependenceEdge>, controllers: BlockSets, dependents: BlockSets)
    requires controllers == map b | b in keys :: {}
    requires dependents == map b | b in keys :: {}
    ensures Entered(keys, edges, 0, controllers, dependents)
  {
  }

  // ---------------------------------------------------------------------------
  // The analysis

  ghost predicate DependenceDescribes(g: CF.Graph, r: DependenceResult) {
    && Describes(g, r.structure)
    && r.available == r.structure.hasPostDominance
    && (r.available <==> PostDominanceAvailable(g))
    && (if r.available then AreDependences(g, r.edges) else r.edges == [])
    && SummariesDescribe(r.structure.controlFlow.facts, r.edges, r.facts)
  }

  /** Both ends of a dependence are known blocks. */
  lemma DependenceEndsKnown(g: CF.Graph, flow: seq<CF.BlockFacts>, e: DependenceEdge)
    requires CF.FactsDescribe(g, flow) && ControlDepends(g, e) && PostDominanceAvailable(g)
    ensures exists i :: 0 <= i < |flow| && flow[i].block == e.controller
    ensures exists i :: 0 <= i < |flow| && flow[i].block == e.dependent
  {
    hide FlowGraph, Dom, CF.FactsDescribe, PostDominanceAvailable, Exits, Successors, OnEveryExitPath, Reaches, Edge;
    ReachesThenEdge(CF.Edges(g), g.entry, e.controller, e.successor);
    AvailableFlowGraph(g);
    PostDominatorIsOnEveryExitPath(g, e.dependent, e.successor);
    DomIsNode(Reachables(g), Exits(g), Successors(g), e.dependent, e.successor);
    ReachableHasFact(g, flow, e.controller);
    ReachableHasFact(g, flow, e.dependent);
  }

  method AnalyzeControlDependence(g: CF.Graph) returns (result: DependenceResult)
    ensures DependenceDescribes(g, result)
  {
    hide ControlDepends, PostDominanceAvailable, AreLoops, AreRegions, FactsDescribe, CF.OrdersDescribe,
        CF.FactsDescribe,
         SummariesDescribe, EdgesSorted, Exits;
    var structure := AnalyzeDominance(g);
    var edges: seq<DependenceEdge> := [];
    if structure.hasPostDominance {
      edges := BuildEdges(g, structure);
    }
    forall e | e in edges
      ensures exists i :: 0 <= i < |structure.controlFlow.facts| && structure.controlFlow.facts[i].block == e.controller
      ensures exists i :: 0 <= i < |structure.controlFlow.facts| && structure.controlFlow.facts[i].block == e.dependent
    {
      DependenceEndsKnown(g, structure.controlFlow.facts, e);
    }
    var facts := BuildFacts(structure.controlFlow.facts, edges);
    result := DependenceResult(structure, edges, facts, structure.hasPostDominance);
  }

  /** Control dependence agrees with the post-dominance frontier that is computed separately:
      a branch is in the frontier of a block exactly when it controls the block, or when the
      block is the branch itself and one of its edges is a self-loop. */
  lemma FrontierIsControlDependence(g: CF.Graph, r: DependenceResult, a: BlockId, d: BlockId)
    requires DependenceDescribes(g, r) && r.available && CF.Reachable(g, d)
    ensures FactsFor(r.structure, d).Some?
    ensures a in FactsFor(r.structure, d).value.postDominanceFrontier <==>
      || (exists e :: e in r.edges && e.controller == a && e.dependent == d)
      || (d == a && Edge(CF.Edges(g), a, a) && |Targets(Successors(g), a)| >= 2)
  {
    hide Describes, SummariesDescribe, PostDominanceAvailable, FlowGraph, CF.Reachable, Exits, Successors,
        ControlDepends,
         Depends, InFrontier, EdgesSorted, Edge;
    FrontierRecorded(g, r.structure, a, d);
    AvailableFlowGraph(g);
    if e :| e in r.edges && e.controller == a && e.dependent == d {
      DependsMeans(g, e);
      ControllerReachable(g, e);
      DependenceInFrontier(g, a, e.successor, d);
    }
    if d == a && Edge(CF.Edges(g), a, a) && |Targets(Successors(g), a)| >= 2 {
      SelfLoopInFrontier(g, a);
    }
    if CF.Reachable(g, a) && |Targets(Successors(g), a)| >= 2 && InFrontier(Successors(g), Exits(g), d, a) {
      var s := FrontierHasEdge(g, a, d);
      if s != a {
        DependsMeans(g, DependenceEdge(a, s, d));
        assert DependenceEdge(a, s, d) in r.edges;
      }
    }
  }

  lemma ControllerReachable(g: CF.Graph, e: DependenceEdge)
    requires ControlDepends(g, e)
    ensures CF.Reachable(g, e.controller)
  {
  }

  lemma FrontierRecorded(g: CF.Graph, r: Result, a: BlockId, d: BlockId)
    requires Describes(g, r) && r.hasPostDominance && CF.Reachable(g, d)
    ensures FactsFor(r, d).Some?
    ensures a in FactsFor(r, d).value.postDominanceFrontier <==>
      CF.Reachable(g, a) && |Targets(Successors(g), a)| >= 2 && InFrontier(Successors(g), Exits(g), d, a)
  {
    hide Describes, IsParent, InFrontier, Dominator, PostDominator, CF.Reachable, ForwardFacts, Successors, Exits;
    RecordOf(g, r, d);
    var v := FactsFor(r, d).value.postDominanceFrontier;
    assert a in v <==> a in Elements(v);
  }

  lemma FrontierHasEdge(g: CF.Graph, a: BlockId, d: BlockId) returns (s: BlockId)
    requires InFrontier(Successors(g), Exits(g), d, a)
    ensures Depends(g, a, s, d)
    ensures s == a ==> d == a && Edge(CF.Edges(g), a, a)
  {
    s :| Escapes(Successors(g), Exits(g), d, a, s);
    SuccessorEdge(g, a, s);
  }

  lemma SelfLoopInFrontier(g: CF.Graph, a: BlockId)
    requires CF.Reachable(g, a) && Edge(CF.Edges(g), a, a)
    ensures InFrontier(Successors(g), Exits(g), a, a)
  {
    SuccessorEdge(g, a, a);
    DomSelf(Successors(g), Exits(g), a);
    assert Escapes(Successors(g), Exits(g), a, a, a);
  }

  lemma DependenceInFrontier(g: CF.Graph, a: BlockId, s: BlockId, d: BlockId)
    requires FlowGraph(Reachables(g), Exits(g), Successors(g)) && CF.Reachable(g, a)
    requires Depends(g, a, s, d) && s != a
    ensures |Targets(Successors(g), a)| >= 2 && InFrontier(Successors(g), Exits(g), d, a)
  {
    hide FlowGraph, Depends, PostDominator, InFrontier, Exits, Successors, CF.Reachable;
    DependsInFrontier(g, a, s, d);
    if |Targets(Successors(g), a)| == 1 {
      SoleSuccessorPostDominates(g, a, s);
      PostDominatingSuccessor(g, a, s, d);
    }
  }

  lemma DependsInFrontier(g: CF.Graph, a: BlockId, s: BlockId, d: BlockId)
    requires Depends(g, a, s, d)
    ensures InFrontier(Successors(g), Exits(g), d, a)
    ensures |Targets(Successors(g), a)| >= 1
    ensures |Targets(Successors(g), a)| == 1 ==> Targets(Successors(g), a) == [s]
  {
  }
}
