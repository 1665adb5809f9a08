/** Dominating sets, immediate parents and frontiers (Talac/Analysis/Dominance.cpp:54-178),
    each proved against its path-based definition. The same three passes run forwards from
    the entry and backwards from the exits. */
module DominanceSets {
  import opened Graphs
  import opened DominanceTheory
  import opened Wrappers

  type BlockSets = map<BlockId, set<BlockId>>
  type ParentMap = map<BlockId, Option<BlockId>>

  /** What the intersection of the inputs means, with the source's two fallbacks: an unknown
      first input stands for everything, any other unknown input for nothing. */
  ghost predicate InInputs(inputs: seq<BlockId>, sets: BlockSets, fallback: set<BlockId>, d: BlockId)
    requires inputs != []
  {
    && (if inputs[0] in sets then d in sets[inputs[0]] else d in fallback)
    && forall i :: 0 < i < |inputs| ==> d in Nodes(sets, inputs[i])
  }

  method IntersectInputs(inputs: seq<BlockId>, sets: BlockSets, fallback: set<BlockId>) returns (result: set<BlockId>)
    ensures inputs == [] ==> result == fallback
    ensures inputs != [] ==> forall d :: d in result <==> InInputs(inputs, sets, fallback, d)
  {
    if inputs == [] {
      return fallback;
    }
    result := if inputs[0] in sets then sets[inputs[0]] else fallback;
    for i := 1 to |inputs|
      invariant forall d :: d in result <==> InInputs(inputs[..i], sets, fallback, d)
    {
      if inputs[i] !in sets {
        assert forall d :: !InInputs(inputs, sets, fallback, d) by {
          assert Nodes(sets, inputs[i]) == {};
        }
        return {};
      }
      result := result * sets[inputs[i]];
      assert inputs[..i + 1] == inputs[..i] + [inputs[i]];
    }
    assert inputs[..|inputs|] == inputs;
  }

  /** One evaluation of the equation of a block that is not a root. */
  method Evaluate(nodes: set<BlockId>, predecessors: EdgeMap, sets: BlockSets, node: BlockId)
      returns (next: set<BlockId>)
    requires node in nodes && sets.Keys == nodes
    requires forall m :: Edge(predecessors, node, m) ==> m in nodes && Nodes(sets, m) <= nodes
    requires Targets(predecessors, node) != []
    ensures forall d :: d in next <==> d in nodes && InEquation(predecessors, sets, node, d)
  {
    var incoming := if node in predecessors then predecessors[node] else [];
    next := {node};
    if incoming != [] {
      next := IntersectInputs(incoming, sets, nodes);
      forall d
        ensures d in next + {node} <==> d in nodes && InEquation(predecessors, sets, node, d)
      {
        assert incoming[0] in incoming;
        if InInputs(incoming, sets, nodes, d) {
          forall m | Edge(predecessors, node, m)
            ensures d in Nodes(sets, m)
          {
            var i :| 0 <= i < |incoming| && incoming[i] == m;
          }
          assert Edge(predecessors, node, incoming[0]);
        }
        if InEquation(predecessors, sets, node, d) && d != node {
          assert forall i :: 0 <= i < |incoming| ==> Edge(predecessors, node, incoming[i]);
        }
      }
    }
    next := next + {node};
  }

  /** Every set solves its equation up to position i of the visiting order. */
  ghost predicate SolvedUpTo(nodes: set<BlockId>, roots: set<BlockId>, predecessors: EdgeMap, sets: BlockSets,
                             order: seq<BlockId>, i: nat)
    requires i <= |order|
  {
    forall j :: 0 <= j < i && order[j] !in roots ==> Solved(nodes, predecessors, sets, order[j])
  }

  lemma NonRootHasIncoming(nodes: set<BlockId>, roots: set<BlockId>, incoming: EdgeMap, n: BlockId)
    requires FlowGraph(nodes, roots, incoming) && n in nodes - roots
    ensures Targets(incoming, n) != []
  {
    var p :| RootPath(incoming, roots, p, n);
    assert |p| > 1;
    assert Edge(incoming, p[|p| - 1], p[|p| - 2]);
  }

  lemma InputsAreNodes(nodes: set<BlockId>, roots: set<BlockId>, incoming: EdgeMap, sets: BlockSets, n: BlockId)
    requires FlowGraph(nodes, roots, incoming) && Descending(nodes, roots, incoming, sets) && n in nodes
    ensures sets.Keys == nodes
    ensures forall m :: Edge(incoming, n, m) ==> m in nodes && Nodes(sets, m) <= nodes
  {
  }

  lemma SolvedByEvaluation(nodes: set<BlockId>, incoming: EdgeMap, sets: BlockSets, n: BlockId, next: set<BlockId>)
    requires n in sets && next == sets[n]
    requires forall d :: d in next <==> d in nodes && InEquation(incoming, sets, n, d)
    ensures Solved(nodes, incoming, sets, n)
  {
  }

  lemma AllSolved(nodes: set<BlockId>, roots: set<BlockId>, incoming: EdgeMap, sets: BlockSets, order: seq<BlockId>)
    requires FlowGraph(nodes, roots, incoming) && Descending(nodes, roots, incoming, sets)
    requires SolvedUpTo(nodes, roots, incoming, sets, order, |order|) && Elements(order) == nodes
    ensures IsDominators(nodes, roots, incoming, sets)
  {
    forall n | n in nodes - roots
      ensures Solved(nodes, incoming, sets, n)
    {
      assert n in Elements(order);
      var j :| 0 <= j < |order| && order[j] == n;
    }
    SolutionIsDominance(nodes, roots, incoming, sets);
  }

  method ComputeDominatingSets(nodes: set<BlockId>, roots: seq<BlockId>, predecessors: EdgeMap,
      visitOrder: seq<BlockId>)
    returns (result: BlockSets)
    requires FlowGraph(nodes, Elements(roots), predecessors)
    requires Elements(visitOrder) == nodes
    ensures IsDominators(nodes, Elements(roots), predecessors, result)
  {
    hide FlowGraph, Descending, IsDominators, Solved, SolvedUpTo, SizeSum, InEquation;
    var rootSet := Elements(roots);
    result := map n | n in nodes :: if n in rootSet then {n} else nodes;
    DescendingStarts(nodes, rootSet, predecessors);
    var changed := true;
    while changed
      invariant result.Keys == nodes
      invariant Descending(nodes, rootSet, predecessors, result)
      invariant !changed ==> SolvedUpTo(nodes, rootSet, predecessors, result, visitOrder, |visitOrder|)
      decreases SizeSum(result, visitOrder), changed
    {
      changed := false;
      ghost var before := SizeSum(result, visitOrder);
      NothingSolvedYet(nodes, rootSet, predecessors, result, visitOrder);
      for i := 0 to |visitOrder|
        invariant result.Keys == nodes
        invariant Descending(nodes, rootSet, predecessors, result)
        invariant !changed ==> SolvedUpTo(nodes, rootSet, predecessors, result, visitOrder, i)
        invariant SizeSum(result, visitOrder) <= before
        invariant changed ==> SizeSum(result, visitOrder) < before
      {
        var node := visitOrder[i];
        assert node in Elements(visitOrder);
        if node !in rootSet {
          NonRootHasIncoming(nodes, rootSet, predecessors, node);
          InputsAreNodes(nodes, rootSet, predecessors, result, node);
          var next := Evaluate(nodes, predecessors, result, node);
          DescendingUpdates(nodes, rootSet, predecessors, result, node, next);
          if next != result[node] {
            SizeSumShrinks(result, visitOrder, node, next);
            result := result[node := next];
            changed := true;
          } else {
            SolvedByEvaluation(nodes, predecessors, result, node, next);
          }
        }
        if !changed {
          SolvedGrows(nodes, rootSet, predecessors, result, visitOrder, i);
        }
      }
    }
    AllSolved(nodes, rootSet, predecessors, result, visitOrder);
  }

  lemma NothingSolvedYet(nodes: set<BlockId>, roots: set<BlockId>, incoming: EdgeMap, sets: BlockSets,
      order: seq<BlockId>)
    ensures SolvedUpTo(nodes, roots, incoming, sets, order, 0)
  {
  }

  lemma SolvedGrows(nodes: set<BlockId>, roots: set<BlockId>, incoming: EdgeMap, sets: BlockSets,
      order: seq<BlockId>, i: nat)
    requires i < |order| && SolvedUpTo(nodes, roots, incoming, sets, order, i)
    requires order[i] in roots || Solved(nodes, incoming, sets, order[i])
    ensures SolvedUpTo(nodes, roots, incoming, sets, order, i + 1)
  {
  }

  // ---------------------------------------------------------------------------
  // Immediate parents

  /** The closest strict dominator: every strict dominator of n dominates it. */
  ghost predicate IsParent(incoming: EdgeMap, roots: set<BlockId>, n: BlockId, parent: Option<BlockId>) {
    match parent
    case None => forall d :: Dom(incoming, roots, d, n) ==> d == n
    case Some(p) =>
      StrictDom(incoming, roots, p, n)
      && forall d :: StrictDom(incoming, roots, d, n) ==> Dom(incoming, roots, d, p)
  }

  ghost predicate AreParents(nodes: set<BlockId>, roots: set<BlockId>, incoming: EdgeMap, parents: ParentMap) {
    parents.Keys == nodes && forall n :: n in nodes ==> IsParent(incoming, roots, n, parents[n])
  }

  /** A block has one immediate parent. */
  lemma ParentIsUnique(incoming: EdgeMap, roots: set<BlockId>, n: BlockId, a: Option<BlockId>, b: Option<BlockId>)
    requires IsParent(incoming, roots, n, a) && IsParent(incoming, roots, n, b)
    requires forall p :: Dom(incoming, roots, p, n) ==> FlowReachable(incoming, roots, p)
    ensures a == b
  {
    if a.Some? && b.Some? {
      DomAntisymmetric(incoming, roots, a.value, b.value);
    }
  }

  /** So the immediate parents of all nodes are one map. */
  lemma ParentsAreUnique(nodes: set<BlockId>, roots: set<BlockId>, incoming: EdgeMap, a: ParentMap, b: ParentMap)
    requires FlowGraph(nodes, roots, incoming) && AreParents(nodes, roots, incoming, a)
      && AreParents(nodes, roots, incoming, b)
    ensures a == b
  {
    hide IsParent, Dom;
    forall n | n in nodes
      ensures a[n] == b[n]
    {
      forall p | Dom(incoming, roots, p, n)
        ensures FlowReachable(incoming, roots, p)
      {
        DomIsNode(nodes, roots, incoming, p, n);
      }
      ParentIsUnique(incoming, roots, n, a[n], b[n]);
    }
  }

  /** Along the chain of strict dominators the dominating sets grow, so the largest one marks
      the closest dominator. */
  lemma DeepestIsClosest(nodes: set<BlockId>, roots: set<BlockId>, incoming: EdgeMap, sets: BlockSets, n: BlockId,
      p: BlockId)
    requires FlowGraph(nodes, roots, incoming) && IsDominators(nodes, roots, incoming, sets) && n in nodes
    requires StrictDom(incoming, roots, p, n) && p in nodes
    requires forall d :: StrictDom(incoming, roots, d, n) ==> d in nodes && |sets[d]| <= |sets[p]|
    ensures IsParent(incoming, roots, n, Some(p))
  {
    forall d | StrictDom(incoming, roots, d, n)
      ensures Dom(incoming, roots, d, p)
    {
      DominatorsFormChain(incoming, roots, d, p, n);
      if Dom(incoming, roots, p, d) {
        forall x | x in sets[p]
          ensures x in sets[d]
        {
          DomTransitive(incoming, roots, x, p, d);
        }
        if sets[p] != sets[d] {
          SubsetSize(sets[p], sets[d]);
        }
        DomSelf(incoming, roots, d);
        assert d in sets[d];
      }
    }
  }

  /** The deepest of the strict dominators. */
  method ClosestOf(nodes: set<BlockId>, ghost roots: set<BlockId>, ghost incoming: EdgeMap, sets: BlockSets,
      node: BlockId)
    returns (immediate: Option<BlockId>)
    requires FlowGraph(nodes, roots, incoming) && IsDominators(nodes, roots, incoming, sets) && node in nodes
    ensures IsParent(incoming, roots, node, immediate)
  {
    var strict := sets[node] - {node};
    var candidates := ToVector(strict);
    StrictSetMeans(nodes, roots, incoming, sets, node);
    immediate := None;
    var greatestDepth := 0;
    assert forall j :: 0 <= j < |candidates| ==> candidates[j] in Elements(candidates);
    hide Dom, FlowGraph, IsDominators, Elements, Ascending;
    for i := 0 to |candidates|
      invariant immediate == None <==> i == 0
      invariant immediate.Some? ==> immediate.value in strict && greatestDepth == |sets[immediate.value]|
      invariant forall j :: 0 <= j < i ==> |sets[candidates[j]]| <= greatestDepth
    {
      var candidate := candidates[i];
      assert candidate in Elements(candidates);
      var depth := |sets[candidate]|;
      if immediate == None || depth > greatestDepth {
        immediate := Some(candidate);
        greatestDepth := depth;
      }
    }
    if immediate.Some? {
      forall d | StrictDom(incoming, roots, d, node)
        ensures d in nodes && |sets[d]| <= |sets[immediate.value]|
      {
        assert d in Elements(candidates);
        var j :| 0 <= j < |candidates| && candidates[j] == d;
      }
      DeepestIsClosest(nodes, roots, incoming, sets, node, immediate.value);
    } else {
      assert strict == Elements(candidates) == {};
      NoStrictNoParent(incoming, roots, strict, node);
    }
  }

  lemma NoStrictNoParent(incoming: EdgeMap, roots: set<BlockId>, strict: set<BlockId>, n: BlockId)
    requires forall d :: d in strict <==> StrictDom(incoming, roots, d, n)
    requires strict == {}
    ensures IsParent(incoming, roots, n, None)
  {
    forall d | Dom(incoming, roots, d, n)
      ensures d == n
    {
      assert d in strict <==> StrictDom(incoming, roots, d, n);
    }
  }

  lemma StrictSetMeans(nodes: set<BlockId>, roots: set<BlockId>, incoming: EdgeMap, sets: BlockSets, n: BlockId)
    requires FlowGraph(nodes, roots, incoming) && IsDominators(nodes, roots, incoming, sets) && n in nodes
    ensures sets.Keys == nodes
    ensures sets[n] <= nodes
    ensures forall d :: d in sets[n] <==> Dom(incoming, roots, d, n)
    ensures forall d :: d in sets[n] - {n} <==> StrictDom(incoming, roots, d, n)
  {
    forall d | Dom(incoming, roots, d, n)
      ensures d in nodes
    {
      DomIsNode(nodes, roots, incoming, d, n);
    }
  }

  lemma RootHasNoParent(incoming: EdgeMap, roots: set<BlockId>, r: BlockId)
    requires r in roots
    ensures IsParent(incoming, roots, r, None)
  {
    forall d | Dom(incoming, roots, d, r)
      ensures d == r
    {
      RootHasNoStrictDom(incoming, roots, d, r);
    }
  }

  method ImmediateParents(nodes: set<BlockId>, roots: seq<BlockId>, ghost incoming: EdgeMap, dominatingSets: BlockSets)
    returns (parents: ParentMap)
    requires FlowGraph(nodes, Elements(roots), incoming)
    requires IsDominators(nodes, Elements(roots), incoming, dominatingSets)
    ensures AreParents(nodes, Elements(roots), incoming, parents)
  {
    hide FlowGraph, IsDominators, IsParent;
    var rootSet := Elements(roots);
    parents := map[];
    var order := ToVector(nodes);
    for i := 0 to |order|
      invariant parents.Keys == Elements(order[..i])
      invariant forall n :: n in parents ==> IsParent(incoming, rootSet, n, parents[n])
    {
      var node := order[i];
      ElementsPrefix(order, i);
      assert node in Elements(order);
      if node in rootSet {
        RootHasNoParent(incoming, rootSet, node);
        parents := parents[node := None];
      } else {
        var immediate := ClosestOf(nodes, rootSet, incoming, dominatingSets, node);
        parents := parents[node := immediate];
      }
    }
    assert order[..|order|] == order;
  }

  // ---------------------------------------------------------------------------
  // Frontiers

  /** n dominates the incoming neighbour p of the join, but does not strictly dominate the join. */
  ghost predicate Escapes(incoming: EdgeMap, roots: set<BlockId>, n: BlockId, join: BlockId, p: BlockId) {
    Edge(incoming, join, p) && Dom(incoming, roots, n, p) && !StrictDom(incoming, roots, n, join)
  }

  /** The textbook dominance frontier. */
  ghost predicate InFrontier(incoming: EdgeMap, roots: set<BlockId>, n: BlockId, join: BlockId) {
    exists p :: Escapes(incoming, roots, n, join, p)
  }

  /** The reported frontiers: the textbook frontier over blocks with two incoming edges. */
  ghost predicate AreFrontiers(nodes: set<BlockId>, roots: set<BlockId>, incoming: EdgeMap, frontiers: BlockSets) {
    && frontiers.Keys == nodes
    && forall n, join :: n in nodes ==>
         (join in frontiers[n] <==>
            join in nodes && |Targets(incoming, join)| >= 2 && InFrontier(incoming, roots, n, join))
  }

  /** What the runner has passed on its way up from p, and what it has still to meet. */
  ghost predicate Runner(nodes: set<BlockId>, roots: set<BlockId>, incoming: EdgeMap, join: BlockId, p: BlockId,
                         runner: Option<BlockId>, visited: set<BlockId>)
  {
    && visited <= nodes
    && (forall n :: n in visited ==> Escapes(incoming, roots, n, join, p))
    && (runner.Some? ==> runner.value in nodes && Dom(incoming, roots, runner.value, p))
    && (forall n :: Dom(incoming, roots, n, p) ==>
          n in visited || (runner.Some? && Dom(incoming, roots, n, runner.value)))
    && (runner.Some? ==> forall v :: v in visited ==> StrictDom(incoming, roots, runner.value, v))
  }

  lemma RunnerStarts(nodes: set<BlockId>, roots: set<BlockId>, incoming: EdgeMap, join: BlockId, p: BlockId)
    requires FlowGraph(nodes, roots, incoming) && join in nodes && Edge(incoming, join, p)
    ensures Runner(nodes, roots, incoming, join, p, Some(p), {})
  {
    DomSelf(incoming, roots, p);
  }

  /** Below the immediate parent of the join, the runner does not strictly dominate the join. */
  lemma RunnerEscapes(nodes: set<BlockId>, roots: set<BlockId>, incoming: EdgeMap, join: BlockId, p: BlockId,
                      runner: BlockId, visited: set<BlockId>, stop: Option<BlockId>)
    requires FlowGraph(nodes, roots, incoming) && join in nodes && Edge(incoming, join, p)
    requires Runner(nodes, roots, incoming, join, p, Some(runner), visited)
    requires IsParent(incoming, roots, join, stop) && Some(runner) != stop
    ensures Escapes(incoming, roots, runner, join, p)
  {
    if StrictDom(incoming, roots, runner, join) {
      var s := stop.value;
      DomOfIncoming(incoming, roots, s, join, p);
      assert s !in visited;
      assert FlowReachable(incoming, roots, runner);
      DomAntisymmetric(incoming, roots, s, runner);
      assert false;
    }
  }

  lemma RunnerSteps(nodes: set<BlockId>, roots: set<BlockId>, incoming: EdgeMap, join: BlockId, p: BlockId,
                    runner: BlockId, visited: set<BlockId>, stop: Option<BlockId>, above: Option<BlockId>)
    requires FlowGraph(nodes, roots, incoming) && join in nodes && Edge(incoming, join, p)
    requires Runner(nodes, roots, incoming, join, p, Some(runner), visited)
    requires IsParent(incoming, roots, join, stop) && Some(runner) != stop
    requires IsParent(incoming, roots, runner, above)
    ensures Runner(nodes, roots, incoming, join, p, above, visited + {runner})
  {
    RunnerEscapes(nodes, roots, incoming, join, p, runner, visited, stop);
    if above.Some? {
      var a := above.value;
      DomTransitive(incoming, roots, a, runner, p);
      DomIsNode(nodes, roots, incoming, a, runner);
      forall v | v in visited + {runner}
        ensures StrictDom(incoming, roots, a, v)
      {
        if v != runner {
          DomTransitive(incoming, roots, a, runner, v);
          if a == v {
            assert FlowReachable(incoming, roots, runner);
            DomAntisymmetric(incoming, roots, v, runner);
            assert false;
          }
        }
      }
    }
  }

  /** When the runner stops, it has passed exactly the blocks whose frontier holds the join. */
  lemma RunnerStops(nodes: set<BlockId>, roots: set<BlockId>, incoming: EdgeMap, join: BlockId, p: BlockId,
                    runner: Option<BlockId>, visited: set<BlockId>, stop: Option<BlockId>)
    requires FlowGraph(nodes, roots, incoming) && join in nodes && Edge(incoming, join, p)
    requires Runner(nodes, roots, incoming, join, p, runner, visited)
    requires IsParent(incoming, roots, join, stop) && (runner == None || runner == stop)
    ensures forall n :: n in visited <==> Escapes(incoming, roots, n, join, p)
  {
    forall n | Escapes(incoming, roots, n, join, p) && n !in visited
      ensures false
    {
      var s := stop.value;
      assert Dom(incoming, roots, n, s);
      DomTransitive(incoming, roots, n, s, join);
      assert n == join;
      assert FlowReachable(incoming, roots, s);
      DomAntisymmetric(incoming, roots, join, s);
      assert false;
    }
  }

  /** Walk from one incoming neighbour up to the immediate parent of the join. */
  method Run(nodes: set<BlockId>, ghost roots: set<BlockId>, ghost incoming: EdgeMap, parents: ParentMap,
             join: BlockId, predecessor: BlockId, frontiers: BlockSets) returns (result: BlockSets)
    requires FlowGraph(nodes, roots, incoming) && AreParents(nodes, roots, incoming, parents)
    requires join in nodes && Edge(incoming, join, predecessor) && frontiers.Keys == nodes
    ensures result.Keys == nodes
    ensures forall n :: n in nodes ==>
      result[n] == frontiers[n] + if Escapes(incoming, roots, n, join, predecessor) then {join} else {}
  {
    hide FlowGraph, Dom, Runner, IsParent, Escapes, Edge;
    result := frontiers;
    var stop := parents[join];
    var runner := Some(predecessor);
    var visited: set<BlockId> := {};
    RunnerStarts(nodes, roots, incoming, join, predecessor);
    RunnerIsNode(nodes, roots, incoming, join, predecessor, runner, visited);
    while runner.Some? && runner != stop && runner.value !in visited
      invariant result.Keys == nodes
      invariant Runner(nodes, roots, incoming, join, predecessor, runner, visited)
      invariant runner.Some? ==> runner.value in nodes && runner.value !in visited
      invariant visited <= nodes
      invariant forall n :: n in nodes ==> result[n] == frontiers[n] + if n in visited then {join} else {}
      decreases nodes - visited
    {
      var current := runner.value;
      RunnerSteps(nodes, roots, incoming, join, predecessor, current, visited, stop, parents[current]);
      visited := visited + {current};
      result := result[current := result[current] + {join}];
      runner := parents[current];
      RunnerIsNode(nodes, roots, incoming, join, predecessor, runner, visited);
    }
    RunnerStops(nodes, roots, incoming, join, predecessor, runner, visited, stop);
  }

  lemma RunnerIsNode(nodes: set<BlockId>, roots: set<BlockId>, incoming: EdgeMap, join: BlockId, p: BlockId,
                     runner: Option<BlockId>, visited: set<BlockId>)
    requires Runner(nodes, roots, incoming, join, p, runner, visited)
    ensures visited <= nodes
    ensures runner.Some? ==> runner.value in nodes && runner.value !in visited
  {
  }

  /** The frontiers after the joins in done were handled. */
  ghost predicate FrontiersFor(nodes: set<BlockId>, roots: set<BlockId>, incoming: EdgeMap, frontiers: BlockSets,
      done: set<BlockId>) {
    && frontiers.Keys == nodes
    && forall n, join :: n in nodes ==>
         (join in frontiers[n] <==>
            join in done && |Targets(incoming, join)| >= 2 && InFrontier(incoming, roots, n, join))
  }

  /** All walks that end in one join. */
  method HandleJoin(nodes: set<BlockId>, ghost roots: set<BlockId>, incoming: EdgeMap, parents: ParentMap,
                    join: BlockId, frontiers: BlockSets, ghost done: set<BlockId>) returns (result: BlockSets)
    requires FlowGraph(nodes, roots, incoming) && AreParents(nodes, roots, incoming, parents)
    requires join in nodes && join !in done && FrontiersFor(nodes, roots, incoming, frontiers, done)
    requires |Targets(incoming, join)| >= 2
    ensures FrontiersFor(nodes, roots, incoming, result, done + {join})
  {
    hide FlowGraph, Dom, AreParents, Escapes;
    result := frontiers;
    var sources := Targets(incoming, join);
    for k := 0 to |sources|
      invariant result.Keys == nodes
      invariant forall n :: n in nodes ==> result[n] <= frontiers[n] + {join} && frontiers[n] <= result[n]
      invariant forall n :: n in nodes ==>
        (join in result[n] <==> exists i :: 0 <= i < k && Escapes(incoming, roots, n, join, sources[i]))
    {
      assert Edge(incoming, join, sources[k]);
      result := Run(nodes, roots, incoming, parents, join, sources[k], result);
    }
    JoinHandled(nodes, roots, incoming, frontiers, result, join, done);
  }

  lemma JoinHandled(nodes: set<BlockId>, roots: set<BlockId>, incoming: EdgeMap, before: BlockSets, after: BlockSets,
                    join: BlockId, done: set<BlockId>)
    requires join in nodes && join !in done && FrontiersFor(nodes, roots, incoming, before, done)
    requires |Targets(incoming, join)| >= 2 && after.Keys == nodes
    requires forall n :: n in nodes ==> after[n] <= before[n] + {join} && before[n] <= after[n]
    requires forall n :: n in nodes ==>
      (join in after[n] <==>
         exists i ::
           0 <= i < |Targets(incoming, join)| && Escapes(incoming, roots, n, join, Targets(incoming, join)[i]))
    ensures FrontiersFor(nodes, roots, incoming, after, done + {join})
  {
    hide Dom, StrictDom;
    forall n | n in nodes
      ensures join in after[n] <==> InFrontier(incoming, roots, n, join)
    {
      var sources := Targets(incoming, join);
      if InFrontier(incoming, roots, n, join) {
        var p :| Escapes(incoming, roots, n, join, p);
        var i :| 0 <= i < |sources| && sources[i] == p;
      }
    }
  }

  method ComputeFrontiers(nodes: set<BlockId>, ghost roots: set<BlockId>, incoming: EdgeMap, parents: ParentMap)
    returns (frontiers: BlockSets)
    requires FlowGraph(nodes, roots, incoming) && AreParents(nodes, roots, incoming, parents)
    ensures AreFrontiers(nodes, roots, incoming, frontiers)
  {
    hide FlowGraph, AreParents, InFrontier, FrontiersFor, Targets;
    frontiers := map n | n in nodes :: {};
    var order := ToVector(nodes);
    NoFrontiersYet(nodes, roots, incoming);
    assert Elements(order[..0]) == {};
    for i := 0 to |order|
      invariant FrontiersFor(nodes, roots, incoming, frontiers, Elements(order[..i]))
    {
      var join := order[i];
      assert join in Elements(order);
      ElementsPrefix(order, i);
      assert join !in Elements(order[..i]);
      TargetsAre(incoming, join);
      if join in incoming && |incoming[join]| >= 2 {
        frontiers := HandleJoin(nodes, roots, incoming, parents, join, frontiers, Elements(order[..i]));
      } else {
        SkippedJoin(nodes, roots, incoming, frontiers, Elements(order[..i]), join);
      }
    }
    assert order[..|order|] == order;
    AllJoinsHandled(nodes, roots, incoming, frontiers);
  }

  lemma TargetsAre(e: EdgeMap, b: BlockId)
    ensures Targets(e, b) == if b in e then e[b] else []
  {
  }

  lemma NoFrontiersYet(nodes: set<BlockId>, roots: set<BlockId>, incoming: EdgeMap)
    ensures FrontiersFor(nodes, roots, incoming, map n | n in nodes :: {}, {})
  {
  }

  lemma SkippedJoin(nodes: set<BlockId>, roots: set<BlockId>, incoming: EdgeMap, frontiers: BlockSets,
      done: set<BlockId>, join: BlockId)
    requires FrontiersFor(nodes, roots, incoming, frontiers, done) && |Targets(incoming, join)| < 2 && join !in done
    ensures FrontiersFor(nodes, roots, incoming, frontiers, done + {join})
  {
  }

  lemma AllJoinsHandled(nodes: set<BlockId>, roots: set<BlockId>, incoming: EdgeMap, frontiers: BlockSets)
    requires FrontiersFor(nodes, roots, incoming, frontiers, nodes)
    ensures AreFrontiers(nodes, roots, incoming, frontiers)
  {
  }

  // ---------------------------------------------------------------------------
  // Reported frontier and textbook frontier

  /** The reported frontiers are the textbook frontiers exactly when no root has a single
      incoming edge: the test for two incoming edges skips such a root, although the block at
      the other end of the edge has it in its frontier. */
  lemma FrontiersAreTextbookIff(nodes: set<BlockId>, roots: set<BlockId>, incoming: EdgeMap, frontiers: BlockSets)
    requires FlowGraph(nodes, roots, incoming) && AreFrontiers(nodes, roots, incoming, frontiers)
    ensures (forall n, join :: n in nodes && join in nodes ==>
      (join in frontiers[n] <==> InFrontier(incoming, roots, n, join)))
      <==> forall r :: r in roots ==> |Targets(incoming, r)| != 1
  {
    forall r | r in roots && |Targets(incoming, r)| == 1
      ensures exists n, join ::
        n in nodes && join in nodes && InFrontier(incoming, roots, n, join) && join !in frontiers[n]
    {
      SingleEdgeRoot(nodes, roots, incoming, r);
      var n := Targets(incoming, r)[0];
      assert r !in frontiers[n];
    }
    if forall r :: r in roots ==> |Targets(incoming, r)| != 1 {
      forall n, join | n in nodes && join in nodes
        ensures join in frontiers[n] <==> InFrontier(incoming, roots, n, join)
      {
        if |Targets(incoming, join)| < 2 && InFrontier(incoming, roots, n, join) {
          SingleEdgeNonRoot(nodes, roots, incoming, n, join);
          assert false;
        }
      }
    }
  }

  lemma SingleEdgeRoot(nodes: set<BlockId>, roots: set<BlockId>, incoming: EdgeMap, r: BlockId)
    requires FlowGraph(nodes, roots, incoming) && r in roots && |Targets(incoming, r)| == 1
    ensures Targets(incoming, r)[0] in nodes
    ensures InFrontier(incoming, roots, Targets(incoming, r)[0], r)
  {
    var n := Targets(incoming, r)[0];
    assert Edge(incoming, r, n);
    DomSelf(incoming, roots, n);
    if StrictDom(incoming, roots, n, r) {
      RootHasNoStrictDom(incoming, roots, n, r);
    }
    assert Escapes(incoming, roots, n, r, n);
  }

  lemma SingleEdgeNonRoot(nodes: set<BlockId>, roots: set<BlockId>, incoming: EdgeMap, n: BlockId, join: BlockId)
    requires FlowGraph(nodes, roots, incoming) && join in nodes && InFrontier(incoming, roots, n, join)
    requires |Targets(incoming, join)| < 2
    ensures join in roots && |Targets(incoming, join)| == 1
  {
    var p: BlockId :| Escapes(incoming, roots, n, join, p);
    assert p in Targets(incoming, join);
    assert |Targets(incoming, join)| == 1 && Targets(incoming, join) == [p];
    if join !in roots {
      DomFromIncoming(incoming, roots, n, join);
      assert n == join;
      SoleIncoming(nodes, roots, incoming, join, p);
    }
  }

  /** A block that is not a root is not dominated by itself through its only incoming edge. */
  lemma SoleIncoming(nodes: set<BlockId>, roots: set<BlockId>, incoming: EdgeMap, join: BlockId, p: BlockId)
    requires FlowGraph(nodes, roots, incoming) && join in nodes - roots
    requires Targets(incoming, join) == [p]
    ensures !Dom(incoming, roots, join, p)
  {
    assert FlowReachable(incoming, roots, join);
    var w :| RootPath(incoming, roots, w, join);
    var q := FirstVisit(incoming, roots, w, join);
    var k := |q| - 1;
    assert k > 0;
    assert Edge(incoming, join, q[k - 1]);
    assert q[k - 1] == p;
    RootPathPrefix(incoming, roots, q, join, k - 1);
    assert join !in q[..k - 1 + 1];
  }
}
