/** Strongly connected components by two explicit-stack searches, and the irreducible regions
    among them (Talac/Analysis/Dominance.cpp:311-442). */
module Components {
  import opened Graphs
  import opened DepthFirst
  import opened DominanceTheory
  import opened DominanceSets
  import opened BackwardSearch

  /** Each reaches the other. */
  ghost predicate Mutual(e: EdgeMap, a: BlockId, b: BlockId) {
    Reaches(e, a, b) && Reaches(e, b, a)
  }

  lemma MutualTransitive(e: EdgeMap, a: BlockId, b: BlockId, c: BlockId)
    requires Mutual(e, a, b) && Mutual(e, b, c)
    ensures Mutual(e, a, c)
  {
    ReachesTransitive(e, a, b, c);
    ReachesTransitive(e, c, b, a);
  }

  ghost predicate ClosedUnder(nodes: set<BlockId>, e: EdgeMap) {
    forall a, b :: a in nodes && Edge(e, a, b) ==> b in nodes
  }

  // ---------------------------------------------------------------------------
  // First sweep

  /** Search together with what the loop itself looks at. */
  ghost predicate Sweep(nodes: set<BlockId>, e: EdgeMap, visited: set<BlockId>, stack: seq<Frame>, bases: seq<nat>,
      finished: seq<BlockId>) {
    && Search(e, visited, stack, bases, finished)
    && visited <= nodes
  }

  lemma SweepFacts(nodes: set<BlockId>, e: EdgeMap, visited: set<BlockId>, stack: seq<Frame>, bases: seq<nat>,
      finished: seq<BlockId>)
    requires Sweep(nodes, e, visited, stack, bases, finished)
    ensures |bases| == |stack| && visited <= nodes
    ensures forall f :: f in stack ==> f.next <= |Targets(e, f.block)| && f.block in visited
  {
    forall f | f in stack
      ensures f.block in visited
    {
      assert OnStack(stack, f.block);
    }
  }

  lemma SweepStarts(nodes: set<BlockId>, e: EdgeMap, visited: set<BlockId>, finished: seq<BlockId>, start: BlockId)
    requires Sweep(nodes, e, visited, [], [], finished) && start in nodes && start !in visited
    ensures Sweep(nodes, e, visited + {start}, [Frame(start, 0)], [|finished|], finished)
  {
    hide Search;
    SearchStarts(e, visited, finished, start);
  }

  lemma SweepPushes(nodes: set<BlockId>, e: EdgeMap, visited: set<BlockId>, stack: seq<Frame>, bases: seq<nat>,
                    finished: seq<BlockId>, target: BlockId)
    requires ClosedUnder(nodes, e) && Sweep(nodes, e, visited, stack, bases, finished) && stack != []
    requires stack[|stack| - 1].block in visited
    requires stack[|stack| - 1].next < |Targets(e, stack[|stack| - 1].block)|
    requires target == Targets(e, stack[|stack| - 1].block)[stack[|stack| - 1].next] && target !in visited
    ensures target in nodes
    ensures Sweep(nodes, e, visited + {target}, Advance(stack) + [Frame(target, 0)], bases + [|finished|], finished)
  {
    hide Search;
    assert Edge(e, stack[|stack| - 1].block, target);
    SearchPushes(e, visited, stack, bases, finished, target);
  }

  lemma SweepAdvances(nodes: set<BlockId>, e: EdgeMap, visited: set<BlockId>, stack: seq<Frame>, bases: seq<nat>,
      finished: seq<BlockId>)
    requires Sweep(nodes, e, visited, stack, bases, finished) && stack != []
    requires stack[|stack| - 1].next < |Targets(e, stack[|stack| - 1].block)|
    requires Targets(e, stack[|stack| - 1].block)[stack[|stack| - 1].next] in visited
    ensures Sweep(nodes, e, visited, Advance(stack), bases, finished)
  {
    hide Search;
    SearchAdvances(e, visited, stack, bases, finished);
  }

  lemma SweepPops(nodes: set<BlockId>, e: EdgeMap, visited: set<BlockId>, stack: seq<Frame>, bases: seq<nat>,
      finished: seq<BlockId>)
    requires Sweep(nodes, e, visited, stack, bases, finished) && stack != []
    requires stack[|stack| - 1].next == |Targets(e, stack[|stack| - 1].block)|
    requires forall f :: f in stack ==> f.next <= |Targets(e, f.block)|
    ensures |bases| == |stack|
    ensures Sweep(nodes, e, visited, stack[..|stack| - 1], bases[..|stack| - 1], finished + [stack[|stack| - 1].block])
    ensures FrameWork(e, stack[..|stack| - 1]) < FrameWork(e, stack)
  {
    hide Search;
    SweepFacts(nodes, e, visited, stack, bases, finished);
    SearchPops(e, visited, stack, bases, finished);
  }

  lemma SweepTakes(e: EdgeMap, stack: seq<Frame>)
    requires stack != [] && forall f :: f in stack ==> f.next <= |Targets(e, f.block)|
    requires stack[|stack| - 1].next < |Targets(e, stack[|stack| - 1].block)|
    ensures forall f :: f in Advance(stack) ==> f.next <= |Targets(e, f.block)|
    ensures FrameWork(e, stack) == FrameWork(e, Advance(stack)) + 1
  {
    var n := |stack|;
    var lower, top := stack[..n - 1], stack[n - 1];
    var next := Frame(top.block, top.next + 1);
    assert Advance(stack) == lower + [next];
    assert forall f :: f in Advance(stack) ==> f in lower || f == next;
    FrameWorkPushed(e, lower, next);
  }

  /** The search from one block that was not visited before. */
  method Explore(ghost nodes: set<BlockId>, successors: EdgeMap, start: BlockId, visited0: set<BlockId>,
      finished0: seq<BlockId>)
    returns (visited: set<BlockId>, finished: seq<BlockId>)
    requires ClosedUnder(nodes, successors) && start in nodes && start !in visited0
    requires Sweep(nodes, successors, visited0, [], [], finished0)
    ensures Sweep(nodes, successors, visited, [], [], finished)
    ensures visited0 + {start} <= visited
  {
    hide Sweep, FrameWork, ClosedUnder, Edge;
    SweepStarts(nodes, successors, visited0, finished0, start);
    visited, finished := visited0 + {start}, finished0;
    var stack := [Frame(start, 0)];
    ghost var bases: seq<nat> := [|finished|];
    SweepFacts(nodes, successors, visited, stack, bases, finished);
    while stack != []
      invariant Sweep(nodes, successors, visited, stack, bases, finished)
      invariant |bases| == |stack| && visited <= nodes && visited0 + {start} <= visited
      invariant forall f :: f in stack ==> f.next <= |Targets(successors, f.block)| && f.block in visited
      decreases nodes - visited, FrameWork(successors, stack)
    {
      var frame := stack[|stack| - 1];
      var targets := if frame.block in successors then successors[frame.block] else [];
      if frame.next < |targets| {
        var target := targets[frame.next];
        SweepTakes(successors, stack);
        if target !in visited {
          SweepPushes(nodes, successors, visited, stack, bases, finished, target);
          visited := visited + {target};
          stack := Advance(stack) + [Frame(target, 0)];
          bases := bases + [|finished|];
        } else {
          SweepAdvances(nodes, successors, visited, stack, bases, finished);
          stack := Advance(stack);
        }
      } else {
        SweepPops(nodes, successors, visited, stack, bases, finished);
        finished := finished + [frame.block];
        bases := bases[..|stack| - 1];
        stack := stack[..|stack| - 1];
      }
      SweepFacts(nodes, successors, visited, stack, bases, finished);
    }
    assert bases == [];
  }

  method FinishOrder(nodes: set<BlockId>, successors: EdgeMap) returns (finished: seq<BlockId>)
    requires ClosedUnder(nodes, successors)
    ensures IsFinishOrder(successors, finished) && Elements(finished) == nodes
  {
    hide Sweep, IsFinishOrder, ClosedUnder;
    var visited: set<BlockId> := {};
    finished := [];
    SweepBegins(nodes, successors);
    var starts := ToVector(nodes);
    for i := 0 to |starts|
      invariant Sweep(nodes, successors, visited, [], [], finished)
      invariant forall x :: x in starts[..i] ==> x in visited
    {
      var start := starts[i];
      assert start in Elements(starts);
      assert starts[..i + 1] == starts[..i] + [start];
      if start !in visited {
        visited, finished := Explore(nodes, successors, start, visited, finished);
      }
    }
    assert starts[..|starts|] == starts;
    SweepEnds(nodes, successors, visited, finished, starts);
  }

  lemma SweepBegins(nodes: set<BlockId>, e: EdgeMap)
    ensures Sweep(nodes, e, {}, [], [], [])
  {
  }

  lemma SweepEnds(nodes: set<BlockId>, e: EdgeMap, visited: set<BlockId>, finished: seq<BlockId>, starts: seq<BlockId>)
    requires Sweep(nodes, e, visited, [], [], finished)
    requires Elements(starts) == nodes && forall x :: x in starts ==> x in visited
    ensures IsFinishOrder(e, finished) && Elements(finished) == nodes
  {
    SearchEnds(e, visited, finished);
    assert forall x :: x in nodes ==> x in starts;
  }

  // ---------------------------------------------------------------------------
  // Second sweep

  /** Closed under incoming edges. */
  ghost predicate BackwardClosed(e: EdgeMap, s: set<BlockId>) {
    forall a, b :: b in s && Edge(e, a, b) ==> a in s
  }

  /** b reaches the start of the sweep through blocks no earlier sweep took. */
  ghost predicate ReachesFresh(e: EdgeMap, b: BlockId, start: BlockId, taken: set<BlockId>) {
    exists p :: PathBetween(e, p, b, start) && forall x :: x in p ==> x !in taken
  }

  /** The state of one backward sweep from start: taken is what earlier sweeps visited. */
  ghost predicate Gathering(e: EdgeMap, start: BlockId, taken: set<BlockId>, visited: set<BlockId>,
                            component: set<BlockId>, worklist: seq<BlockId>)
  {
    && visited == taken + component + Elements(worklist)
    && start in visited
    && (forall b :: b in visited && b !in taken ==> ReachesFresh(e, b, start, taken))
    && (forall a, b :: b in component && Edge(e, a, b) ==> a in visited)
  }

  lemma GatheringStarts(e: EdgeMap, start: BlockId, taken: set<BlockId>)
    requires start !in taken
    ensures Gathering(e, start, taken, taken + {start}, {}, [start])
  {
    assert PathBetween(e, [start], start, start);
    assert ReachesFresh(e, start, start, taken);
  }

  lemma FreshEdge(e: EdgeMap, a: BlockId, b: BlockId, start: BlockId, taken: set<BlockId>)
    requires Edge(e, a, b) && a !in taken && ReachesFresh(e, b, start, taken)
    ensures ReachesFresh(e, a, start, taken)
  {
    var p :| PathBetween(e, p, b, start) && forall x :: x in p ==> x !in taken;
    assert PathBetween(e, [a, b], a, b);
    JoinPaths(e, [a, b], p, a, b, start);
    forall x | x in [a, b] + p[1..]
      ensures x !in taken
    {
      assert x == a || x == b || x in p;
      assert p[0] == b;
    }
  }

  lemma GatheringSteps(e: EdgeMap, predecessors: EdgeMap, start: BlockId, taken: set<BlockId>, visited: set<BlockId>,
                       component: set<BlockId>, worklist: seq<BlockId>, visited': set<BlockId>, worklist': seq<BlockId>)
    requires Converse(e, predecessors) && BackwardClosed(e, taken)
    requires Gathering(e, start, taken, visited, component, worklist) && worklist != []
    requires worklist[|worklist| - 1] !in taken
    requires visited' == visited + Elements(Targets(predecessors, worklist[|worklist| - 1]))
    requires forall x :: x in worklist' <==> x in worklist[..|worklist| - 1] || (x in visited' && x !in visited)
    ensures Gathering(e, start, taken, visited', component + {worklist[|worklist| - 1]}, worklist')
  {
    var block := worklist[|worklist| - 1];
    var rest := worklist[..|worklist| - 1];
    assert worklist == rest + [block];
    assert block in Elements(worklist);
    assert Elements(worklist) == Elements(rest) + {block};
    hide ReachesFresh;
    forall b | b in visited' && b !in taken
      ensures ReachesFresh(e, b, start, taken)
    {
      if b !in visited {
        assert Edge(predecessors, block, b);
        FreshEdge(e, b, block, start, taken);
      }
    }
    forall a, b | b in component + {block} && Edge(e, a, b)
      ensures a in visited'
    {
      if b == block {
        assert Edge(predecessors, block, a);
        assert a in Elements(Targets(predecessors, block));
      }
    }
  }

  /** One backward sweep from start. */
  method Gather(ghost nodes: set<BlockId>, ghost successors: EdgeMap, predecessors: EdgeMap, start: BlockId,
      taken: set<BlockId>)
    returns (visited: set<BlockId>, component: set<BlockId>)
    requires Converse(successors, predecessors) && BackwardClosed(successors, taken)
    requires ClosedUnder(nodes, predecessors)
    requires start in nodes && start !in taken && taken <= nodes
    ensures visited == taken + component && component !! taken && start in component && visited <= nodes
    ensures BackwardClosed(successors, visited)
    ensures forall b :: b in component ==> ReachesFresh(successors, b, start, taken)
  {
    hide Gathering, Converse, BackwardClosed, ClosedUnder, ReachesFresh, Targets;
    component := {};
    visited := taken + {start};
    var worklist := [start];
    GatheringStarts(successors, start, taken);
    while worklist != []
      invariant Gathering(successors, start, taken, visited, component, worklist)
      invariant taken <= visited <= nodes && component !! taken && start in visited
      invariant forall x :: x in worklist ==> x in visited && x !in taken
      decreases nodes - visited, |worklist|
    {
      var block := worklist[|worklist| - 1];
      var rest := worklist[..|worklist| - 1];
      ghost var before := visited;
      ghost var beforeList := worklist;
      assert block in worklist;
      GatheringIsBounded(nodes, predecessors, visited, block);
      visited, worklist := FloodStep(predecessors, block, visited, rest);
      GatheringSteps(successors, predecessors, start, taken, before, component, beforeList, visited, worklist);
      component := component + {block};
      assert forall x :: x in rest ==> x in beforeList;
    }
    GatheringEnds(successors, start, taken, visited, component);
  }

  lemma GatheringIsBounded(nodes: set<BlockId>, predecessors: EdgeMap, visited: set<BlockId>, block: BlockId)
    requires ClosedUnder(nodes, predecessors) && visited <= nodes && block in visited
    ensures visited + Elements(Targets(predecessors, block)) <= nodes
  {
    forall x | x in Targets(predecessors, block)
      ensures x in nodes
    {
      assert Edge(predecessors, block, x);
    }
  }

  lemma GatheringEnds(e: EdgeMap, start: BlockId, taken: set<BlockId>, visited: set<BlockId>, component: set<BlockId>)
    requires Gathering(e, start, taken, visited, component, []) && BackwardClosed(e, taken) && component !! taken
    requires start !in taken
    ensures visited == taken + component && start in component
    ensures BackwardClosed(e, visited)
    ensures forall b :: b in component ==> ReachesFresh(e, b, start, taken)
  {
    assert Elements<BlockId>([]) == {};
  }

  // ---------------------------------------------------------------------------
  // The components are the classes of mutual reachability

  /** What the sweep from order[k] gathers is reached back from order[k]. */
  lemma FreshIsMutual(e: EdgeMap, order: seq<BlockId>, k: nat, taken: set<BlockId>, b: BlockId)
    requires IsFinishOrder(e, order) && k < |order|
    requires forall x :: x in order[k + 1..] ==> x in taken
    requires b in order && ReachesFresh(e, b, order[k], taken)
    ensures Mutual(e, b, order[k])
  {
    var p :| PathBetween(e, p, b, order[k]) && forall x :: x in p ==> x !in taken;
    assert forall x, y :: x in Elements(order) && Edge(e, x, y) ==> y in Elements(order);
    ClosedSetHoldsPath(e, p, Elements(order));
    forall x | x in p
      ensures x in order[..k + 1]
    {
      assert x in Elements(order);
      assert order == order[..k + 1] + order[k + 1..];
    }
    EarlierReachesBack(e, order, k, p);
  }

  /** A backward-closed set that holds a block holds everything that reaches it. */
  lemma BackwardClosedHolds(e: EdgeMap, s: set<BlockId>, a: BlockId, b: BlockId)
    requires BackwardClosed(e, s) && b in s && Reaches(e, a, b)
    ensures a in s
  {
    var p :| PathBetween(e, p, a, b);
    FloodHoldsPath(e, s, {}, p);
  }

  /** The component gathered from order[k] is the whole class of order[k]. */
  lemma GatheredIsClass(e: EdgeMap, order: seq<BlockId>, k: nat, taken: set<BlockId>, visited: set<BlockId>,
      component: set<BlockId>)
    requires IsFinishOrder(e, order) && k < |order|
    requires forall x :: x in order[k + 1..] ==> x in taken
    requires BackwardClosed(e, taken) && BackwardClosed(e, visited) && order[k] !in taken
    requires visited == taken + component && visited <= Elements(order) && order[k] in component
    requires forall b :: b in component ==> ReachesFresh(e, b, order[k], taken)
    ensures forall b :: b in component <==> Mutual(e, b, order[k])
  {
    hide IsFinishOrder, ReachesFresh;
    forall b | b in component
      ensures Mutual(e, b, order[k])
    {
      FreshIsMutual(e, order, k, taken, b);
    }
    forall b | Mutual(e, b, order[k])
      ensures b in component
    {
      BackwardClosedHolds(e, visited, b, order[k]);
      if b in taken {
        BackwardClosedHolds(e, taken, order[k], b);
      }
    }
  }

  /** A class of mutual reachability. */
  ghost predicate IsClass(e: EdgeMap, c: set<BlockId>) {
    c != {} && forall a, b :: a in c ==> (b in c <==> Mutual(e, b, a))
  }

  lemma ClassOf(e: EdgeMap, c: set<BlockId>, start: BlockId)
    requires start in c && forall b :: b in c <==> Mutual(e, b, start)
    ensures IsClass(e, c)
  {
    forall a, b | a in c
      ensures b in c <==> Mutual(e, b, a)
    {
      if b in c {
        MutualTransitive(e, b, start, a);
      }
      if Mutual(e, b, a) {
        MutualTransitive(e, b, a, start);
      }
    }
  }

  /** Disjoint classes that together make up a set. */
  ghost predicate IsPartition(e: EdgeMap, components: seq<set<BlockId>>, all: set<BlockId>) {
    && (forall i :: 0 <= i < |components| ==> IsClass(e, components[i]))
    && (forall i, j :: 0 <= i < j < |components| ==> components[i] !! components[j])
    && (forall x :: x in all <==> exists i :: 0 <= i < |components| && x in components[i])
  }

  lemma PartitionGrows(e: EdgeMap, components: seq<set<BlockId>>, taken: set<BlockId>, c: set<BlockId>)
    requires IsPartition(e, components, taken) && IsClass(e, c) && c !! taken
    ensures IsPartition(e, components + [c], taken + c)
  {
    hide IsClass;
    var components' := components + [c];
    forall i | 0 <= i < |components|
      ensures components[i] <= taken && components'[i] == components[i]
    {
    }
    forall x | x in taken + c
      ensures exists i :: 0 <= i < |components'| && x in components'[i]
    {
      if x in taken {
        var i :| 0 <= i < |components| && x in components[i];
        assert x in components'[i];
      } else {
        assert x in components'[|components|];
      }
    }
  }

  lemma EmptyPartition(e: EdgeMap)
    ensures IsPartition(e, [], {})
  {
  }

  lemma NothingTaken(e: EdgeMap)
    ensures BackwardClosed(e, {})
  {
  }

  /** The result is exactly the partition of the nodes into classes of mutual reachability. */
  method StronglyConnectedComponents(nodes: set<BlockId>, successors: EdgeMap, predecessors: EdgeMap)
    returns (components: seq<set<BlockId>>)
    requires Converse(successors, predecessors)
    requires ClosedUnder(nodes, successors) && ClosedUnder(nodes, predecessors)
    ensures IsPartition(successors, components, nodes)
  {
    hide IsFinishOrder, IsPartition, BackwardClosed, ClosedUnder, Converse, IsClass, ReachesFresh, Mutual;
    var order := FinishOrder(nodes, successors);
    var visited: set<BlockId> := {};
    components := [];
    EmptyPartition(successors);
    NothingTaken(successors);
    var k := |order|;
    while k > 0
      invariant 0 <= k <= |order|
      invariant visited <= nodes && BackwardClosed(successors, visited)
      invariant forall x :: x in order[k..] ==> x in visited
      invariant IsPartition(successors, components, visited)
    {
      k := k - 1;
      var current := order[k];
      assert order[k..] == [current] + order[k + 1..];
      assert current in Elements(order);
      if current !in visited {
        ghost var taken := visited;
        var component;
        visited, component := Gather(nodes, successors, predecessors, current, visited);
        GatheredIsClass(successors, order, k, taken, visited, component);
        ClassOf(successors, component, current);
        PartitionGrows(successors, components, taken, component);
        components := components + [component];
      }
    }
    assert order[0..] == order;
    assert visited == nodes;
  }

  // ---------------------------------------------------------------------------
  // Cyclic components and their entries

  /** a lies on a cycle of at least one edge. */
  ghost predicate OnCycle(e: EdgeMap, a: BlockId) {
    exists b :: Edge(e, a, b) && Reaches(e, b, a)
  }

  /** True exactly when the members of the class lie on cycles. */
  method IsCyclicComponent(component: set<BlockId>, successors: EdgeMap) returns (cyclic: bool)
    requires IsClass(successors, component)
    ensures cyclic <==> forall a :: a in component ==> OnCycle(successors, a)
    ensures cyclic <==> exists a :: a in component && OnCycle(successors, a)
  {
    var members := ToVector(component);
    AscendingIsDistinct(members);
    DistinctSize(members);
    assert forall i :: 0 <= i < |members| ==> members[i] in Elements(members);
    hide IsClass, OnCycle, Edge;
    if |component| > 1 {
      ManyMembersCycle(successors, component, members[0], members[1]);
      return true;
    }
    if component == {} {
      IsClassNotEmpty(successors, component);
    }
    var block := members[0];
    assert component == {block} by {
      assert |members| == 1 && members == [block];
      assert Elements([block]) == {block};
    }
    var found := Targets(successors, block);
    cyclic := block in found;
    OneMemberCycle(successors, block);
  }

  lemma IsClassNotEmpty(e: EdgeMap, c: set<BlockId>)
    requires IsClass(e, c)
    ensures c != {}
  {
  }

  lemma ManyMembersCycle(e: EdgeMap, c: set<BlockId>, x: BlockId, y: BlockId)
    requires IsClass(e, c) && x in c && y in c && x != y
    ensures forall a :: a in c ==> OnCycle(e, a)
  {
    forall a | a in c
      ensures OnCycle(e, a)
    {
      var b := if a == x then y else x;
      assert Mutual(e, b, a);
      var p :| PathBetween(e, p, a, b);
      assert |p| > 1;
      assert Edge(e, p[0], p[1]);
      SliceIsPath(e, p, 1, |p| - 1);
      assert Reaches(e, p[1], b);
      ReachesTransitive(e, p[1], b, a);
    }
  }

  lemma OneMemberCycle(e: EdgeMap, a: BlockId)
    requires IsClass(e, {a})
    ensures OnCycle(e, a) <==> a in Targets(e, a)
  {
    if OnCycle(e, a) {
      var b :| Edge(e, a, b) && Reaches(e, b, a);
      ReachesEdge(e, a, b);
      assert Mutual(e, b, a);
      assert b in {a};
    }
    if a in Targets(e, a) {
      ReachesSelf(e, a);
      assert Edge(e, a, a);
    }
  }

  /** m is a member with an incoming edge from outside. */
  ghost predicate IsEntry(predecessors: EdgeMap, component: set<BlockId>, m: BlockId) {
    m in component && exists s :: Edge(predecessors, m, s) && s !in component
  }

  method RegionEntries(component: set<BlockId>, predecessors: EdgeMap) returns (entries: set<BlockId>)
    ensures forall m :: m in entries <==> IsEntry(predecessors, component, m)
  {
    entries := {};
    var order := ToVector(component);
    for i := 0 to |order|
      invariant forall m :: m in entries <==> m in Elements(order[..i]) && IsEntry(predecessors, component, m)
    {
      ElementsPrefix(order, i);
      var member := order[i];
      assert member in Elements(order);
      if exists s :: s in Targets(predecessors, member) && s !in component {
        assert IsEntry(predecessors, component, member) by {
          var s: BlockId :| s in Targets(predecessors, member) && s !in component;
          assert Edge(predecessors, member, s);
        }
        entries := entries + {member};
      }
    }
    assert order[..|order|] == order;
  }

  /** Some member dominates every member. */
  predicate HasDominatingHeader(component: set<BlockId>, dominators: BlockSets)
    requires component <= dominators.Keys
  {
    exists candidate :: candidate in component && forall member :: member in component ==>
        candidate in dominators[member]
  }

  ghost predicate IsHeader(entry: BlockId, predecessors: EdgeMap, component: set<BlockId>, h: BlockId) {
    h in component && forall m :: m in component ==> Dom(predecessors, {entry}, h, m)
  }

  lemma HeaderMeans(nodes: set<BlockId>, entry: BlockId, predecessors: EdgeMap, dominators: BlockSets,
      component: set<BlockId>)
    requires IsDominators(nodes, {entry}, predecessors, dominators) && component <= nodes
    ensures HasDominatingHeader(component, dominators) <==> exists h :: IsHeader(entry, predecessors, component, h)
  {
    if HasDominatingHeader(component, dominators) {
      var h: BlockId :| h in component && forall member :: member in component ==> h in dominators[member];
      assert IsHeader(entry, predecessors, component, h);
    }
  }

  // ---------------------------------------------------------------------------
  // No dominating header is the same as several entries

  /** The block an edge into a class leaves from belongs to it when the class reaches that block. */
  lemma ClassAbsorbs(e: EdgeMap, c: set<BlockId>, x: BlockId, s: BlockId, m: BlockId)
    requires IsClass(e, c) && x in c && m in c && Reaches(e, x, s) && Edge(e, s, m)
    ensures s in c
  {
    assert Mutual(e, m, x);
    ReachesEdge(e, s, m);
    ReachesTransitive(e, s, m, x);
    assert Mutual(e, s, x);
  }

  /** The class of the graph entry is entered from nowhere and headed by the entry. */
  lemma EntryHeadsItsClass(nodes: set<BlockId>, entry: BlockId, successors: EdgeMap, predecessors: EdgeMap,
      c: set<BlockId>)
    requires FlowGraph(nodes, {entry}, predecessors) && Converse(successors, predecessors)
    requires IsClass(successors, c) && c <= nodes && entry in c
    ensures IsHeader(entry, predecessors, c, entry)
    ensures forall m :: !IsEntry(predecessors, c, m)
  {
    forall m | m in c
      ensures Dom(predecessors, {entry}, entry, m)
    {
      forall p | RootPath(predecessors, {entry}, p, m)
        ensures entry in p
      {
        assert p[0] == entry;
      }
    }
    forall m, s | m in c && Edge(predecessors, m, s)
      ensures s in c
    {
      assert FlowReachable(predecessors, {entry}, s);
      var p :| RootPath(predecessors, {entry}, p, s);
      PathsAreFlows(successors, predecessors, p);
      assert PathBetween(successors, p, entry, s);
      assert Edge(successors, s, m);
      ClassAbsorbs(successors, c, entry, s, m);
    }
  }

  /** Every path from the entry into a class first steps on one of its entries. */
  lemma {:induction false} PathMeetsEntry(entry: BlockId, predecessors: EdgeMap, c: set<BlockId>, p: seq<BlockId>)
      returns (m: BlockId)
    requires FlowPath(predecessors, p) && p[0] !in c && p[|p| - 1] in c
    ensures m in p && IsEntry(predecessors, c, m)
    decreases |p|
  {
    var k := |p| - 1;
    assert Edge(predecessors, p[k], p[k - 1]);
    if p[k - 1] in c {
      m := PathMeetsEntry(entry, predecessors, c, p[..k]);
    } else {
      m := p[k];
    }
  }

  /** A class that does not hold the graph entry and has only one entry is headed by it. */
  lemma SoleEntryIsHeader(nodes: set<BlockId>, entry: BlockId, predecessors: EdgeMap, c: set<BlockId>, m: BlockId)
    requires FlowGraph(nodes, {entry}, predecessors) && entry !in c && m in c
    requires forall x :: IsEntry(predecessors, c, x) ==> x == m
    ensures IsHeader(entry, predecessors, c, m)
  {
    forall n | n in c
      ensures Dom(predecessors, {entry}, m, n)
    {
      forall p | RootPath(predecessors, {entry}, p, n)
        ensures m in p
      {
        var x := PathMeetsEntry(entry, predecessors, c, p);
      }
    }
  }

  /** With two entries nothing heads the class: each can be entered without the other. */
  lemma TwoEntriesNoHeader(nodes: set<BlockId>, entry: BlockId, successors: EdgeMap, predecessors: EdgeMap,
      c: set<BlockId>,
                           a: BlockId, b: BlockId, h: BlockId)
    requires FlowGraph(nodes, {entry}, predecessors) && Converse(successors, predecessors)
    requires IsClass(successors, c) && c <= nodes
    requires IsEntry(predecessors, c, a) && IsEntry(predecessors, c, b) && a != b
    ensures !IsHeader(entry, predecessors, c, h)
  {
    if IsHeader(entry, predecessors, c, h) {
      var m := if h == a then b else a;
      var s :| Edge(predecessors, m, s) && s !in c;
      assert Dom(predecessors, {entry}, h, m);
      HeaderReachesOutside(nodes, entry, successors, predecessors, h, m, s);
      assert Edge(successors, s, m);
      hide IsHeader, IsEntry, IsClass;
      ClassAbsorbs(successors, c, h, s, m);
    }
  }

  /** A dominator of m other than m itself lies on every path to an incoming neighbour of m. */
  lemma HeaderReachesOutside(nodes: set<BlockId>, entry: BlockId, successors: EdgeMap, predecessors: EdgeMap,
                             h: BlockId, m: BlockId, s: BlockId)
    requires FlowGraph(nodes, {entry}, predecessors) && Converse(successors, predecessors)
    requires m in nodes && Dom(predecessors, {entry}, h, m) && h != m && Edge(predecessors, m, s)
    ensures Reaches(successors, h, s)
  {
    assert FlowReachable(predecessors, {entry}, s);
    var q :| RootPath(predecessors, {entry}, q, s);
    ExtendRootPath(predecessors, {entry}, q, s, m);
    assert h in q + [m];
    var i :| 0 <= i < |q| && q[i] == h;
    FlowPathSuffix(predecessors, q, i);
    PathsAreFlows(successors, predecessors, q[i..]);
    assert PathBetween(successors, q[i..], h, s);
  }

  /** A strongly connected component has no dominating header exactly when it has at least two
      entries; such a component does not hold the graph entry. */
  lemma IrreducibleIffTwoEntries(nodes: set<BlockId>, entry: BlockId, successors: EdgeMap, predecessors: EdgeMap,
                                 c: set<BlockId>, entries: set<BlockId>)
    requires FlowGraph(nodes, {entry}, predecessors) && Converse(successors, predecessors)
    requires IsClass(successors, c) && c <= nodes
    requires forall m :: m in entries <==> IsEntry(predecessors, c, m)
    ensures (exists h :: IsHeader(entry, predecessors, c, h)) <==> |entries| < 2
    ensures |entries| >= 2 ==> entry !in c
  {
    if entry in c {
      EntryHeadsItsClass(nodes, entry, successors, predecessors, c);
      assert entries == {};
    } else {
      assert exists m :: m in entries by {
        var x :| x in c;
        assert FlowReachable(predecessors, {entry}, x);
        var p :| RootPath(predecessors, {entry}, p, x);
        var m := PathMeetsEntry(entry, predecessors, c, p);
      }
      var a :| a in entries;
      if entries == {a} {
        SoleEntryIsHeader(nodes, entry, predecessors, c, a);
      } else {
        var b :| b in entries && b != a;
        SizeOfPair(entries, a, b);
        forall h
          ensures !IsHeader(entry, predecessors, c, h)
        {
          TwoEntriesNoHeader(nodes, entry, successors, predecessors, c, a, b, h);
        }
      }
    }
  }

  lemma SizeOfPair(s: set<BlockId>, a: BlockId, b: BlockId)
    requires a in s && b in s && a != b
    ensures |s| >= 2
  {
    assert s == {a, b} + (s - {a, b});
    assert |{a, b}| == 2;
  }
}
