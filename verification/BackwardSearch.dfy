/** The three backward floods of Talac/Analysis/Dominance.cpp: from the exits, from a latch
    up to its header, and from the last unvisited block of a finish order. */
module BackwardSearch {
  import opened Graphs
  import opened DominanceTheory

  /** The two edge maps describe the same edges. */
  ghost predicate Converse(successors: EdgeMap, predecessors: EdgeMap) {
    forall a, b :: Edge(successors, a, b) <==> Edge(predecessors, b, a)
  }

  lemma PathsAreFlows(successors: EdgeMap, predecessors: EdgeMap, p: seq<BlockId>)
    requires Converse(successors, predecessors)
    ensures IsPath(successors, p) <==> FlowPath(predecessors, p)
  {
    if FlowPath(predecessors, p) {
      forall i | 0 <= i < |p| - 1
        ensures Edge(successors, p[i], p[i + 1])
      {
        assert Edge(predecessors, p[i + 1], p[i + 1 - 1]);
      }
    }
  }

  /** Walking a path backwards stays in a set that holds its end and all that leads into it,
      as long as the path avoids the barrier. */
  lemma {:induction false} FloodHoldsPath(successors: EdgeMap, s: set<BlockId>, barrier: set<BlockId>, p: seq<BlockId>)
    requires IsPath(successors, p) && p[|p| - 1] in s
    requires forall a, b :: b in s && b !in barrier && Edge(successors, a, b) ==> a in s
    requires forall x :: x in p ==> x !in barrier
    ensures p[0] in s
    decreases |p|
  {
    if |p| > 1 {
      SliceIsPath(successors, p, 1, |p| - 1);
      assert p[1..] == p[1..|p| - 1 + 1];
      assert forall x :: x in p[1..] ==> x in p;
      FloodHoldsPath(successors, s, barrier, p[1..]);
      assert Edge(successors, p[0], p[1]);
      assert p[1] in p;
    }
  }

  ghost predicate ReachesOneOf(successors: EdgeMap, a: BlockId, ends: seq<BlockId>) {
    exists x :: x in ends && Reaches(successors, a, x)
  }

  lemma EdgeReachesOneOf(successors: EdgeMap, a: BlockId, b: BlockId, ends: seq<BlockId>)
    requires Edge(successors, a, b) && ReachesOneOf(successors, b, ends)
    ensures ReachesOneOf(successors, a, ends)
  {
    var x: BlockId :| x in ends && Reaches(successors, b, x);
    ReachesEdge(successors, a, b);
    ReachesTransitive(successors, a, b, x);
  }

  /** The state of the flood from the exits. */
  ghost predicate ExitFlood(nodes: set<BlockId>, successors: EdgeMap, exits: seq<BlockId>, found: set<BlockId>,
      worklist: seq<BlockId>) {
    && found <= nodes
    && (forall x :: x in exits ==> x in found)
    && (forall x :: x in worklist ==> x in found)
    && (forall x :: x in found ==> ReachesOneOf(successors, x, exits))
    && (forall a, b :: b in found && b !in worklist && Edge(successors, a, b) ==> a in found)
  }

  lemma ExitFloodStarts(nodes: set<BlockId>, successors: EdgeMap, exits: seq<BlockId>)
    requires forall x :: x in exits ==> x in nodes
    ensures ExitFlood(nodes, successors, exits, Elements(exits), exits)
  {
    forall x | x in exits
      ensures ReachesOneOf(successors, x, exits)
    {
      ReachesSelf(successors, x);
    }
  }

  /** One popped block: its predecessors join the found set, the new ones the worklist. */
  method FloodStep(predecessors: EdgeMap, current: BlockId, found: set<BlockId>, rest: seq<BlockId>)
    returns (found': set<BlockId>, worklist': seq<BlockId>)
    ensures found' == found + Elements(Targets(predecessors, current))
    ensures forall x :: x in worklist' <==> x in rest || (x in found' && x !in found)
    ensures found' == found ==> worklist' == rest
  {
    found', worklist' := found, rest;
    var sources := Targets(predecessors, current);
    for i := 0 to |sources|
      invariant found' == found + Elements(sources[..i])
      invariant forall x :: x in worklist' <==> x in rest || (x in found' && x !in found)
      invariant found' == found ==> worklist' == rest
    {
      ElementsPrefix(sources, i);
      if sources[i] !in found' {
        found' := found' + {sources[i]};
        worklist' := worklist' + [sources[i]];
      }
    }
    assert sources[..|sources|] == sources;
  }

  lemma ExitFloodSteps(nodes: set<BlockId>, successors: EdgeMap, predecessors: EdgeMap, exits: seq<BlockId>,
                       found: set<BlockId>, worklist: seq<BlockId>, found': set<BlockId>, worklist': seq<BlockId>)
    requires Converse(successors, predecessors) && ExitFlood(nodes, successors, exits, found, worklist)
      && worklist != []
    requires forall a, b :: b in nodes && Edge(successors, a, b) ==> a in nodes
    requires found' == found + Elements(Targets(predecessors, worklist[|worklist| - 1]))
    requires forall x :: x in worklist' <==> x in worklist[..|worklist| - 1] || (x in found' && x !in found)
    ensures ExitFlood(nodes, successors, exits, found', worklist')
  {
    var current := worklist[|worklist| - 1];
    var rest := worklist[..|worklist| - 1];
    assert worklist == rest + [current];
    assert current in worklist;
    forall x | x in found'
      ensures x in nodes && ReachesOneOf(successors, x, exits)
    {
      if x !in found {
        assert Edge(predecessors, current, x);
        EdgeReachesOneOf(successors, x, current, exits);
      }
    }
    forall a, b | b in found' && b !in worklist' && Edge(successors, a, b)
      ensures a in found'
    {
      assert b in found;
      if b == current {
        assert Edge(predecessors, current, a);
      }
    }
  }

  /** True exactly when there is an exit and every node can reach one. */
  method EveryReachableBlockCanReachAnExit(nodes: set<BlockId>, exits: seq<BlockId>, ghost successors: EdgeMap,
      predecessors: EdgeMap)
    returns (all: bool)
    requires Converse(successors, predecessors)
    requires forall x :: x in exits ==> x in nodes
    requires forall a, b :: b in nodes && Edge(successors, a, b) ==> a in nodes
    ensures all <==> exits != [] && forall n :: n in nodes ==> ReachesOneOf(successors, n, exits)
  {
    if exits == [] {
      return false;
    }
    var reachesExit := Elements(exits);
    var worklist := exits;
    ExitFloodStarts(nodes, successors, exits);
    hide ExitFlood, Converse, ReachesOneOf, Targets;
    ExitFloodIsBounded(nodes, successors, exits, reachesExit, worklist);
    while worklist != []
      invariant ExitFlood(nodes, successors, exits, reachesExit, worklist)
      invariant reachesExit <= nodes
      decreases nodes - reachesExit, |worklist|
    {
      var current := worklist[|worklist| - 1];
      var rest := worklist[..|worklist| - 1];
      ghost var before := reachesExit;
      ghost var beforeList := worklist;
      reachesExit, worklist := FloodStep(predecessors, current, reachesExit, rest);
      ExitFloodSteps(nodes, successors, predecessors, exits, before, beforeList, reachesExit, worklist);
      ExitFloodIsBounded(nodes, successors, exits, reachesExit, worklist);
    }
    ExitFloodEnds(nodes, successors, exits, reachesExit);
    all := reachesExit == nodes;
  }

  lemma ExitFloodIsBounded(nodes: set<BlockId>, successors: EdgeMap, exits: seq<BlockId>, found: set<BlockId>,
      worklist: seq<BlockId>)
    requires ExitFlood(nodes, successors, exits, found, worklist)
    ensures found <= nodes
  {
  }

  lemma ExitFloodEnds(nodes: set<BlockId>, successors: EdgeMap, exits: seq<BlockId>, found: set<BlockId>)
    requires ExitFlood(nodes, successors, exits, found, [])
    ensures found == nodes <==> forall n :: n in nodes ==> ReachesOneOf(successors, n, exits)
  {
    forall n | n in nodes && ReachesOneOf(successors, n, exits)
      ensures n in found
    {
      var x: BlockId :| x in exits && Reaches(successors, n, x);
      var p :| PathBetween(successors, p, n, x);
      FloodHoldsPath(successors, found, {}, p);
    }
  }

  // ---------------------------------------------------------------------------
  // Natural loops

  /** m reaches the latch without passing the header. */
  ghost predicate ReachesAvoiding(successors: EdgeMap, m: BlockId, latch: BlockId, header: BlockId) {
    exists p :: PathBetween(successors, p, m, latch) && header !in p
  }

  /** The textbook natural loop of the edge latch -> header. */
  ghost predicate InLoop(successors: EdgeMap, header: BlockId, latch: BlockId, m: BlockId) {
    m == header || ReachesAvoiding(successors, m, latch, header)
  }

  ghost predicate LoopFlood(successors: EdgeMap, header: BlockId, latch: BlockId, members: set<BlockId>,
      worklist: seq<BlockId>) {
    && header in members && latch in members && header !in worklist
    && (forall x :: x in worklist ==> x in members)
    && (forall x :: x in members ==> InLoop(successors, header, latch, x))
    && (forall a, b :: b in members && b != header && b !in worklist && Edge(successors, a, b) ==> a in members)
  }

  lemma LoopFloodStarts(successors: EdgeMap, header: BlockId, latch: BlockId)
    ensures LoopFlood(successors, header, latch, {header, latch}, if latch != header then [latch] else [])
  {
    if latch != header {
      assert PathBetween(successors, [latch], latch, latch);
    }
  }

  lemma EdgeInLoop(successors: EdgeMap, header: BlockId, latch: BlockId, a: BlockId, b: BlockId)
    requires Edge(successors, a, b) && b != header && InLoop(successors, header, latch, b)
    ensures InLoop(successors, header, latch, a)
  {
    if a != header {
      var p :| PathBetween(successors, p, b, latch) && header !in p;
      assert PathBetween(successors, [a, b], a, b);
      JoinPaths(successors, [a, b], p, a, b, latch);
      assert forall x :: x in p[1..] ==> x in p;
      assert header !in [a, b] + p[1..];
    }
  }

  lemma LoopFloodSteps(successors: EdgeMap, predecessors: EdgeMap, header: BlockId, latch: BlockId,
                       members: set<BlockId>, worklist: seq<BlockId>, members': set<BlockId>, worklist': seq<BlockId>)
    requires Converse(successors, predecessors) && LoopFlood(successors, header, latch, members, worklist)
      && worklist != []
    requires members' == members + Elements(Targets(predecessors, worklist[|worklist| - 1]))
    requires forall x :: x in worklist' <==> x in worklist[..|worklist| - 1] || (x in members' && x !in members)
    ensures LoopFlood(successors, header, latch, members', worklist')
  {
    var current := worklist[|worklist| - 1];
    var rest := worklist[..|worklist| - 1];
    assert worklist == rest + [current];
    assert current in worklist && current != header;
    hide InLoop;
    forall x | x in members'
      ensures InLoop(successors, header, latch, x)
    {
      if x !in members {
        assert Edge(predecessors, current, x);
        EdgeInLoop(successors, header, latch, x, current);
      }
    }
    forall a, b | b in members' && b != header && b !in worklist' && Edge(successors, a, b)
      ensures a in members'
    {
      assert b in members;
      if b == current {
        assert Edge(predecessors, current, a);
      }
    }
  }

  lemma LoopFloodEnds(successors: EdgeMap, header: BlockId, latch: BlockId, members: set<BlockId>)
    requires LoopFlood(successors, header, latch, members, [])
    ensures forall m :: m in members <==> InLoop(successors, header, latch, m)
  {
    forall m | InLoop(successors, header, latch, m)
      ensures m in members
    {
      if m != header {
        var p :| PathBetween(successors, p, m, latch) && header !in p;
        FloodHoldsPath(successors, members, {header}, p);
      }
    }
  }

  lemma LoopFloodIsBounded(nodes: set<BlockId>, predecessors: EdgeMap, members: set<BlockId>, current: BlockId)
    requires members <= nodes && current in members
    requires forall n, p :: n in nodes && Edge(predecessors, n, p) ==> p in nodes
    ensures members + Elements(Targets(predecessors, current)) <= nodes
  {
    forall x | x in Targets(predecessors, current)
      ensures x in nodes
    {
      assert Edge(predecessors, current, x);
    }
  }

  method NaturalLoopMembers(header: BlockId, latch: BlockId, ghost nodes: set<BlockId>, ghost successors: EdgeMap,
      predecessors: EdgeMap)
    returns (members: set<BlockId>)
    requires Converse(successors, predecessors) && header in nodes && latch in nodes
    requires forall n, p :: n in nodes && Edge(predecessors, n, p) ==> p in nodes
    ensures members <= nodes
    ensures forall m :: m in members <==> InLoop(successors, header, latch, m)
  {
    hide LoopFlood, InLoop, Converse, Targets;
    members := {header, latch};
    var worklist := if latch != header then [latch] else [];
    LoopFloodStarts(successors, header, latch);
    while worklist != []
      invariant LoopFlood(successors, header, latch, members, worklist)
      invariant members <= nodes
      invariant forall x :: x in worklist ==> x in members
      decreases nodes - members, |worklist|
    {
      var current := worklist[|worklist| - 1];
      var rest := worklist[..|worklist| - 1];
      ghost var before := members;
      ghost var beforeList := worklist;
      assert current in worklist;
      LoopFloodIsBounded(nodes, predecessors, members, current);
      members, worklist := FloodStep(predecessors, current, members, rest);
      LoopFloodSteps(successors, predecessors, header, latch, before, beforeList, members, worklist);
    }
    LoopFloodEnds(successors, header, latch, members);
  }

  /** When the header dominates the latch it dominates the whole loop: the only way in is
      through the header. */
  lemma HeaderDominatesLoop(entry: BlockId, successors: EdgeMap, predecessors: EdgeMap, header: BlockId,
      latch: BlockId, m: BlockId)
    requires Converse(successors, predecessors)
    requires Dom(predecessors, {entry}, header, latch) && InLoop(successors, header, latch, m)
    ensures Dom(predecessors, {entry}, header, m)
  {
    if m == header {
      DomSelf(predecessors, {entry}, m);
    } else {
      var p :| PathBetween(successors, p, m, latch) && header !in p;
      PathsAreFlows(successors, predecessors, p);
      forall q | RootPath(predecessors, {entry}, q, m)
        ensures header in q
      {
        JoinRootPath(predecessors, {entry}, q, p, m);
        assert header in q + p[1..];
        assert header in p[1..] ==> header in p;
      }
    }
  }

  /** t is where an edge that leaves the members leads. */
  ghost predicate IsExitTarget(successors: EdgeMap, members: set<BlockId>, t: BlockId) {
    t !in members && exists m :: m in members && Edge(successors, m, t)
  }

  /** The targets of edges that leave the members. */
  method LoopExits(members: set<BlockId>, successors: EdgeMap) returns (exits: set<BlockId>)
    ensures forall t :: t in exits <==> IsExitTarget(successors, members, t)
  {
    exits := {};
    var order := ToVector(members);
    for i := 0 to |order|
      invariant forall t :: t in exits <==>
        t !in members && exists m :: m in Elements(order[..i]) && Edge(successors, m, t)
    {
      ElementsPrefix(order, i);
      var targets := Targets(successors, order[i]);
      ghost var before := exits;
      for k := 0 to |targets|
        invariant forall t :: t in exits <==> t in before || (t !in members && t in targets[..k])
      {
        assert targets[..k + 1] == targets[..k] + [targets[k]];
        if targets[k] !in members {
          exits := exits + {targets[k]};
        }
      }
      assert targets[..|targets|] == targets;
      assert forall t :: t in targets <==> Edge(successors, order[i], t);
    }
    assert order[..|order|] == order;
  }
}
