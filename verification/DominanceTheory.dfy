/** Dominance as a statement about paths, and the facts about it that the iterative
    algorithms rely on. A flow graph is given by its incoming edges and its roots, so that the
    same theory serves dominators (root: the entry, incoming edges: predecessors) and
    post-dominators (roots: the exits, incoming edges: successors). */
module DominanceTheory {
  import opened Graphs

  /** A walk along the flow: every element is an incoming neighbour of the next. */
  ghost predicate FlowPath(incoming: EdgeMap, p: seq<BlockId>) {
    |p| > 0 && forall i :: 0 < i < |p| ==> Edge(incoming, p[i], p[i - 1])
  }

  ghost predicate RootPath(incoming: EdgeMap, roots: set<BlockId>, p: seq<BlockId>, n: BlockId) {
    FlowPath(incoming, p) && p[0] in roots && p[|p| - 1] == n
  }

  ghost predicate FlowReachable(incoming: EdgeMap, roots: set<BlockId>, n: BlockId) {
    exists p :: RootPath(incoming, roots, p, n)
  }

  /** Every path from a root to n passes d. */
  ghost predicate Dom(incoming: EdgeMap, roots: set<BlockId>, d: BlockId, n: BlockId) {
    forall p :: RootPath(incoming, roots, p, n) ==> d in p
  }

  ghost predicate StrictDom(incoming: EdgeMap, roots: set<BlockId>, d: BlockId, n: BlockId) {
    d != n && Dom(incoming, roots, d, n)
  }

  /** Every node is reached from a root, and edges stay among the nodes. */
  ghost predicate FlowGraph(nodes: set<BlockId>, roots: set<BlockId>, incoming: EdgeMap) {
    && roots <= nodes
    && (forall n :: n in nodes ==> FlowReachable(incoming, roots, n))
    && (forall n, p :: n in nodes && Edge(incoming, n, p) ==> p in nodes)
  }

  // ---------------------------------------------------------------------------
  // Paths

  lemma RootItself(incoming: EdgeMap, roots: set<BlockId>, r: BlockId)
    requires r in roots
    ensures RootPath(incoming, roots, [r], r)
  {
  }

  lemma ExtendRootPath(incoming: EdgeMap, roots: set<BlockId>, p: seq<BlockId>, n: BlockId, m: BlockId)
    requires RootPath(incoming, roots, p, n) && Edge(incoming, m, n)
    ensures RootPath(incoming, roots, p + [m], m)
  {
  }

  lemma RootPathPrefix(incoming: EdgeMap, roots: set<BlockId>, p: seq<BlockId>, n: BlockId, i: nat)
    requires RootPath(incoming, roots, p, n) && i < |p|
    ensures RootPath(incoming, roots, p[..i + 1], p[i])
  {
  }

  lemma JoinRootPath(incoming: EdgeMap, roots: set<BlockId>, p: seq<BlockId>, q: seq<BlockId>, n: BlockId)
    requires RootPath(incoming, roots, p, n) && FlowPath(incoming, q) && q[0] == n
    ensures RootPath(incoming, roots, p + q[1..], q[|q| - 1])
  {
    var r := p + q[1..];
    forall i | 0 < i < |r|
      ensures Edge(incoming, r[i], r[i - 1])
    {
      if i >= |p| {
        assert r[i] == q[i - |p| + 1];
        assert r[i - 1] == q[i - |p|];
      }
    }
  }

  lemma FlowPathSuffix(incoming: EdgeMap, p: seq<BlockId>, i: nat)
    requires FlowPath(incoming, p) && i < |p|
    ensures FlowPath(incoming, p[i..])
  {
  }

  // ---------------------------------------------------------------------------
  // The relation

  lemma DomSelf(incoming: EdgeMap, roots: set<BlockId>, n: BlockId)
    ensures Dom(incoming, roots, n, n)
  {
  }

  lemma RootHasNoStrictDom(incoming: EdgeMap, roots: set<BlockId>, d: BlockId, r: BlockId)
    requires r in roots && Dom(incoming, roots, d, r)
    ensures d == r
  {
    RootItself(incoming, roots, r);
  }

  lemma DomIsNode(nodes: set<BlockId>, roots: set<BlockId>, incoming: EdgeMap, d: BlockId, n: BlockId)
    requires FlowGraph(nodes, roots, incoming) && n in nodes && Dom(incoming, roots, d, n)
    ensures d in nodes
  {
    var p :| RootPath(incoming, roots, p, n);
    PathInNodes(nodes, roots, incoming, p, n);
  }

  lemma {:induction false} PathInNodes(nodes: set<BlockId>, roots: set<BlockId>, incoming: EdgeMap, p: seq<BlockId>,
      n: BlockId)
    requires FlowGraph(nodes, roots, incoming) && n in nodes && RootPath(incoming, roots, p, n)
    ensures forall x :: x in p ==> x in nodes
    decreases |p|
  {
    var k := |p| - 1;
    if k > 0 {
      assert Edge(incoming, p[k], p[k - 1]);
      RootPathPrefix(incoming, roots, p, n, k - 1);
      assert p[..k - 1 + 1] == p[..k];
      PathInNodes(nodes, roots, incoming, p[..k], p[k - 1]);
      assert p == p[..k] + [n];
    }
  }

  /** A dominator of n other than n itself dominates every incoming neighbour of n. */
  lemma DomOfIncoming(incoming: EdgeMap, roots: set<BlockId>, d: BlockId, n: BlockId, m: BlockId)
    requires StrictDom(incoming, roots, d, n) && Edge(incoming, n, m)
    ensures Dom(incoming, roots, d, m)
  {
    forall p | RootPath(incoming, roots, p, m)
      ensures d in p
    {
      ExtendRootPath(incoming, roots, p, m, n);
      assert d in p + [n];
    }
  }

  /** What dominates every incoming neighbour of a block that is not a root dominates it. */
  lemma DomFromIncoming(incoming: EdgeMap, roots: set<BlockId>, d: BlockId, n: BlockId)
    requires n !in roots && forall m :: Edge(incoming, n, m) ==> Dom(incoming, roots, d, m)
    ensures Dom(incoming, roots, d, n)
  {
    forall p | RootPath(incoming, roots, p, n)
      ensures d in p
    {
      var k := |p| - 1;
      assert k > 0;
      assert Edge(incoming, n, p[k - 1]);
      RootPathPrefix(incoming, roots, p, n, k - 1);
      assert d in p[..k - 1 + 1];
    }
  }

  lemma DomTransitive(incoming: EdgeMap, roots: set<BlockId>, a: BlockId, b: BlockId, c: BlockId)
    requires Dom(incoming, roots, a, b) && Dom(incoming, roots, b, c)
    ensures Dom(incoming, roots, a, c)
  {
    forall p | RootPath(incoming, roots, p, c)
      ensures a in p
    {
      var i :| 0 <= i < |p| && p[i] == b;
      RootPathPrefix(incoming, roots, p, c, i);
      assert a in p[..i + 1];
    }
  }

  /** Cutting a root path at the first visit of its end. */
  lemma {:induction false} FirstVisit(incoming: EdgeMap, roots: set<BlockId>, p: seq<BlockId>, n: BlockId)
      returns (q: seq<BlockId>)
    requires RootPath(incoming, roots, p, n)
    ensures RootPath(incoming, roots, q, n) && forall k :: 0 <= k < |q| - 1 ==> q[k] != n
    decreases |p|
  {
    if i: nat :| i < |p| - 1 && p[i] == n {
      RootPathPrefix(incoming, roots, p, n, i);
      q := FirstVisit(incoming, roots, p[..i + 1], n);
    } else {
      q := p;
    }
  }

  lemma DomAntisymmetric(incoming: EdgeMap, roots: set<BlockId>, a: BlockId, b: BlockId)
    requires FlowReachable(incoming, roots, b)
    requires Dom(incoming, roots, a, b) && Dom(incoming, roots, b, a)
    ensures a == b
  {
    var p :| RootPath(incoming, roots, p, b);
    var q := FirstVisit(incoming, roots, p, b);
    assert a in q;
    var i :| 0 <= i < |q| && q[i] == a;
    RootPathPrefix(incoming, roots, q, b, i);
    assert b in q[..i + 1];
    var k :| 0 <= k < |q[..i + 1]| && q[..i + 1][k] == b;
    assert q[k] == b;
  }

  /** Where on a path a or b is met last. */
  lemma {:induction false} LastOf(p: seq<BlockId>, a: BlockId, b: BlockId) returns (i: nat)
    requires a in p
    ensures i < |p| && (p[i] == a || p[i] == b)
    ensures a !in p[i + 1..] && b !in p[i + 1..]
    decreases |p|
  {
    var k := |p| - 1;
    if p[k] == a || p[k] == b {
      i := k;
    } else {
      assert p == p[..k] + [p[k]];
      i := LastOf(p[..k], a, b);
      assert p[i + 1..] == p[..k][i + 1..] + [p[k]];
    }
  }

  /** If some path to b avoids a and b is met after a on the way to n, a does not dominate n. */
  lemma AvoidingPath(incoming: EdgeMap, roots: set<BlockId>, a: BlockId, b: BlockId, p: seq<BlockId>, n: BlockId,
      i: nat)
    requires RootPath(incoming, roots, p, n) && i < |p| && p[i] == b && a !in p[i + 1..]
    requires Dom(incoming, roots, a, n)
    ensures Dom(incoming, roots, a, b)
  {
    forall q | RootPath(incoming, roots, q, b)
      ensures a in q
    {
      FlowPathSuffix(incoming, p, i);
      JoinRootPath(incoming, roots, q, p[i..], b);
      assert p[i..][1..] == p[i + 1..];
      assert a in q + p[i + 1..];
    }
  }

  /** The dominators of a block form a chain, with one root or with many. */
  lemma DominatorsFormChain(incoming: EdgeMap, roots: set<BlockId>, a: BlockId, b: BlockId, n: BlockId)
    requires FlowReachable(incoming, roots, n)
    requires Dom(incoming, roots, a, n) && Dom(incoming, roots, b, n)
    ensures Dom(incoming, roots, a, b) || Dom(incoming, roots, b, a)
  {
    var p :| RootPath(incoming, roots, p, n);
    var i := LastOf(p, a, b);
    if p[i] == b {
      AvoidingPath(incoming, roots, a, b, p, n, i);
    } else {
      AvoidingPath(incoming, roots, b, a, p, n, i);
    }
  }

  // ---------------------------------------------------------------------------
  // The equations

  ghost function Nodes(sets: map<BlockId, set<BlockId>>, b: BlockId): set<BlockId> {
    if b in sets then sets[b] else {}
  }

  /** d is in the set the equation of n demands: n itself and what every input agrees on. */
  ghost predicate InEquation(incoming: EdgeMap, sets: map<BlockId, set<BlockId>>, n: BlockId, d: BlockId) {
    d == n || forall m :: Edge(incoming, n, m) ==> d in Nodes(sets, m)
  }

  /** The equation of n holds. */
  ghost predicate Solved(nodes: set<BlockId>, incoming: EdgeMap, sets: map<BlockId, set<BlockId>>, n: BlockId) {
    forall d :: d in Nodes(sets, n) <==> d in nodes && InEquation(incoming, sets, n, d)
  }

  ghost predicate IsDominators(nodes: set<BlockId>, roots: set<BlockId>, incoming: EdgeMap, sets: map<BlockId,
      set<BlockId>>) {
    && sets.Keys == nodes
    && forall n, d :: n in nodes ==> (d in sets[n] <==> Dom(incoming, roots, d, n))
  }

  /** Every set holds at least the dominators, and no equation demands more than its set. */
  ghost predicate Descending(nodes: set<BlockId>, roots: set<BlockId>, incoming: EdgeMap, sets: map<BlockId,
      set<BlockId>>) {
    && sets.Keys == nodes
    && (forall r :: r in roots ==> Nodes(sets, r) == {r})
    && (forall n :: n in nodes ==> Nodes(sets, n) <= nodes)
    && (forall n, d :: n in nodes && Dom(incoming, roots, d, n) ==> d in Nodes(sets, n))
    && (forall n, d :: n in nodes - roots && d in nodes && InEquation(incoming, sets, n, d) ==> d in Nodes(sets, n))
  }

  lemma DescendingStarts(nodes: set<BlockId>, roots: set<BlockId>, incoming: EdgeMap)
    requires FlowGraph(nodes, roots, incoming)
    ensures Descending(nodes, roots, incoming, map n | n in nodes :: if n in roots then {n} else nodes)
  {
    var sets := map n | n in nodes :: if n in roots then {n} else nodes;
    forall n, d | n in nodes && Dom(incoming, roots, d, n)
      ensures d in Nodes(sets, n)
    {
      DomIsNode(nodes, roots, incoming, d, n);
      if n in roots {
        RootHasNoStrictDom(incoming, roots, d, n);
      }
    }
  }

  lemma EquationKeepsDominators(nodes: set<BlockId>, roots: set<BlockId>, incoming: EdgeMap,
                                sets: map<BlockId, set<BlockId>>, n: BlockId, d: BlockId)
    requires FlowGraph(nodes, roots, incoming) && Descending(nodes, roots, incoming, sets)
    requires n in nodes && Dom(incoming, roots, d, n)
    ensures d in nodes && InEquation(incoming, sets, n, d)
  {
    DomIsNode(nodes, roots, incoming, d, n);
    if d != n {
      forall m | Edge(incoming, n, m)
        ensures d in Nodes(sets, m)
      {
        DomOfIncoming(incoming, roots, d, n, m);
      }
    }
  }

  lemma EquationShrinks(incoming: EdgeMap, sets: map<BlockId, set<BlockId>>, sets': map<BlockId, set<BlockId>>,
      m: BlockId, d: BlockId)
    requires forall x :: Nodes(sets', x) <= Nodes(sets, x)
    requires InEquation(incoming, sets', m, d)
    ensures InEquation(incoming, sets, m, d)
  {
    forall x | Edge(incoming, m, x) && d != m
      ensures d in Nodes(sets, x)
    {
      assert Nodes(sets', x) <= Nodes(sets, x);
    }
  }

  /** Replacing the set of a node by what its equation demands only removes blocks that do
      not dominate it. */
  lemma DescendingUpdates(nodes: set<BlockId>, roots: set<BlockId>, incoming: EdgeMap, sets: map<BlockId, set<BlockId>>,
                          n: BlockId, next: set<BlockId>)
    requires FlowGraph(nodes, roots, incoming) && Descending(nodes, roots, incoming, sets) && n in nodes - roots
    requires forall d :: d in next <==> d in nodes && InEquation(incoming, sets, n, d)
    ensures next <= Nodes(sets, n)
    ensures Descending(nodes, roots, incoming, sets[n := next])
  {
    hide Dom, InEquation, FlowGraph;
    var sets' := sets[n := next];
    assert next <= Nodes(sets, n);
    assert forall x :: Nodes(sets', x) <= Nodes(sets, x);
    forall m, d | m in nodes && Dom(incoming, roots, d, m)
      ensures d in Nodes(sets', m)
    {
      EquationKeepsDominators(nodes, roots, incoming, sets, m, d);
    }
    forall m, d | m in nodes - roots && d in nodes && InEquation(incoming, sets', m, d)
      ensures d in Nodes(sets', m)
    {
      EquationShrinks(incoming, sets, sets', m, d);
    }
  }

  /** A descending family that solves every equation is exactly dominance. */
  lemma SolutionIsDominance(nodes: set<BlockId>, roots: set<BlockId>, incoming: EdgeMap, sets: map<BlockId,
      set<BlockId>>)
    requires FlowGraph(nodes, roots, incoming) && Descending(nodes, roots, incoming, sets)
    requires forall n :: n in nodes - roots ==> Solved(nodes, incoming, sets, n)
    ensures IsDominators(nodes, roots, incoming, sets)
  {
    DescendingMeans(nodes, roots, incoming, sets);
    hide FlowGraph, Descending, Solved, Dom, RootPath, Edge;
    forall n, d | n in nodes && d in Nodes(sets, n)
      ensures Dom(incoming, roots, d, n)
    {
      SolutionDominates(nodes, roots, incoming, sets, n, d);
    }
    assert forall n :: n in nodes ==> sets[n] == Nodes(sets, n);
  }

  lemma DescendingMeans(nodes: set<BlockId>, roots: set<BlockId>, incoming: EdgeMap, sets: map<BlockId, set<BlockId>>)
    requires FlowGraph(nodes, roots, incoming) && Descending(nodes, roots, incoming, sets)
    ensures sets.Keys == nodes && forall r :: r in roots ==> Nodes(sets, r) == {r}
    ensures forall m, x :: m in nodes && Edge(incoming, m, x) ==> x in nodes
    ensures forall n, d :: n in nodes && Dom(incoming, roots, d, n) ==> d in Nodes(sets, n)
  {
    hide Dom, InEquation, FlowReachable, Edge;
  }

  lemma SolutionDominates(nodes: set<BlockId>, roots: set<BlockId>, incoming: EdgeMap, sets: map<BlockId, set<BlockId>>,
                          n: BlockId, d: BlockId)
    requires forall r :: r in roots ==> Nodes(sets, r) == {r}
    requires forall m, x :: m in nodes && Edge(incoming, m, x) ==> x in nodes
    requires forall m :: m in nodes - roots ==> Solved(nodes, incoming, sets, m)
    requires n in nodes && d in Nodes(sets, n)
    ensures Dom(incoming, roots, d, n)
  {
    hide Solved, RootPath, Edge, Nodes;
    forall p | RootPath(incoming, roots, p, n)
      ensures d in p
    {
      SolutionOnPath(nodes, roots, incoming, sets, p, n, d);
    }
  }

  /** What the equation of a block holds besides the block, every input holds. */
  lemma OneEdgeBack(nodes: set<BlockId>, incoming: EdgeMap, sets: map<BlockId, set<BlockId>>, n: BlockId, x: BlockId,
      d: BlockId)
    requires Solved(nodes, incoming, sets, n) && Edge(incoming, n, x) && d in Nodes(sets, n) && d != n
    ensures d in Nodes(sets, x)
  {
  }

  /** A path ends at its last block; before that it is a path to the block before, along an edge. */
  lemma RootPathEnds(incoming: EdgeMap, roots: set<BlockId>, p: seq<BlockId>, n: BlockId)
    requires RootPath(incoming, roots, p, n)
    ensures n in p && (|p| == 1 ==> n in roots)
    ensures |p| > 1 ==> Edge(incoming, n, p[|p| - 2]) && RootPath(incoming, roots, p[..|p| - 1], p[|p| - 2])
  {
  }

  lemma {:induction false} SolutionOnPath(nodes: set<BlockId>, roots: set<BlockId>, incoming: EdgeMap,
                                          sets: map<BlockId, set<BlockId>>, p: seq<BlockId>, n: BlockId, d: BlockId)
    requires forall r :: r in roots ==> Nodes(sets, r) == {r}
    requires forall m, x :: m in nodes && Edge(incoming, m, x) ==> x in nodes
    requires forall m :: m in nodes - roots ==> Solved(nodes, incoming, sets, m)
    requires n in nodes && RootPath(incoming, roots, p, n) && d in Nodes(sets, n)
    ensures d in p
    decreases |p|
  {
    hide Solved, RootPath, Edge, Nodes;
    RootPathEnds(incoming, roots, p, n);
    if n !in roots && d != n {
      var before := p[|p| - 2];
      OneEdgeBack(nodes, incoming, sets, n, before, d);
      SolutionOnPath(nodes, roots, incoming, sets, p[..|p| - 1], before, d);
      assert forall i :: 0 <= i < |p| - 1 ==> p[..|p| - 1][i] == p[i];
    }
  }

  // ---------------------------------------------------------------------------
  // How far a family of sets can still shrink

  ghost function SizeSum(sets: map<BlockId, set<BlockId>>, order: seq<BlockId>): nat {
    if order == [] then 0 else |Nodes(sets, order[0])| + SizeSum(sets, order[1..])
  }

  lemma {:induction false} SizeSumShrinks(sets: map<BlockId, set<BlockId>>, order: seq<BlockId>, n: BlockId,
      next: set<BlockId>)
    requires next < Nodes(sets, n)
    ensures SizeSum(sets[n := next], order) <= SizeSum(sets, order)
    ensures n in order ==> SizeSum(sets[n := next], order) < SizeSum(sets, order)
  {
    SubsetSize(next, Nodes(sets, n));
    if order != [] {
      SizeSumShrinks(sets, order[1..], n, next);
      assert order == [order[0]] + order[1..];
    }
  }
}
