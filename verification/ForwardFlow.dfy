/** Forward dataflow over sets of facts, once for every analysis that runs from the entry: the
    equations, what they mean along paths, and what one worklist run keeps. */
module ForwardFlow {
  import opened Graphs
  import opened ReachableGraph
  import opened Worklist
  import opened Scheduling
  import CF = ControlFlow

  /** What holds before the entry, how a block changes a set of facts, and all facts there are. */
  datatype Problem<!T(==)> = Problem(
    graph: CF.Graph,
    start: set<T>,
    flow: (BlockId, set<T>) -> set<T>,
    universe: set<T>)

  type Facts<T> = map<BlockId, set<T>>

  ghost function At<T>(facts: Facts<T>, b: BlockId): set<T> {
    if b in facts then facts[b] else {}
  }

  /** More facts before a block never mean fewer after it. */
  ghost predicate Monotone<T(!new)>(p: Problem<T>) {
    forall b, small, large :: small <= large ==> p.flow(b, small) <= p.flow(b, large)
  }

  /** A fact after a block comes from a single fact before it, or from none. */
  ghost predicate Distributive<T(!new)>(p: Problem<T>) {
    forall b, s, x :: x in p.flow(b, s) ==> x in p.flow(b, {}) || exists y :: y in s && x in p.flow(b, {y})
  }

  ghost predicate WithinUniverse<T(!new)>(p: Problem<T>) {
    && p.start <= p.universe
    && forall b, s :: s <= p.universe ==> p.flow(b, s) <= p.universe
  }

  ghost predicate WellPosed<T(!new)>(p: Problem<T>) {
    Monotone(p) && Distributive(p) && WithinUniverse(p)
  }

  // ---------------------------------------------------------------------------
  // Equations and their path meaning

  /** The entry is fixed by the caller; any other block joins its predecessors. */
  ghost predicate Arrives<T(!new)>(p: Problem<T>, outgoing: Facts<T>, b: BlockId, x: T) {
    if b == p.graph.entry then x in p.start
    else exists q :: Edge(Successors(p.graph), q, b) && x in At(outgoing, q)
  }

  ghost predicate Solved<T(!new)>(p: Problem<T>, incoming: Facts<T>, outgoing: Facts<T>, b: BlockId) {
    && (forall x :: x in At(incoming, b) <==> Arrives(p, outgoing, b, x))
    && At(outgoing, b) == p.flow(b, At(incoming, b))
  }

  /** What a path establishes before its last block. */
  ghost function Along<T>(p: Problem<T>, path: seq<BlockId>): set<T>
    requires path != []
  {
    if |path| == 1 then (if path[0] == p.graph.entry then p.start else {})
    else p.flow(path[|path| - 2], Along(p, path[..|path| - 1]))
  }

  /** A path that does not come back to the entry. */
  ghost predicate Tracks(g: CF.Graph, path: seq<BlockId>) {
    && IsPath(Successors(g), path) && path[0] in Reachables(g)
    && forall i :: 0 < i < |path| ==> path[i] != g.entry
  }

  ghost predicate Trace<T(!new)>(p: Problem<T>, b: BlockId, x: T) {
    exists path: seq<BlockId> :: Tracks(p.graph, path) && path[|path| - 1] == b && x in Along(p, path)
  }

  ghost predicate IsFlow<T(!new)>(p: Problem<T>, incoming: Facts<T>, outgoing: Facts<T>) {
    && incoming.Keys == outgoing.Keys == Reachables(p.graph)
    && (forall b :: b in Reachables(p.graph) ==> Solved(p, incoming, outgoing, b))
    && (forall b, x :: b in Reachables(p.graph) ==> (x in incoming[b] <==> Trace(p, b, x)))
  }

  lemma AppendEdge(e: EdgeMap, q: seq<BlockId>, b: BlockId)
    requires IsPath(e, q) && Edge(e, q[|q| - 1], b)
    ensures IsPath(e, q + [b])
  {
    var r := q + [b];
    forall i | 0 <= i < |r| - 1
      ensures Edge(e, r[i], r[i + 1])
    {
      if i < |q| - 1 {
        assert r[i] == q[i] && r[i + 1] == q[i + 1];
      }
    }
  }

  lemma TraceStarts<T(!new)>(p: Problem<T>, x: T)
    requires x in p.start && p.graph.entry in Reachables(p.graph)
    ensures Trace(p, p.graph.entry, x)
  {
    var path := [p.graph.entry];
    assert Tracks(p.graph, path) && x in Along(p, path);
  }

  lemma PathExtends<T(!new)>(p: Problem<T>, path: seq<BlockId>, b: BlockId, s: set<T>, x: T)
    requires Monotone(p) && Tracks(p.graph, path) && s <= Along(p, path)
    requires Edge(Successors(p.graph), path[|path| - 1], b) && b != p.graph.entry
    requires x in p.flow(path[|path| - 1], s)
    ensures Trace(p, b, x)
  {
    hide Successors, CF.Reachable, Reachables;
    var longer := path + [b];
    AppendEdge(Successors(p.graph), path, b);
    assert longer[..|longer| - 1] == path;
    assert Tracks(p.graph, longer);
    assert Along(p, longer) == p.flow(path[|path| - 1], Along(p, path));
  }

  /** What leaves a block and enters the next is found on some path. */
  lemma TraceExtends<T(!new)>(p: Problem<T>, q: BlockId, b: BlockId, s: set<T>, x: T)
    requires Monotone(p) && Distributive(p)
    requires q in Reachables(p.graph) && Edge(Successors(p.graph), q, b) && b != p.graph.entry
    requires forall y :: y in s ==> Trace(p, q, y)
    requires x in p.flow(q, s)
    ensures Trace(p, b, x)
  {
    hide Successors, CF.Reachable, Reachables, Monotone;
    if x in p.flow(q, {}) {
      var path := [q];
      assert Tracks(p.graph, path);
      PathExtends(p, path, b, {}, x);
    } else {
      var y :| y in s && x in p.flow(q, {y});
      var path: seq<BlockId> :| Tracks(p.graph, path) && path[|path| - 1] == q && y in Along(p, path);
      PathExtends(p, path, b, {y}, x);
    }
  }

  /** A solution of all equations holds what any path establishes. */
  lemma {:induction false} SolutionHoldsPath<T(!new)>(p: Problem<T>, incoming: Facts<T>, outgoing: Facts<T>,
      path: seq<BlockId>)
    requires Monotone(p) && Tracks(p.graph, path)
    requires forall b :: b in Reachables(p.graph) ==> Solved(p, incoming, outgoing, b)
    ensures path[|path| - 1] in Reachables(p.graph)
    ensures Along(p, path) <= At(incoming, path[|path| - 1])
    decreases |path|
  {
    hide Successors, Reachables, Solved, CF.Edges;
    if |path| == 1 {
      FirstHolds(p, incoming, outgoing, path[0]);
    } else {
      var k := |path| - 2;
      var q, b := path[k], path[k + 1];
      var shorter := path[..k + 1];
      assert Edge(Successors(p.graph), q, b);
      assert Tracks(p.graph, shorter) by {
        SliceIsPath(Successors(p.graph), path, 0, k);
        assert path[0..k + 1] == shorter;
      }
      SolutionHoldsPath(p, incoming, outgoing, shorter);
      SuccessorEdge(p.graph, q, b);
      ReachesThenEdge(CF.Edges(p.graph), p.graph.entry, q, b);
      StepHolds(p, incoming, outgoing, q, b, Along(p, shorter));
    }
  }

  lemma FirstHolds<T(!new)>(p: Problem<T>, incoming: Facts<T>, outgoing: Facts<T>, b: BlockId)
    requires b in Reachables(p.graph)
    requires forall c :: c in Reachables(p.graph) ==> Solved(p, incoming, outgoing, c)
    ensures Along(p, [b]) <= At(incoming, b)
  {
    assert Solved(p, incoming, outgoing, b);
  }

  lemma StepHolds<T(!new)>(p: Problem<T>, incoming: Facts<T>, outgoing: Facts<T>, q: BlockId, b: BlockId, s: set<T>)
    requires Monotone(p) && q in Reachables(p.graph) && b in Reachables(p.graph)
    requires Edge(Successors(p.graph), q, b) && b != p.graph.entry
    requires forall c :: c in Reachables(p.graph) ==> Solved(p, incoming, outgoing, c)
    requires s <= At(incoming, q)
    ensures p.flow(q, s) <= At(incoming, b)
  {
    hide Successors, CF.Reachable, Reachables;
    assert Solved(p, incoming, outgoing, q) && Solved(p, incoming, outgoing, b);
    assert p.flow(q, s) <= p.flow(q, At(incoming, q));
    forall x | x in p.flow(q, s)
      ensures x in At(incoming, b)
    {
      assert Arrives(p, outgoing, b, x);
    }
  }

  // ---------------------------------------------------------------------------
  // The state of an iteration

  ghost predicate EntriesRise<T(!new)>(p: Problem<T>, incoming: Facts<T>, outgoing: Facts<T>) {
    forall b, x :: b in incoming && x in incoming[b] ==> Arrives(p, outgoing, b, x)
  }

  ghost predicate ExitsRise<T(!new)>(p: Problem<T>, incoming: Facts<T>, outgoing: Facts<T>) {
    forall b :: b in outgoing ==> outgoing[b] <= p.flow(b, At(incoming, b))
  }

  /** Everything recorded so far is established by some path. */
  ghost predicate Demanded<T(!new)>(p: Problem<T>, incoming: Facts<T>) {
    forall b, x :: b in incoming && x in incoming[b] ==> Trace(p, b, x)
  }

  ghost predicate Bounded<T>(p: Problem<T>, facts: Facts<T>) {
    forall b :: b in facts ==> facts[b] <= p.universe
  }

  ghost predicate Known<T>(p: Problem<T>, incoming: Facts<T>, outgoing: Facts<T>) {
    && incoming.Keys == outgoing.Keys == Reachables(p.graph)
    && Bounded(p, incoming) && Bounded(p, outgoing)
  }

  /** The facts only rise, record nothing without a path, and solve the equation of every block
      that is not waiting. */
  ghost predicate Partial<T(!new)>(p: Problem<T>, incoming: Facts<T>, outgoing: Facts<T>, pending: seq<BlockId>) {
    && Known(p, incoming, outgoing)
    && EntriesRise(p, incoming, outgoing) && ExitsRise(p, incoming, outgoing)
    && Demanded(p, incoming)
    && forall b :: b in Reachables(p.graph) && b !in pending ==> Solved(p, incoming, outgoing, b)
  }

  /** Nothing before any block but what the caller gives the entry, and no more after a block
      than follows from that. */
  ghost predicate Initially<T(!new)>(p: Problem<T>, incoming: Facts<T>, outgoing: Facts<T>) {
    && Known(p, incoming, outgoing)
    && (forall b :: b in incoming ==> incoming[b] <= (if b == p.graph.entry then p.start else {}))
    && ExitsRise(p, incoming, outgoing)
  }

  lemma PartialStarts<T(!new)>(p: Problem<T>, incoming: Facts<T>, outgoing: Facts<T>, pending: seq<BlockId>)
    requires Initially(p, incoming, outgoing)
    requires forall b :: b in Reachables(p.graph) ==> b in pending
    ensures Partial(p, incoming, outgoing, pending)
  {
    hide Trace, ExitsRise, CF.Reachable, Reachables;
    forall b, x | b in incoming && x in incoming[b]
      ensures Trace(p, b, x)
    {
      TraceStarts(p, x);
    }
  }

  lemma ArrivesMonotone<T(!new)>(p: Problem<T>, small: Facts<T>, large: Facts<T>, b: BlockId, x: T)
    requires forall q :: Edge(Successors(p.graph), q, b) ==> At(small, q) <= At(large, q)
    requires Arrives(p, small, b, x)
    ensures Arrives(p, large, b, x)
  {
    hide Successors;
    if b != p.graph.entry {
      var q :| Edge(Successors(p.graph), q, b) && x in At(small, q);
      assert x in At(large, q);
    }
  }

  /** What one evaluation of a block computes. */
  ghost predicate Evaluated<T(!new)>(p: Problem<T>, outgoing: Facts<T>, b: BlockId, entry: set<T>, exit: set<T>) {
    && (forall x :: x in entry <==> Arrives(p, outgoing, b, x))
    && exit == p.flow(b, entry)
  }

  /** An evaluation never lowers a fact. */
  lemma EvaluationRises<T(!new)>(p: Problem<T>, incoming: Facts<T>, outgoing: Facts<T>, b: BlockId, entry: set<T>,
      exit: set<T>)
    requires Monotone(p) && Known(p, incoming, outgoing) && b in Reachables(p.graph)
    requires EntriesRise(p, incoming, outgoing) && ExitsRise(p, incoming, outgoing)
    requires Evaluated(p, outgoing, b, entry, exit)
    ensures incoming[b] <= entry && outgoing[b] <= exit
  {
    hide Arrives, CF.Reachable, Reachables, Bounded;
    assert incoming[b] <= entry;
    assert At(incoming, b) == incoming[b];
    assert p.flow(b, incoming[b]) <= p.flow(b, entry);
  }

  lemma EvaluationBounded<T(!new)>(p: Problem<T>, incoming: Facts<T>, outgoing: Facts<T>, b: BlockId, entry: set<T>,
      exit: set<T>)
    requires WithinUniverse(p) && Known(p, incoming, outgoing)
    requires Evaluated(p, outgoing, b, entry, exit)
    ensures entry <= p.universe && exit <= p.universe
  {
    hide CF.Reachable, Reachables, Successors;
    forall x | x in entry
      ensures x in p.universe
    {
      assert Arrives(p, outgoing, b, x);
      if b != p.graph.entry {
        var q :| Edge(Successors(p.graph), q, b) && x in At(outgoing, q);
        assert outgoing[q] <= p.universe;
      }
    }
  }

  lemma EvaluationDemanded<T(!new)>(p: Problem<T>, incoming: Facts<T>, outgoing: Facts<T>, b: BlockId, x: T)
    requires Monotone(p) && Distributive(p) && Known(p, incoming, outgoing) && b in Reachables(p.graph)
    requires ExitsRise(p, incoming, outgoing) && Demanded(p, incoming)
    requires Arrives(p, outgoing, b, x)
    ensures Trace(p, b, x)
  {
    hide Successors, CF.Reachable, Reachables, Trace, Bounded, Monotone, Distributive;
    if b == p.graph.entry {
      TraceStarts(p, x);
    } else {
      var q :| Edge(Successors(p.graph), q, b) && x in At(outgoing, q);
      assert q in outgoing && x in p.flow(q, At(incoming, q));
      TraceExtends(p, q, b, At(incoming, q), x);
    }
  }

  lemma EntriesRiseUpdates<T(!new)>(p: Problem<T>, incoming: Facts<T>, outgoing: Facts<T>, b: BlockId, entry: set<T>,
      exit: set<T>)
    requires EntriesRise(p, incoming, outgoing) && At(outgoing, b) <= exit
    requires forall x :: x in entry ==> Arrives(p, outgoing, b, x)
    ensures EntriesRise(p, incoming[b := entry], outgoing[b := exit])
  {
    hide Arrives;
    var incoming', outgoing' := incoming[b := entry], outgoing[b := exit];
    assert forall c :: At(outgoing, c) <= At(outgoing', c);
    forall c, x | c in incoming' && x in incoming'[c]
      ensures Arrives(p, outgoing', c, x)
    {
      assert c != b ==> c in incoming && x in incoming[c];
      ArrivesMonotone(p, outgoing, outgoing', c, x);
    }
  }

  lemma ExitsRiseUpdates<T(!new)>(p: Problem<T>, incoming: Facts<T>, outgoing: Facts<T>, b: BlockId, entry: set<T>,
      exit: set<T>)
    requires ExitsRise(p, incoming, outgoing) && exit == p.flow(b, entry)
    ensures ExitsRise(p, incoming[b := entry], outgoing[b := exit])
  {
    var incoming', outgoing' := incoming[b := entry], outgoing[b := exit];
    forall c | c in outgoing'
      ensures outgoing'[c] <= p.flow(c, At(incoming', c))
    {
      assert c != b ==> At(incoming', c) == At(incoming, c) && outgoing'[c] == outgoing[c];
    }
  }

  lemma DemandedUpdates<T(!new)>(p: Problem<T>, incoming: Facts<T>, outgoing: Facts<T>, b: BlockId, entry: set<T>)
    requires Monotone(p) && Distributive(p) && Known(p, incoming, outgoing) && b in Reachables(p.graph)
    requires ExitsRise(p, incoming, outgoing) && Demanded(p, incoming)
    requires forall x :: x in entry ==> Arrives(p, outgoing, b, x)
    ensures Demanded(p, incoming[b := entry])
  {
    hide Arrives, Trace, CF.Reachable, Reachables, Monotone, Distributive, ExitsRise, Known;
    forall x | x in entry
      ensures Trace(p, b, x)
    {
      EvaluationDemanded(p, incoming, outgoing, b, x);
    }
  }

  /** Only the successors of the changed block can lose their solution. */
  lemma SolvedElsewhere<T(!new)>(p: Problem<T>, incoming: Facts<T>, outgoing: Facts<T>, b: BlockId, entry: set<T>,
      exit: set<T>, c: BlockId)
    requires c in Reachables(p.graph) && !Edge(Successors(p.graph), b, c)
    requires c == b ==> Evaluated(p, outgoing, b, entry, exit)
    requires c != b ==> Solved(p, incoming, outgoing, c)
    ensures Solved(p, incoming[b := entry], outgoing[b := exit], c)
  {
    hide Arrives, Successors, CF.Reachable, Reachables;
    var incoming', outgoing' := incoming[b := entry], outgoing[b := exit];
    assert forall q :: Edge(Successors(p.graph), q, c) ==> At(outgoing, q) == At(outgoing', q);
    forall x
      ensures Arrives(p, outgoing, c, x) <==> Arrives(p, outgoing', c, x)
    {
      if Arrives(p, outgoing, c, x) {
        ArrivesMonotone(p, outgoing, outgoing', c, x);
      }
      if Arrives(p, outgoing', c, x) {
        ArrivesMonotone(p, outgoing', outgoing, c, x);
      }
    }
  }

  /** Evaluating without a change solves the block that left the queue. */
  lemma PartialStays<T(!new)>(p: Problem<T>, incoming: Facts<T>, outgoing: Facts<T>, b: BlockId, pending: seq<BlockId>,
                              entry: set<T>, exit: set<T>)
    requires Partial(p, incoming, outgoing, [b] + pending)
    requires Evaluated(p, outgoing, b, entry, exit) && At(incoming, b) == entry && At(outgoing, b) == exit
    ensures Partial(p, incoming, outgoing, pending)
  {
    assert Solved(p, incoming, outgoing, b);
    hide Known, EntriesRise, ExitsRise, Demanded, Arrives, Solved, CF.Reachable, Reachables;
    forall x | x in Reachables(p.graph) && x !in pending
      ensures Solved(p, incoming, outgoing, x)
    {
      assert x != b ==> x !in [b] + pending;
    }
  }

  lemma SolvedAfter<T(!new)>(p: Problem<T>, incoming: Facts<T>, outgoing: Facts<T>, b: BlockId, pending: seq<BlockId>,
                             entry: set<T>, exit: set<T>, pending': seq<BlockId>)
    requires Partial(p, incoming, outgoing, [b] + pending) && Evaluated(p, outgoing, b, entry, exit)
    requires forall x :: x in pending ==> x in pending'
    requires forall x :: x in Reachables(p.graph) && Edge(Successors(p.graph), b, x) ==> x in pending'
    ensures forall x :: x in Reachables(p.graph) && x !in pending' ==>
      Solved(p, incoming[b := entry], outgoing[b := exit], x)
  {
    hide Known, EntriesRise, ExitsRise, Demanded, Solved, Evaluated, CF.Reachable, Reachables, Successors, Targets;
    forall x | x in Reachables(p.graph) && x !in pending'
      ensures Solved(p, incoming[b := entry], outgoing[b := exit], x)
    {
      assert x != b ==> x !in [b] + pending;
      SolvedElsewhere(p, incoming, outgoing, b, entry, exit, x);
    }
  }

  /** A change keeps every block solved that it does not schedule. */
  lemma PartialUpdates<T(!new)>(p: Problem<T>, incoming: Facts<T>, outgoing: Facts<T>, b: BlockId,
      pending: seq<BlockId>,
                                entry: set<T>, exit: set<T>, pending': seq<BlockId>)
    requires WellPosed(p) && Partial(p, incoming, outgoing, [b] + pending) && b in Reachables(p.graph)
    requires Evaluated(p, outgoing, b, entry, exit)
    requires forall x :: x in pending ==> x in pending'
    requires forall x :: x in Reachables(p.graph) && Edge(Successors(p.graph), b, x) ==> x in pending'
    ensures Partial(p, incoming[b := entry], outgoing[b := exit], pending')
  {
    hide EntriesRise, ExitsRise, Demanded, Arrives, Solved, CF.Reachable, Reachables, Successors, Monotone,
        Distributive, WithinUniverse;
    EvaluationRises(p, incoming, outgoing, b, entry, exit);
    EvaluationBounded(p, incoming, outgoing, b, entry, exit);
    EntriesRiseUpdates(p, incoming, outgoing, b, entry, exit);
    ExitsRiseUpdates(p, incoming, outgoing, b, entry, exit);
    DemandedUpdates(p, incoming, outgoing, b, entry);
    hide Known, Evaluated;
    SolvedAfter(p, incoming, outgoing, b, pending, entry, exit, pending');
  }

  /** Solving every equation with traced facts only is exactly the path meaning. */
  lemma PartialEnds<T(!new)>(p: Problem<T>, incoming: Facts<T>, outgoing: Facts<T>)
    requires Monotone(p) && Partial(p, incoming, outgoing, [])
    ensures IsFlow(p, incoming, outgoing)
  {
    hide EntriesRise, ExitsRise, Solved, CF.Reachable, Reachables, Monotone, Bounded, Trace;
    forall b, x | b in Reachables(p.graph) && Trace(p, b, x)
      ensures x in incoming[b]
    {
      TraceIsHeld(p, incoming, outgoing, b, x);
    }
  }

  lemma TraceIsHeld<T(!new)>(p: Problem<T>, incoming: Facts<T>, outgoing: Facts<T>, b: BlockId, x: T)
    requires Monotone(p) && Trace(p, b, x)
    requires forall c :: c in Reachables(p.graph) ==> Solved(p, incoming, outgoing, c)
    ensures x in At(incoming, b)
  {
    hide Solved, CF.Reachable, Reachables, Monotone, Along;
    var path: seq<BlockId> :| Tracks(p.graph, path) && path[|path| - 1] == b && x in Along(p, path);
    SolutionHoldsPath(p, incoming, outgoing, path);
  }

  /** Whatever order the blocks were evaluated in, the result is the least solution. */
  lemma FlowIsLeast<T(!new)>(p: Problem<T>, incoming: Facts<T>, outgoing: Facts<T>, others: Facts<T>,
      otherExits: Facts<T>, b: BlockId)
    requires Monotone(p) && IsFlow(p, incoming, outgoing) && b in Reachables(p.graph)
    requires forall c :: c in Reachables(p.graph) ==> Solved(p, others, otherExits, c)
    ensures incoming[b] <= At(others, b) && outgoing[b] <= At(otherExits, b)
  {
    hide Arrives, CF.Reachable, Reachables, Trace;
    assert Solved(p, incoming, outgoing, b) && Solved(p, others, otherExits, b);
    forall x | x in incoming[b]
      ensures x in At(others, b)
    {
      TraceIsHeld(p, others, otherExits, b, x);
    }
    assert At(incoming, b) == incoming[b] && At(outgoing, b) == outgoing[b];
  }

  // ---------------------------------------------------------------------------
  // What the worklist loop keeps

  /** How many facts are recorded at the two ends of a block. */
  ghost function Heights<T>(incoming: Facts<T>, outgoing: Facts<T>): map<BlockId, nat> {
    map b | b in incoming && b in outgoing :: |incoming[b]| + |outgoing[b]|
  }

  ghost function Cap<T>(p: Problem<T>): nat {
    2 * |p.universe|
  }

  ghost predicate State<T(!new)>(p: Problem<T>, order: seq<BlockId>, incoming: Facts<T>, outgoing: Facts<T>,
                                 pending: seq<BlockId>, scheduled: nat)
  {
    && Partial(p, incoming, outgoing, pending)
    && Budget(p.graph, order, Forward, Heights(incoming, outgoing), Cap(p), scheduled)
  }

  ghost function Room<T>(p: Problem<T>, order: seq<BlockId>, incoming: Facts<T>, outgoing: Facts<T>): int {
    Slack(order, Heights(incoming, outgoing), Cap(p))
  }

  lemma HeightBounded<T>(p: Problem<T>, incoming: Facts<T>, outgoing: Facts<T>)
    requires Known(p, incoming, outgoing)
    ensures Heights(incoming, outgoing).Keys == Reachables(p.graph)
    ensures forall b :: b in Heights(incoming, outgoing) ==> Heights(incoming, outgoing)[b] <= Cap(p)
  {
    hide CF.Reachable, Reachables;
    forall b | b in incoming && b in outgoing
      ensures |incoming[b]| + |outgoing[b]| <= Cap(p)
    {
      SubsetSize(incoming[b], p.universe);
      SubsetSize(outgoing[b], p.universe);
    }
  }

  lemma HeightsUpdate<T>(incoming: Facts<T>, outgoing: Facts<T>, b: BlockId, entry: set<T>, exit: set<T>)
    requires incoming.Keys == outgoing.Keys && b in incoming
    ensures Heights(incoming[b := entry], outgoing[b := exit]) == Heights(incoming, outgoing)[b := |entry| + |exit|]
  {
  }

  lemma StateFacts<T(!new)>(p: Problem<T>, order: seq<BlockId>, incoming: Facts<T>, outgoing: Facts<T>,
      pending: seq<BlockId>, scheduled: nat)
    requires State(p, order, incoming, outgoing, pending, scheduled)
    ensures incoming.Keys == outgoing.Keys == Reachables(p.graph)
    ensures Room(p, order, incoming, outgoing) >= 0
  {
  }

  lemma StateStarts<T(!new)>(p: Problem<T>, order: seq<BlockId>, incoming: Facts<T>, outgoing: Facts<T>,
      pending: seq<BlockId>, scheduled: nat)
    requires Initially(p, incoming, outgoing)
    requires forall b :: b in Reachables(p.graph) ==> b in pending
    requires Distinct(order) && Elements(order) == Reachables(p.graph) && scheduled == |order|
    ensures State(p, order, incoming, outgoing, pending, scheduled)
  {
    PartialStarts(p, incoming, outgoing, pending);
    HeightBounded(p, incoming, outgoing);
    hide Partial, Heights, Budget, CF.Reachable, Reachables, Elements, Distinct;
    BudgetStarts(p.graph, order, Forward, Heights(incoming, outgoing), Cap(p), scheduled);
  }

  lemma StateStays<T(!new)>(p: Problem<T>, order: seq<BlockId>, incoming: Facts<T>, outgoing: Facts<T>,
      pending: seq<BlockId>,
                            scheduled: nat, b: BlockId, entry: set<T>, exit: set<T>)
    requires State(p, order, incoming, outgoing, [b] + pending, scheduled)
    requires Evaluated(p, outgoing, b, entry, exit) && At(incoming, b) == entry && At(outgoing, b) == exit
    ensures State(p, order, incoming, outgoing, pending, scheduled)
  {
    hide Partial, Budget, Evaluated;
    PartialStays(p, incoming, outgoing, b, pending, entry, exit);
  }

  /** A changed evaluation records at least one more fact. */
  lemma ChangeRaises<T(!new)>(p: Problem<T>, incoming: Facts<T>, outgoing: Facts<T>, pending: seq<BlockId>, b: BlockId,
                              entry: set<T>, exit: set<T>)
    requires WellPosed(p) && Partial(p, incoming, outgoing, pending) && b in Reachables(p.graph)
    requires Evaluated(p, outgoing, b, entry, exit)
    requires At(incoming, b) != entry || At(outgoing, b) != exit
    ensures b in Heights(incoming, outgoing) && Heights(incoming, outgoing)[b] < |entry| + |exit| <= Cap(p)
  {
    hide CF.Reachable, Reachables, Evaluated, EntriesRise, ExitsRise, Demanded, Solved, Monotone, Distributive,
        WithinUniverse;
    EvaluationRises(p, incoming, outgoing, b, entry, exit);
    EvaluationBounded(p, incoming, outgoing, b, entry, exit);
    SubsetSize(incoming[b], entry);
    SubsetSize(outgoing[b], exit);
    SubsetSize(entry, p.universe);
    SubsetSize(exit, p.universe);
  }

  lemma StateUpdates<T(!new)>(p: Problem<T>, order: seq<BlockId>, incoming: Facts<T>, outgoing: Facts<T>,
      pending: seq<BlockId>,
                              scheduled: nat, b: BlockId, entry: set<T>, exit: set<T>, pending': seq<BlockId>,
                                  scheduled': nat)
    requires WellPosed(p) && State(p, order, incoming, outgoing, [b] + pending, scheduled) && b in Reachables(p.graph)
    requires Evaluated(p, outgoing, b, entry, exit)
    requires At(incoming, b) != entry || At(outgoing, b) != exit
    requires forall x :: x in pending' <==>
      x in pending || (x in Targets(Successors(p.graph), b) && x in Reachables(p.graph))
    requires scheduled' <= scheduled + |Targets(Successors(p.graph), b)|
    ensures State(p, order, incoming[b := entry], outgoing[b := exit], pending', scheduled')
    ensures 0 <= Room(p, order, incoming[b := entry], outgoing[b := exit]) < Room(p, order, incoming, outgoing)
  {
    hide Partial, Budget, Heights, Cap, WellPosed, Evaluated, Successors, CF.Reachable, Reachables, Targets, Slack,
        At, Edge;
    ChangePays(p, order, incoming, outgoing, [b] + pending, scheduled, b, entry, exit, scheduled');
    PendingCovers(p.graph, pending, b, pending');
    PartialUpdates(p, incoming, outgoing, b, pending, entry, exit, pending');
  }

  lemma PendingCovers(g: CF.Graph, pending: seq<BlockId>, b: BlockId, pending': seq<BlockId>)
    requires forall x :: x in pending' <==> x in pending || (x in Targets(Successors(g), b) && x in Reachables(g))
    ensures forall x :: x in pending ==> x in pending'
    ensures forall x :: x in Reachables(g) && Edge(Successors(g), b, x) ==> x in pending'
  {
    hide Successors, CF.Reachable, Reachables, Targets;
  }

  /** A change raises the height of its block, and that pays for what it schedules. */
  lemma ChangePays<T(!new)>(p: Problem<T>, order: seq<BlockId>, incoming: Facts<T>, outgoing: Facts<T>,
      pending: seq<BlockId>,
                            scheduled: nat, b: BlockId, entry: set<T>, exit: set<T>, scheduled': nat)
    requires WellPosed(p) && State(p, order, incoming, outgoing, pending, scheduled) && b in Reachables(p.graph)
    requires Evaluated(p, outgoing, b, entry, exit)
    requires At(incoming, b) != entry || At(outgoing, b) != exit
    requires scheduled' <= scheduled + |Targets(Successors(p.graph), b)|
    ensures Budget(p.graph, order, Forward, Heights(incoming[b := entry], outgoing[b := exit]), Cap(p), scheduled')
    ensures 0 <= Room(p, order, incoming[b := entry], outgoing[b := exit]) < Room(p, order, incoming, outgoing)
  {
    hide Partial, Budget, Heights, Cap, WellPosed, Evaluated, CF.Reachable, Reachables, Targets, Slack, At, Successors;
    StateFacts(p, order, incoming, outgoing, pending, scheduled);
    ChangeRaises(p, incoming, outgoing, pending, b, entry, exit);
    HeightsUpdate(incoming, outgoing, b, entry, exit);
    HeightPays(p.graph, order, Heights(incoming, outgoing), Heights(incoming[b := entry], outgoing[b := exit]), Cap(p),
               scheduled, b, |entry| + |exit|, scheduled');
  }

  lemma HeightPays(g: CF.Graph, order: seq<BlockId>, height: map<BlockId, nat>, height': map<BlockId, nat>, cap: nat,
                   scheduled: nat, b: BlockId, h: nat, scheduled': nat)
    requires Budget(g, order, Forward, height, cap, scheduled) && b in Reachables(g)
    requires b in height && height[b] < h <= cap && height' == height[b := h]
    requires scheduled' <= scheduled + |Targets(Successors(g), b)|
    ensures Budget(g, order, Forward, height', cap, scheduled')
    ensures 0 <= Slack(order, height', cap) < Slack(order, height, cap)
  {
    hide Budget, Propagation, Reachables, CF.Reachable, Targets, Slack;
    PropagationIs(g);
    BudgetRises(g, order, Forward, height, cap, scheduled, b, h, scheduled');
  }

  lemma StateEnds<T(!new)>(p: Problem<T>, order: seq<BlockId>, incoming: Facts<T>, outgoing: Facts<T>, scheduled: nat)
    requires WellPosed(p) && State(p, order, incoming, outgoing, [], scheduled)
    ensures IsFlow(p, incoming, outgoing)
    ensures scheduled <= |order| + 2 * |p.universe| * EdgeCount(p.graph, order, Forward)
  {
    hide Partial, Budget, Heights, IsFlow, EdgeCount;
    PartialEnds(p, incoming, outgoing);
    BudgetBounds(p.graph, order, Forward, Heights(incoming, outgoing), Cap(p), scheduled);
  }

  /** The queue belongs to this graph and propagates forwards. */
  ghost predicate Driving(g: CF.Graph, flow: CF.Result, w: DataflowWorklist) {
    && w.reachable == Reachables(g) && w.direction == Forward
    && w.forwardEdges == FactEdges(flow.facts, true)
  }

  lemma AffectedIs(w: DataflowWorklist, flow: CF.Result, g: CF.Graph, b: BlockId)
    requires CF.Describes(g, flow) && b in Reachables(g) && Driving(g, flow, w)
    ensures w.Affected(b) == Targets(Successors(g), b)
  {
    SeededFor(g, flow, Forward);
    PropagationIs(g);
    hide CF.Describes, FactEdges, Predecessors, Successors, CF.Reachable;
  }

  lemma EveryBlockWaits(g: CF.Graph, flow: CF.Result)
    requires CF.Describes(g, flow)
    ensures forall b :: b in Reachables(g) ==> b in SeedOrder(flow, Forward)
  {
    SeededFor(g, flow, Forward);
    assert forall b :: b in SeedOrder(flow, Forward) <==> b in Elements(SeedOrder(flow, Forward));
  }

  // ---------------------------------------------------------------------------
  // Predecessors

  /** Every reachable block but the entry has a reachable predecessor. */
  lemma HasPredecessor(g: CF.Graph, b: BlockId)
    requires b in Reachables(g) && b != g.entry
    ensures exists q :: Edge(Successors(g), q, b)
  {
    hide CF.Edges, Successors;
    var path :| PathBetween(CF.Edges(g), path, g.entry, b);
    var k := |path| - 2;
    SliceIsPath(CF.Edges(g), path, 0, k);
    assert Reaches(CF.Edges(g), g.entry, path[k]);
    assert Edge(CF.Edges(g), path[k], path[k + 1]);
    SuccessorEdge(g, path[k], b);
  }

  /** Some path from the entry to a reachable block does not come back to the entry. */
  lemma HasTrack(g: CF.Graph, b: BlockId) returns (path: seq<BlockId>)
    requires b in Reachables(g)
    ensures path != [] && Tracks(g, path) && path[0] == g.entry && path[|path| - 1] == b
  {
    hide CF.Edges, Successors;
    var whole :| PathBetween(CF.Edges(g), whole, g.entry, b);
    ReachesSelf(CF.Edges(g), g.entry);
    ReachablePartHasPaths(g, whole);
    path := LastRound(g, whole);
  }

  /** The part of a path after its last visit to the entry. */
  lemma {:induction false} LastRound(g: CF.Graph, whole: seq<BlockId>) returns (path: seq<BlockId>)
    requires IsPath(Successors(g), whole) && whole[0] == g.entry && g.entry in Reachables(g)
    ensures Tracks(g, path) && path[0] == g.entry && path[|path| - 1] == whole[|whole| - 1]
    ensures |path| <= |whole| && path == whole[|whole| - |path|..]
    decreases |whole|
  {
    hide Successors, CF.Reachable, Reachables;
    if i :| 0 < i < |whole| && whole[i] == g.entry {
      SliceIsPath(Successors(g), whole, i, |whole| - 1);
      assert whole[i..] == whole[i..|whole| - 1 + 1];
      path := LastRound(g, whole[i..]);
    } else {
      path := whole;
    }
  }
}
