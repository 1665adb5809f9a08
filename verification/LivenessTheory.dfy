/** Strong liveness: the accesses of a function, the transfer equations over sets of storage
    identities, and the path-based meaning the fixed point is proved equal to. */
module LivenessTheory {
  import opened Graphs
  import opened Wrappers
  import opened DenseBits
  import opened ReachableGraph
  import CF = ControlFlow

  datatype Access = Access(
    instruction: nat,
    terminator: bool,
    uses: seq<Identity>,
    write: Option<Identity>,
    removable: bool)

  datatype Block = Block(id: BlockId, successors: seq<BlockId>, accesses: seq<Access>)

  datatype Function = Function(entry: BlockId, blocks: seq<Block>)

  function ControlFlowFor(f: Function): CF.Graph {
    CF.Graph(f.entry, seq(|f.blocks|, i requires 0 <= i < |f.blocks| => CF.Block(f.blocks[i].id,
        f.blocks[i].successors)))
  }

  function BlockIds(f: Function): seq<BlockId> {
    seq(|f.blocks|, i requires 0 <= i < |f.blocks| => f.blocks[i].id)
  }

  lemma SameIds(f: Function)
    ensures CF.Ids(ControlFlowFor(f).blocks) == BlockIds(f)
    ensures CF.IdSet(ControlFlowFor(f)) == Elements(BlockIds(f))
  {
    assert CF.Ids(ControlFlowFor(f).blocks) == BlockIds(f);
  }

  /** The accesses of the first record of a block. */
  function AccessesOf(f: Function, b: BlockId): seq<Access> {
    if b in BlockIds(f) then f.blocks[FirstIndex(BlockIds(f), b)].accesses else []
  }

  // ---------------------------------------------------------------------------
  // Transfer

  type Storages = set<Identity>

  /** What is live before an access: a removable write to dead storage needs nothing. */
  function Before(a: Access, live: Storages): Storages {
    match a.write
    case None => live + Elements(a.uses)
    case Some(d) => if a.removable && d !in live then live else (live - {d}) + Elements(a.uses)
  }

  function BeforeAll(accesses: seq<Access>, live: Storages): Storages {
    if accesses == [] then live else Before(accesses[0], BeforeAll(accesses[1..], live))
  }

  /** An access is kept unless it is a removable write to dead storage. */
  predicate Retained(a: Access, liveAfter: Storages) {
    a.write == None || !a.removable || a.write.value in liveAfter
  }

  lemma BeforeMonotone(a: Access, small: Storages, large: Storages)
    requires small <= large
    ensures Before(a, small) <= Before(a, large)
  {
  }

  lemma {:induction false} BeforeAllMonotone(accesses: seq<Access>, small: Storages, large: Storages)
    requires small <= large
    ensures BeforeAll(accesses, small) <= BeforeAll(accesses, large)
  {
    if accesses != [] {
      BeforeAllMonotone(accesses[1..], small, large);
      BeforeMonotone(accesses[0], BeforeAll(accesses[1..], small), BeforeAll(accesses[1..], large));
    }
  }

  /** Whatever is live before an access is needed for a single storage that is live after it,
      or for nothing after it at all. */
  lemma BeforeHasReason(a: Access, live: Storages, x: Identity)
    requires x in Before(a, live)
    ensures x in Before(a, {}) || exists y :: y in live && x in Before(a, {y})
  {
    match a.write
    case None =>
      if x !in Elements(a.uses) {
        assert x in live && x in Before(a, {x});
      }
    case Some(d) =>
      if a.removable && d !in live {
        assert x in live && x in Before(a, {x});
      } else if x in Elements(a.uses) {
        if a.removable {
          assert d in live && x in Before(a, {d});
        } else {
          assert x in Before(a, {});
        }
      } else {
        assert x in live && x in Before(a, {x});
      }
  }

  lemma {:induction false} BeforeAllHasReason(accesses: seq<Access>, live: Storages, x: Identity)
    requires x in BeforeAll(accesses, live)
    ensures x in BeforeAll(accesses, {}) || exists y :: y in live && x in BeforeAll(accesses, {y})
  {
    if accesses == [] {
      assert x in live && x in BeforeAll(accesses, {x});
    } else {
      var a, rest := accesses[0], accesses[1..];
      BeforeHasReason(a, BeforeAll(rest, live), x);
      if x in Before(a, {}) {
        BeforeMonotone(a, {}, BeforeAll(rest, {}));
      } else {
        var z :| z in BeforeAll(rest, live) && x in Before(a, {z});
        BeforeAllHasReason(rest, live, z);
        if z in BeforeAll(rest, {}) {
          BeforeMonotone(a, {z}, BeforeAll(rest, {}));
        } else {
          var y :| y in live && z in BeforeAll(rest, {y});
          BeforeMonotone(a, {z}, BeforeAll(rest, {y}));
          assert y in live && x in BeforeAll(accesses, {y});
        }
      }
    }
  }

  // ---------------------------------------------------------------------------
  // Equations and their path meaning

  type Facts = map<BlockId, Storages>

  ghost function At(facts: Facts, b: BlockId): Storages {
    if b in facts then facts[b] else {}
  }

  /** Live on exit: live on entry to some successor. */
  ghost predicate LiveInSuccessor(g: CF.Graph, incoming: Facts, b: BlockId, x: Identity) {
    exists s :: Edge(Successors(g), b, s) && x in At(incoming, s)
  }

  ghost predicate Solved(f: Function, g: CF.Graph, incoming: Facts, outgoing: Facts, b: BlockId) {
    && (forall x :: x in At(outgoing, b) <==> LiveInSuccessor(g, incoming, b, x))
    && At(incoming, b) == BeforeAll(AccessesOf(f, b), At(outgoing, b))
  }

  /** What the accesses along a path demand at its start when nothing is needed at its end. */
  ghost function Along(f: Function, p: seq<BlockId>): Storages
    requires p != []
  {
    BeforeAll(AccessesOf(f, p[0]), if |p| == 1 then {} else Along(f, p[1..]))
  }

  /** Some path from b demands x. */
  ghost predicate LiveIn(f: Function, g: CF.Graph, b: BlockId, x: Identity) {
    exists p :: IsPath(Successors(g), p) && p[0] == b && x in Along(f, p)
  }

  ghost predicate IsLiveness(f: Function, g: CF.Graph, incoming: Facts, outgoing: Facts) {
    && incoming.Keys == outgoing.Keys == Reachables(g)
    && (forall b :: b in Reachables(g) ==> Solved(f, g, incoming, outgoing, b))
    && (forall b, x :: b in Reachables(g) ==> (x in incoming[b] <==> LiveIn(f, g, b, x)))
  }

  /** Everything recorded so far is demanded by some path. */
  ghost predicate Demanded(f: Function, g: CF.Graph, incoming: Facts) {
    forall b, x :: b in incoming && x in incoming[b] ==> LiveIn(f, g, b, x)
  }

  /** No block records more than its equation yields. */
  ghost predicate Rising(f: Function, g: CF.Graph, incoming: Facts, outgoing: Facts) {
    && incoming.Keys == outgoing.Keys == Reachables(g)
    && ExitsRise(g, incoming, outgoing)
    && EntriesRise(f, incoming, outgoing)
  }

  ghost predicate ExitsRise(g: CF.Graph, incoming: Facts, outgoing: Facts) {
    forall b, x :: x in At(outgoing, b) ==> LiveInSuccessor(g, incoming, b, x)
  }

  ghost predicate EntriesRise(f: Function, incoming: Facts, outgoing: Facts) {
    forall b :: At(incoming, b) <= BeforeAll(AccessesOf(f, b), At(outgoing, b))
  }

  lemma {:induction false} PathEndsDemand(f: Function, g: CF.Graph, b: BlockId, x: Identity)
    requires x in BeforeAll(AccessesOf(f, b), {})
    ensures LiveIn(f, g, b, x)
  {
    var p := [b];
    assert IsPath(Successors(g), p) && x in Along(f, p);
  }

  lemma PathExtendsDemand(f: Function, g: CF.Graph, b: BlockId, s: BlockId, x: Identity, y: Identity)
    requires Edge(Successors(g), b, s) && LiveIn(f, g, s, y)
    requires x in BeforeAll(AccessesOf(f, b), {y})
    ensures LiveIn(f, g, b, x)
  {
    hide Successors, AccessesOf, BeforeAll;
    var q :| IsPath(Successors(g), q) && q[0] == s && y in Along(f, q);
    var p := [b] + q;
    assert p[1..] == q;
    BeforeAllMonotone(AccessesOf(f, b), {y}, Along(f, q));
    assert x in Along(f, p);
    assert IsPath(Successors(g), p) by {
      PrependEdge(Successors(g), b, q);
    }
  }

  lemma PrependEdge(e: EdgeMap, b: BlockId, q: seq<BlockId>)
    requires IsPath(e, q) && Edge(e, b, q[0])
    ensures IsPath(e, [b] + q)
  {
    var p := [b] + q;
    forall i | 0 <= i < |p| - 1
      ensures Edge(e, p[i], p[i + 1])
    {
      if i > 0 {
        assert p[i] == q[i - 1] && p[i + 1] == q[i];
      }
    }
  }

  /** One evaluation only records what some path demands. */
  lemma EvaluationDemanded(f: Function, g: CF.Graph, incoming: Facts, b: BlockId, exit: Storages, x: Identity)
    requires Demanded(f, g, incoming)
    requires forall y :: y in exit ==> LiveInSuccessor(g, incoming, b, y)
    requires x in BeforeAll(AccessesOf(f, b), exit)
    ensures LiveIn(f, g, b, x)
  {
    hide BeforeAll, AccessesOf, Successors, LiveIn;
    BeforeAllHasReason(AccessesOf(f, b), exit, x);
    if x in BeforeAll(AccessesOf(f, b), {}) {
      PathEndsDemand(f, g, b, x);
    } else {
      var y :| y in exit && x in BeforeAll(AccessesOf(f, b), {y});
      var s :| Edge(Successors(g), b, s) && y in At(incoming, s);
      PathExtendsDemand(f, g, b, s, x, y);
    }
  }

  /** A solution of all equations holds what any path demands. */
  lemma {:induction false} SolutionHoldsPath(f: Function, g: CF.Graph, incoming: Facts, outgoing: Facts,
      p: seq<BlockId>)
    requires forall b :: b in Reachables(g) ==> Solved(f, g, incoming, outgoing, b)
    requires IsPath(Successors(g), p) && p[0] in Reachables(g)
    ensures Along(f, p) <= At(incoming, p[0])
    decreases |p|
  {
    hide Successors, AccessesOf, BeforeAll, CF.Edges;
    var b := p[0];
    assert Solved(f, g, incoming, outgoing, b);
    if |p| == 1 {
      BeforeAllMonotone(AccessesOf(f, b), {}, At(outgoing, b));
    } else {
      var s := p[1];
      assert Edge(Successors(g), b, s);
      SuccessorEdge(g, b, s);
      ReachesThenEdge(CF.Edges(g), g.entry, b, s);
      SliceIsPath(Successors(g), p, 1, |p| - 1);
      assert p[1..] == p[1..|p| - 1 + 1];
      SolutionHoldsPath(f, g, incoming, outgoing, p[1..]);
      assert forall y :: y in Along(f, p[1..]) ==> LiveInSuccessor(g, incoming, b, y);
      BeforeAllMonotone(AccessesOf(f, b), Along(f, p[1..]), At(outgoing, b));
    }
  }

  /** Solving every equation with demanded facts only is exactly liveness along paths. */
  lemma SolutionIsLiveness(f: Function, g: CF.Graph, incoming: Facts, outgoing: Facts)
    requires Rising(f, g, incoming, outgoing) && Demanded(f, g, incoming)
    requires forall b :: b in Reachables(g) ==> Solved(f, g, incoming, outgoing, b)
    ensures IsLiveness(f, g, incoming, outgoing)
  {
    forall b, x | b in Reachables(g) && LiveIn(f, g, b, x)
      ensures x in incoming[b]
    {
      var p :| IsPath(Successors(g), p) && p[0] == b && x in Along(f, p);
      SolutionHoldsPath(f, g, incoming, outgoing, p);
    }
  }

  /** The computed facts are the least solution: any other solution holds them. */
  lemma LivenessIsLeast(f: Function, g: CF.Graph, incoming: Facts, outgoing: Facts, others: Facts, otherExits: Facts,
      b: BlockId)
    requires IsLiveness(f, g, incoming, outgoing)
    requires forall c :: c in Reachables(g) ==> Solved(f, g, others, otherExits, c)
    requires b in Reachables(g)
    ensures incoming[b] <= At(others, b)
    ensures outgoing[b] <= At(otherExits, b)
  {
    LeastOnEntry(f, g, incoming, outgoing, others, otherExits);
    assert Solved(f, g, incoming, outgoing, b) && Solved(f, g, others, otherExits, b);
    forall x | x in outgoing[b]
      ensures x in At(otherExits, b)
    {
      var s :| Edge(Successors(g), b, s) && x in At(incoming, s);
      assert LiveInSuccessor(g, others, b, x);
    }
  }

  lemma LeastOnEntry(f: Function, g: CF.Graph, incoming: Facts, outgoing: Facts, others: Facts, otherExits: Facts)
    requires IsLiveness(f, g, incoming, outgoing)
    requires forall c :: c in Reachables(g) ==> Solved(f, g, others, otherExits, c)
    ensures forall b :: At(incoming, b) <= At(others, b)
  {
    hide Solved;
    forall b, x | b in Reachables(g) && x in incoming[b]
      ensures x in At(others, b)
    {
      var p :| IsPath(Successors(g), p) && p[0] == b && x in Along(f, p);
      SolutionHoldsPath(f, g, others, otherExits, p);
    }
  }

  // ---------------------------------------------------------------------------
  // One update of the facts

  ghost function NoFacts(nodes: set<BlockId>): Facts {
    map b | b in nodes :: {}
  }

  lemma RisingStarts(f: Function, g: CF.Graph)
    ensures Rising(f, g, NoFacts(Reachables(g)), NoFacts(Reachables(g)))
    ensures Demanded(f, g, NoFacts(Reachables(g)))
  {
  }

  /** An evaluation never lowers a fact. */
  lemma EvaluationRises(f: Function, g: CF.Graph, incoming: Facts, outgoing: Facts, b: BlockId, exit: Storages,
      entry: Storages)
    requires Rising(f, g, incoming, outgoing) && b in Reachables(g)
    requires forall y :: y in exit <==> LiveInSuccessor(g, incoming, b, y)
    requires entry == BeforeAll(AccessesOf(f, b), exit)
    ensures incoming[b] <= entry && outgoing[b] <= exit
  {
    assert At(incoming, b) == incoming[b] && At(outgoing, b) == outgoing[b];
    BeforeAllMonotone(AccessesOf(f, b), outgoing[b], exit);
  }

  lemma LiveInSuccessorMonotone(g: CF.Graph, small: Facts, large: Facts, b: BlockId, x: Identity)
    requires forall s :: Edge(Successors(g), b, s) ==> At(small, s) <= At(large, s)
    requires LiveInSuccessor(g, small, b, x)
    ensures LiveInSuccessor(g, large, b, x)
  {
    hide Successors;
    var s :| Edge(Successors(g), b, s) && x in At(small, s);
    assert x in At(large, s);
  }

  lemma RisingUpdates(f: Function, g: CF.Graph, incoming: Facts, outgoing: Facts, b: BlockId, exit: Storages,
      entry: Storages)
    requires Rising(f, g, incoming, outgoing) && b in Reachables(g)
    requires forall y :: y in exit <==> LiveInSuccessor(g, incoming, b, y)
    requires entry == BeforeAll(AccessesOf(f, b), exit)
    ensures Rising(f, g, incoming[b := entry], outgoing[b := exit])
  {
    hide ExitsRise, EntriesRise, LiveInSuccessor, CF.Reachable, BeforeAll, AccessesOf, Reachables;
    EvaluationRises(f, g, incoming, outgoing, b, exit, entry);
    ExitsRiseUpdates(g, incoming, outgoing, b, exit, entry);
    EntriesRiseUpdates(f, incoming, outgoing, b, exit, entry);
  }

  lemma ExitsRiseUpdates(g: CF.Graph, incoming: Facts, outgoing: Facts, b: BlockId, exit: Storages, entry: Storages)
    requires ExitsRise(g, incoming, outgoing) && At(incoming, b) <= entry
    requires forall y :: y in exit ==> LiveInSuccessor(g, incoming, b, y)
    ensures ExitsRise(g, incoming[b := entry], outgoing[b := exit])
  {
    hide LiveInSuccessor;
    var incoming', outgoing' := incoming[b := entry], outgoing[b := exit];
    assert forall c :: At(incoming, c) <= At(incoming', c);
    forall c, x | x in At(outgoing', c)
      ensures LiveInSuccessor(g, incoming', c, x)
    {
      assert c != b ==> x in At(outgoing, c);
      LiveInSuccessorMonotone(g, incoming, incoming', c, x);
    }
  }

  lemma EntriesRiseUpdates(f: Function, incoming: Facts, outgoing: Facts, b: BlockId, exit: Storages, entry: Storages)
    requires EntriesRise(f, incoming, outgoing) && entry == BeforeAll(AccessesOf(f, b), exit)
    ensures EntriesRise(f, incoming[b := entry], outgoing[b := exit])
  {
    hide BeforeAll, AccessesOf;
    var incoming', outgoing' := incoming[b := entry], outgoing[b := exit];
    forall c
      ensures At(incoming', c) <= BeforeAll(AccessesOf(f, c), At(outgoing', c))
    {
      if c != b {
        assert At(incoming', c) == At(incoming, c) && At(outgoing', c) == At(outgoing, c);
      }
    }
  }

  lemma DemandedUpdates(f: Function, g: CF.Graph, incoming: Facts, b: BlockId, exit: Storages, entry: Storages)
    requires Demanded(f, g, incoming)
    requires forall y :: y in exit <==> LiveInSuccessor(g, incoming, b, y)
    requires entry == BeforeAll(AccessesOf(f, b), exit)
    ensures Demanded(f, g, incoming[b := entry])
  {
    hide LiveIn, LiveInSuccessor, BeforeAll, AccessesOf;
    forall x | x in entry
      ensures LiveIn(f, g, b, x)
    {
      EvaluationDemanded(f, g, incoming, b, exit, x);
    }
  }

  /** Only blocks with an edge into the changed block can lose their solution. */
  lemma SolvedElsewhere(f: Function, g: CF.Graph, incoming: Facts, outgoing: Facts, b: BlockId, exit: Storages,
      entry: Storages, c: BlockId)
    requires c in Reachables(g) && !Edge(Successors(g), c, b)
    requires c == b ==>
      (forall y :: y in exit <==> LiveInSuccessor(g, incoming, b, y)) && entry == BeforeAll(AccessesOf(f, b), exit)
    requires c != b ==> Solved(f, g, incoming, outgoing, c)
    ensures Solved(f, g, incoming[b := entry], outgoing[b := exit], c)
  {
    hide LiveInSuccessor, BeforeAll, AccessesOf, Successors;
    var incoming', outgoing' := incoming[b := entry], outgoing[b := exit];
    assert forall s :: Edge(Successors(g), c, s) ==> At(incoming, s) == At(incoming', s);
    forall x
      ensures LiveInSuccessor(g, incoming, c, x) <==> LiveInSuccessor(g, incoming', c, x)
    {
      if LiveInSuccessor(g, incoming, c, x) {
        LiveInSuccessorMonotone(g, incoming, incoming', c, x);
      }
      if LiveInSuccessor(g, incoming', c, x) {
        LiveInSuccessorMonotone(g, incoming', incoming, c, x);
      }
    }
  }

  // ---------------------------------------------------------------------------
  // The state of an iteration

  /** The facts only rise, record nothing unneeded, and solve the equation of every block that
      is not waiting. */
  ghost predicate Partial(f: Function, g: CF.Graph, incoming: Facts, outgoing: Facts, pending: seq<BlockId>) {
    && Rising(f, g, incoming, outgoing)
    && Demanded(f, g, incoming)
    && forall b :: b in Reachables(g) && b !in pending ==> Solved(f, g, incoming, outgoing, b)
  }

  lemma PartialStarts(f: Function, g: CF.Graph, pending: seq<BlockId>)
    requires forall b :: b in Reachables(g) ==> b in pending
    ensures Partial(f, g, NoFacts(Reachables(g)), NoFacts(Reachables(g)), pending)
  {
    hide Rising, Demanded, Solved, CF.Reachable, Reachables, NoFacts;
    RisingStarts(f, g);
  }

  /** Evaluating without a change solves the block that left the queue. */
  lemma PartialStays(f: Function, g: CF.Graph, incoming: Facts, outgoing: Facts, b: BlockId, pending: seq<BlockId>,
                     exit: Storages, entry: Storages)
    requires Partial(f, g, incoming, outgoing, [b] + pending)
    requires forall y :: y in exit <==> LiveInSuccessor(g, incoming, b, y)
    requires entry == BeforeAll(AccessesOf(f, b), exit)
    requires At(incoming, b) == entry && At(outgoing, b) == exit
    ensures Partial(f, g, incoming, outgoing, pending)
  {
    assert Solved(f, g, incoming, outgoing, b);
    hide Rising, Demanded, LiveInSuccessor, BeforeAll, AccessesOf, Solved, CF.Reachable;
    forall x | x in Reachables(g) && x !in pending
      ensures Solved(f, g, incoming, outgoing, x)
    {
      if x != b {
        assert x !in [b] + pending;
      }
    }
  }

  /** A change keeps every block solved that it does not schedule. */
  lemma PartialUpdates(f: Function, g: CF.Graph, incoming: Facts, outgoing: Facts, b: BlockId, pending: seq<BlockId>,
                       exit: Storages, entry: Storages, pending': seq<BlockId>)
    requires Partial(f, g, incoming, outgoing, [b] + pending) && b in Reachables(g)
    requires forall y :: y in exit <==> LiveInSuccessor(g, incoming, b, y)
    requires entry == BeforeAll(AccessesOf(f, b), exit)
    requires forall x :: x in pending ==> x in pending'
    requires forall x :: x in Reachables(g) && Edge(Successors(g), x, b) ==> x in pending'
    ensures Partial(f, g, incoming[b := entry], outgoing[b := exit], pending')
  {
    RisingUpdates(f, g, incoming, outgoing, b, exit, entry);
    DemandedUpdates(f, g, incoming, b, exit, entry);
    hide Rising, Demanded, LiveInSuccessor, BeforeAll, AccessesOf, Solved, CF.Reachable, Successors;
    forall x | x in Reachables(g) && x !in pending'
      ensures Solved(f, g, incoming[b := entry], outgoing[b := exit], x)
    {
      assert x != b ==> x !in [b] + pending;
      SolvedElsewhere(f, g, incoming, outgoing, b, exit, entry, x);
    }
  }

  lemma PartialEnds(f: Function, g: CF.Graph, incoming: Facts, outgoing: Facts)
    requires Partial(f, g, incoming, outgoing, [])
    ensures IsLiveness(f, g, incoming, outgoing)
  {
    hide Rising, Demanded, Solved, IsLiveness;
    SolutionIsLiveness(f, g, incoming, outgoing);
  }

  lemma PartialRises(f: Function, g: CF.Graph, incoming: Facts, outgoing: Facts, pending: seq<BlockId>, b: BlockId,
                     exit: Storages, entry: Storages)
    requires Partial(f, g, incoming, outgoing, pending) && b in Reachables(g)
    requires forall y :: y in exit <==> LiveInSuccessor(g, incoming, b, y)
    requires entry == BeforeAll(AccessesOf(f, b), exit)
    ensures At(incoming, b) <= entry && At(outgoing, b) <= exit
  {
    EvaluationRises(f, g, incoming, outgoing, b, exit, entry);
  }
}
