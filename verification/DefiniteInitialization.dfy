/** The definite-initialization analysis itself (Talac/Analysis/DefiniteInitialization.cpp): a
    forward must-analysis over packed bits, proved through the storage that may be missing. */
module DefiniteInitialization {
  import opened Graphs
  import opened Wrappers
  import opened DenseBits
  import opened ReachableGraph
  import opened Worklist
  import opened Scheduling
  import opened ForwardFlow
  import opened InitializationTheory
  import CF = ControlFlow

  type FactMap = map<BlockId, Bits>

  /** What a bit set of initialized storage leaves missing. */
  ghost function MissingIn(c: Catalog, b: Bits): Storages {
    Elements(c.storage) - Named(c, b.members)
  }

  /** The facts as sets of missing storage. */
  ghost function MissingFacts(c: Catalog, m: FactMap): Facts<Identity> {
    map b | b in m :: MissingIn(c, m[b])
  }

  ghost predicate Fits(c: Catalog, b: Bits) {
    b.Valid() && b.size == |c.storage|
  }

  ghost predicate Sized(c: Catalog, m: FactMap) {
    forall b :: b in m ==> Fits(c, m[b])
  }

  // ---------------------------------------------------------------------------
  // Catalogue, structural issues and entry state

  method BuildStorageCatalog(f: Function) returns (c: Catalog, issues: seq<Issue>)
    ensures c.Valid() && Elements(c.storage) == Declared(f)
    ensures issues == Redeclared(f, |f.declarations|)
  {
    issues := [];
    var storage: seq<Identity> := [];
    var unique: set<Identity> := {};
    for i := 0 to |f.declarations|
      invariant unique == Elements(f.declarations[..i]) == Elements(storage)
      invariant issues == Redeclared(f, i)
    {
      ElementsPrefix(f.declarations, i);
      var s := f.declarations[i];
      assert s in unique <==> s in f.declarations[..i];
      if s in unique {
        issues := issues + [Issue(DuplicateDeclaration, f.entry, 0, false, s, 0)];
      } else {
        assert Elements(storage + [s]) == Elements(storage) + {s};
        unique := unique + {s};
        storage := storage + [s];
      }
    }
    assert f.declarations[..|f.declarations|] == f.declarations;
    c := IndexStorage(SortUnique(storage));
  }

  method AppendControlFlowIssues(f: Function, flow: CF.Result, issues: seq<Issue>) returns (issues': seq<Issue>)
    ensures issues' == issues + AllLocated(f, flow.issues)
  {
    issues' := issues;
    for i := 0 to |flow.issues|
      invariant issues' == issues + AllLocated(f, flow.issues[..i])
    {
      var issue := flow.issues[i];
      var instruction, terminator := 0, false;
      if issue.kind == CF.MissingTarget {
        if issue.block in BlockIds(f) {
          instruction := |AccessesOf(f, issue.block)|;
        }
        terminator := true;
      }
      assert flow.issues[..i + 1][..i] == flow.issues[..i];
      issues' := issues' + [Issue(KindOf(issue.kind), issue.block, instruction, terminator, 0, issue.target)];
    }
    assert flow.issues[..|flow.issues|] == flow.issues;
  }

  method InitialStorage(f: Function, c: Catalog, issues: seq<Issue>) returns (initialized: Bits, issues': seq<Issue>)
    requires c.Valid() && Elements(c.storage) == Declared(f)
    ensures issues' == issues + UnknownInitial(f, |f.initiallyInitialized|)
    ensures Fits(c, initialized) && MissingIn(c, initialized) == InitiallyMissing(f)
  {
    initialized := Empty(|c.storage|);
    issues' := issues;
    var given := f.initiallyInitialized;
    for i := 0 to |given|
      invariant issues' == issues + UnknownInitial(f, i)
      invariant Fits(c, initialized)
      invariant MissingIn(c, initialized) == Declared(f) - Elements(given[..i])
    {
      ElementsPrefix(given, i);
      assert given[i] in c.indices <==> given[i] in Elements(c.storage);
      if given[i] !in c.indices {
        issues' := issues' + [Issue(UnknownInitialStorage, f.entry, 0, false, given[i], 0)];
      } else {
        initialized := SetBit(c, initialized, given[i]);
      }
    }
    assert given[..|given|] == given;
  }

  /** Setting the bit of a declared storage. */
  method SetBit(c: Catalog, b: Bits, x: Identity) returns (r: Bits)
    requires c.Valid() && Fits(c, b) && x in c.indices
    ensures Fits(c, r) && MissingIn(c, r) == MissingIn(c, b) - {x}
  {
    NamedSet(c, b.members, x);
    var bits := new DenseBitSet.Of(b);
    bits.Set(c.indices[x]);
    r := bits.Contents();
  }

  // ---------------------------------------------------------------------------
  // Transfer and join

  method TransferWrites(accesses: seq<Access>, c: Catalog, initialized: Bits) returns (r: Bits)
    requires c.Valid() && Fits(c, initialized)
    ensures Fits(c, r) && MissingIn(c, r) == MissingIn(c, initialized) - Writes(accesses)
  {
    r := initialized;
    assert accesses[..0] == [];
    assert Writes(accesses[..0]) == {};
    hide MissingIn, Fits, Writes, Catalog.Valid;
    for i := 0 to |accesses|
      invariant Fits(c, r) && MissingIn(c, r) == MissingIn(c, initialized) - Writes(accesses[..i])
    {
      WritesPrefix(accesses, i);
      if accesses[i].write.Some? {
        UnknownIsNotMissing(c, r, accesses[i].write.value);
        if accesses[i].write.value in c.indices {
          r := SetBit(c, r, accesses[i].write.value);
        }
      }
    }
    assert accesses[..|accesses|] == accesses;
  }

  lemma UnknownIsNotMissing(c: Catalog, b: Bits, x: Identity)
    requires c.Valid()
    ensures x !in c.indices ==> x !in MissingIn(c, b)
  {
  }

  /** The entry represents the external call; any other block keeps what every predecessor
      provides. */
  method IncomingFacts(f: Function, b: BlockId, predecessors: seq<BlockId>, c: Catalog, initial: Bits,
      outgoing: FactMap)
    returns (incoming: Bits)
    requires c.Valid() && Fits(c, initial) && Sized(c, outgoing)
    ensures Fits(c, incoming)
    ensures b == f.entry ==> incoming == initial
    ensures b != f.entry && (exists q :: q in predecessors && q in outgoing) ==>
      forall x :: x in MissingIn(c, incoming) <==>
        exists q :: q in predecessors && x in At(MissingFacts(c, outgoing), q)
  {
    if b == f.entry {
      return initial;
    }
    incoming := Empty(|c.storage|);
    if predecessors == [] {
      return;
    }
    hide MissingIn, Fits, MissingFacts;
    var first := true;
    assert predecessors[..0] == [];
    for i := 0 to |predecessors|
      invariant Fits(c, incoming)
      invariant first <==> forall q :: q in predecessors[..i] ==> q !in outgoing
      invariant !first ==> Joined(c, predecessors[..i], outgoing, MissingIn(c, incoming))
    {
      var q := predecessors[i];
      assert predecessors[..i + 1] == predecessors[..i] + [q];
      if q in outgoing {
        JoinGrows(c, predecessors[..i], outgoing, MissingIn(c, incoming), q);
        MeetIs(c, incoming, outgoing[q]);
        incoming := Meet(c, incoming, outgoing[q], first);
        first := false;
      } else {
        JoinSkips(c, predecessors[..i], outgoing, MissingIn(c, incoming), q);
      }
    }
    assert predecessors[..|predecessors|] == predecessors;
  }

  /** The first predecessor is taken over, every other one intersected. */
  method Meet(ghost c: Catalog, incoming: Bits, other: Bits, first: bool) returns (r: Bits)
    requires Fits(c, incoming) && Fits(c, other)
    ensures r == if first then other else Bits(incoming.size, incoming.members * other.members)
  {
    if first {
      return other;
    }
    var bits := new DenseBitSet.Of(incoming);
    var partner := new DenseBitSet.Of(other);
    var compatible := bits.IntersectWith(partner);
    r := bits.Contents();
  }

  /** The union of what is missing after the blocks of a list. */
  ghost predicate Joined(c: Catalog, blocks: seq<BlockId>, outgoing: FactMap, s: Storages) {
    forall x :: x in s <==> exists q :: q in blocks && x in At(MissingFacts(c, outgoing), q)
  }

  lemma JoinGrows(c: Catalog, blocks: seq<BlockId>, outgoing: FactMap, s: Storages, q: BlockId)
    requires q in outgoing
    requires (forall r :: r in blocks ==> r !in outgoing) || Joined(c, blocks, outgoing, s)
    ensures (forall r :: r in blocks ==> r !in outgoing) ==>
      Joined(c, blocks + [q], outgoing, MissingIn(c, outgoing[q]))
    ensures Joined(c, blocks, outgoing, s) ==> Joined(c, blocks + [q], outgoing, s + MissingIn(c, outgoing[q]))
  {
    hide MissingIn;
    var m := MissingFacts(c, outgoing);
    assert forall r :: r in blocks + [q] <==> r in blocks || r == q;
    assert At(m, q) == MissingIn(c, outgoing[q]);
  }

  lemma JoinSkips(c: Catalog, blocks: seq<BlockId>, outgoing: FactMap, s: Storages, q: BlockId)
    requires q !in outgoing
    ensures Joined(c, blocks, outgoing, s) ==> Joined(c, blocks + [q], outgoing, s)
  {
    hide MissingIn;
    assert forall r :: r in blocks + [q] <==> r in blocks || r == q;
    assert At(MissingFacts(c, outgoing), q) == {};
  }

  /** What is initialized on both sides is missing on neither. */
  lemma MeetIs(c: Catalog, a: Bits, b: Bits)
    requires c.Valid() && Fits(c, a) && Fits(c, b)
    ensures Fits(c, Bits(a.size, a.members * b.members))
    ensures MissingIn(c, Bits(a.size, a.members * b.members)) == MissingIn(c, a) + MissingIn(c, b)
  {
    NamedIntersection(c, a.members, b.members);
  }

  // ---------------------------------------------------------------------------
  // The fixed point

  lemma MissingAt(c: Catalog, m: FactMap, b: BlockId)
    requires b in m
    ensures At(MissingFacts(c, m), b) == MissingIn(c, m[b])
  {
  }

  lemma MissingUpdate(c: Catalog, m: FactMap, b: BlockId, v: Bits)
    ensures MissingFacts(c, m[b := v]) == MissingFacts(c, m)[b := MissingIn(c, v)]
  {
  }

  lemma MissingInjective(c: Catalog, a: Bits, b: Bits)
    requires c.Valid() && Fits(c, a) && Fits(c, b)
    ensures a == b <==> MissingIn(c, a) == MissingIn(c, b)
  {
    NamedInjective(c, a, b);
    NamedWithin(c, a.members);
    NamedWithin(c, b.members);
    var all := Elements(c.storage);
    assert Named(c, a.members) == all - MissingIn(c, a);
    assert Named(c, b.members) == all - MissingIn(c, b);
  }

  lemma NamedWithin(c: Catalog, bits: set<nat>)
    ensures Named(c, bits) <= Elements(c.storage)
  {
  }

  lemma TopMissesNothing(c: Catalog)
    requires c.Valid()
    ensures Fits(c, Full(|c.storage|)) && MissingIn(c, Full(|c.storage|)) == {}
  {
    forall x | x in Elements(c.storage)
      ensures x in Named(c, Full(|c.storage|).members)
    {
      TestMeans(c, Full(|c.storage|).members, x);
    }
  }

  /** What one evaluation of block b computes. */
  ghost predicate EvaluatedBits(f: Function, c: Catalog, outgoing: FactMap, b: BlockId, entry: Bits, exit: Bits) {
    && Fits(c, entry) && Fits(c, exit)
    && Evaluated(Missing(f), MissingFacts(c, outgoing), b, MissingIn(c, entry), MissingIn(c, exit))
  }

  method Evaluate(f: Function, b: BlockId, predecessors: seq<BlockId>, c: Catalog, initial: Bits, outgoing: FactMap)
    returns (entry: Bits, exit: Bits)
    requires c.Valid() && Fits(c, initial) && MissingIn(c, initial) == InitiallyMissing(f)
    requires Sized(c, outgoing) && outgoing.Keys == Reachables(ControlFlowFor(f)) && b in outgoing
    requires predecessors == Targets(Predecessors(ControlFlowFor(f)), b)
    ensures EvaluatedBits(f, c, outgoing, b, entry, exit)
  {
    hide Sized, Fits, MissingIn, MissingFacts, Catalog.Valid, CF.Reachable, Predecessors, Targets;
    entry := IncomingFacts(f, b, predecessors, c, initial, outgoing);
    exit := TransferWrites(AccessesOf(f, b), c, entry);
    ArrivesIs(f, b, predecessors, c, outgoing, entry);
  }

  lemma ArrivesIs(f: Function, b: BlockId, predecessors: seq<BlockId>, c: Catalog, outgoing: FactMap, entry: Bits)
    requires outgoing.Keys == Reachables(ControlFlowFor(f)) && b in outgoing
    requires predecessors == Targets(Predecessors(ControlFlowFor(f)), b)
    requires b == f.entry ==> MissingIn(c, entry) == InitiallyMissing(f)
    requires b != f.entry && (exists q :: q in predecessors && q in outgoing) ==>
      forall x :: x in MissingIn(c, entry) <==> exists q :: q in predecessors && x in At(MissingFacts(c, outgoing), q)
    ensures forall x :: x in MissingIn(c, entry) <==> Arrives(Missing(f), MissingFacts(c, outgoing), b, x)
  {
    hide MissingIn, MissingFacts, Predecessors, Successors, Targets;
    var g := ControlFlowFor(f);
    if b != f.entry {
      forall q
        ensures Edge(Successors(g), q, b) <==> q in predecessors
        ensures q in predecessors ==> q in outgoing
      {
        SuccessorEdge(g, q, b);
        PredecessorEdge(g, q, b);
      }
      HasPredecessor(g, b);
    }
  }

  /** Top everywhere, and the caller's state at the entry. */
  method InitialFacts(f: Function, preorder: seq<BlockId>, c: Catalog, initial: Bits)
      returns (incoming: FactMap, outgoing: FactMap)
    requires c.Valid() && Fits(c, initial) && MissingIn(c, initial) == InitiallyMissing(f)
    requires Elements(preorder) == Reachables(ControlFlowFor(f))
    ensures Sized(c, incoming) && Sized(c, outgoing)
    ensures Initially(Missing(f), MissingFacts(c, incoming), MissingFacts(c, outgoing))
  {
    hide Fits, MissingIn, Catalog.Valid, CF.Reachable, Reachables, Writes, AccessesOf;
    var top := Full(|c.storage|);
    TopMissesNothing(c);
    incoming := map[];
    outgoing := map[];
    assert preorder[..0] == [];
    for i := 0 to |preorder|
      invariant incoming.Keys == outgoing.Keys == Elements(preorder[..i])
      invariant Sized(c, incoming) && Sized(c, outgoing)
      invariant forall b :: b in incoming ==>
        && MissingIn(c, incoming[b]) == (if b == f.entry then InitiallyMissing(f) else {})
        && MissingIn(c, outgoing[b]) == MissingIn(c, incoming[b]) - Writes(AccessesOf(f, b))
    {
      ElementsPrefix(preorder, i);
      var b := preorder[i];
      var entry := if b == f.entry then initial else top;
      var exit := TransferWrites(AccessesOf(f, b), c, entry);
      outgoing := outgoing[b := exit];
      incoming := incoming[b := entry];
    }
    assert preorder[..|preorder|] == preorder;
    InitialFactsAre(f, c, incoming, outgoing);
  }

  lemma InitialFactsAre(f: Function, c: Catalog, incoming: FactMap, outgoing: FactMap)
    requires incoming.Keys == outgoing.Keys == Reachables(ControlFlowFor(f))
    requires forall b :: b in incoming ==>
      && MissingIn(c, incoming[b]) == (if b == f.entry then InitiallyMissing(f) else {})
      && MissingIn(c, outgoing[b]) == MissingIn(c, incoming[b]) - Writes(AccessesOf(f, b))
    ensures Initially(Missing(f), MissingFacts(c, incoming), MissingFacts(c, outgoing))
  {
    hide MissingIn, Writes, AccessesOf, CF.Reachable, Reachables;
  }

  /** Take one block from the queue, evaluate it and propagate a change. */
  method Step(f: Function, ghost flow: CF.Result, c: Catalog, edges: EdgeMap, initial: Bits, ghost order: seq<BlockId>,
              worklist: DataflowWorklist, incoming0: FactMap, outgoing0: FactMap)
                  returns (incoming: FactMap, outgoing: FactMap)
    requires c.Valid() && Fits(c, initial) && MissingIn(c, initial) == InitiallyMissing(f)
    requires CF.Describes(ControlFlowFor(f), flow)
    requires forall b :: b in Reachables(ControlFlowFor(f)) ==>
      Targets(edges, b) == Targets(Predecessors(ControlFlowFor(f)), b)
    requires worklist.Valid() && worklist.pending != [] && Driving(ControlFlowFor(f), flow, worklist)
    requires Sized(c, incoming0) && Sized(c, outgoing0)
    requires State(Missing(f), order, MissingFacts(c, incoming0), MissingFacts(c, outgoing0), worklist.pending,
      worklist.statistics.scheduledBlocks)
    modifies worklist
    ensures worklist.Valid() && Sized(c, incoming) && Sized(c, outgoing)
    ensures State(Missing(f), order, MissingFacts(c, incoming), MissingFacts(c, outgoing), worklist.pending,
      worklist.statistics.scheduledBlocks)
    ensures Left(f, c, order, incoming, outgoing) < Left(f, c, order, incoming0, outgoing0)
      || (Left(f, c, order, incoming, outgoing) == Left(f, c, order, incoming0, outgoing0)
          && |worklist.pending| < |old(worklist.pending)|)
  {
    ghost var g := ControlFlowFor(f);
    ghost var p := Missing(f);
    hide State, EvaluatedBits, CF.Describes, CF.Reachable, Room, Successors, Predecessors, FactEdges, Sized, Fits,
        MissingIn,
         MissingFacts, Enqueue, EnqueueAll, Targets, Reachables, Missing, Left, Catalog.Valid;
    incoming, outgoing := incoming0, outgoing0;
    ghost var waiting := worklist.pending;
    ghost var scheduled := worklist.statistics.scheduledBlocks;
    MissingIsWellPosed(f);
    MissingGraph(f);
    StateFacts(p, order, MissingFacts(c, incoming), MissingFacts(c, outgoing), waiting, scheduled);
    MissingKeys(c, incoming);
    MissingKeys(c, outgoing);
    HeadAndTail(waiting);
    assert waiting[0] in Elements(waiting);
    var next := worklist.Next();
    var b := next.value;
    ghost var rest := worklist.pending;
    var entry, exit := Evaluate(f, b, Targets(edges, b), c, initial, outgoing);
    EvaluatedIs(f, c, incoming, outgoing, b, entry, exit);
    if incoming[b] == entry && outgoing[b] == exit {
      StateStays(p, order, MissingFacts(c, incoming), MissingFacts(c, outgoing), rest, scheduled, b,
          MissingIn(c, entry), MissingIn(c, exit));
    } else {
      worklist.NotifyChanged(b);
      AffectedIs(worklist, flow, g, b);
      StateUpdates(p, order, MissingFacts(c, incoming), MissingFacts(c, outgoing), rest, scheduled, b,
                   MissingIn(c, entry), MissingIn(c, exit), worklist.pending, worklist.statistics.scheduledBlocks);
      MissingUpdate(c, incoming, b, entry);
      MissingUpdate(c, outgoing, b, exit);
      SizedUpdate(c, incoming, b, entry);
      SizedUpdate(c, outgoing, b, exit);
      LeftIs(f, c, order, incoming[b := entry], outgoing[b := exit]);
      LeftIs(f, c, order, incoming, outgoing);
      incoming := incoming[b := entry];
      outgoing := outgoing[b := exit];
    }
  }

  /** How far the facts may still rise. */
  ghost function Left(f: Function, c: Catalog, order: seq<BlockId>, incoming: FactMap, outgoing: FactMap): nat {
    var room := Room(Missing(f), order, MissingFacts(c, incoming), MissingFacts(c, outgoing));
    if room >= 0 then room else 0
  }

  lemma LeftIs(f: Function, c: Catalog, order: seq<BlockId>, incoming: FactMap, outgoing: FactMap)
    ensures Room(Missing(f), order, MissingFacts(c, incoming), MissingFacts(c, outgoing)) >= 0 ==>
      Left(f, c, order, incoming, outgoing)
          == Room(Missing(f), order, MissingFacts(c, incoming), MissingFacts(c, outgoing))
  {
    hide Room;
  }

  lemma MissingGraph(f: Function)
    ensures Missing(f).graph == ControlFlowFor(f) && Missing(f).universe == Declared(f)
  {
  }

  lemma MissingKeys(c: Catalog, m: FactMap)
    ensures MissingFacts(c, m).Keys == m.Keys
  {
  }

  lemma SizedUpdate(c: Catalog, m: FactMap, b: BlockId, v: Bits)
    requires Sized(c, m) && Fits(c, v)
    ensures Sized(c, m[b := v])
  {
    hide Fits;
  }

  /** An evaluation and the recorded facts agree as bits exactly when they agree as sets. */
  lemma EvaluatedIs(f: Function, c: Catalog, incoming: FactMap, outgoing: FactMap, b: BlockId, entry: Bits, exit: Bits)
    requires c.Valid() && Sized(c, incoming) && Sized(c, outgoing) && b in incoming && b in outgoing
    requires EvaluatedBits(f, c, outgoing, b, entry, exit)
    ensures Fits(c, entry) && Fits(c, exit)
    ensures Evaluated(Missing(f), MissingFacts(c, outgoing), b, MissingIn(c, entry), MissingIn(c, exit))
    ensures incoming[b] == entry <==> At(MissingFacts(c, incoming), b) == MissingIn(c, entry)
    ensures outgoing[b] == exit <==> At(MissingFacts(c, outgoing), b) == MissingIn(c, exit)
  {
    hide Fits, MissingIn, Catalog.Valid, Missing, Evaluated;
    MissingInjective(c, incoming[b], entry);
    MissingInjective(c, outgoing[b], exit);
  }

  /** Forward worklist iteration over N blocks, E edges and B declarations: at most N + 2 B E
      evaluations. */
  method ComputeFixedPoint(f: Function, flow: CF.Result, c: Catalog, initial: Bits)
    returns (incoming: FactMap, outgoing: FactMap, statistics: Statistics)
    requires c.Valid() && Fits(c, initial) && MissingIn(c, initial) == InitiallyMissing(f)
    requires CF.Describes(ControlFlowFor(f), flow)
    ensures incoming.Keys == outgoing.Keys == Reachables(ControlFlowFor(f)) && Sized(c, incoming) && Sized(c, outgoing)
    ensures IsFlow(Missing(f), MissingFacts(c, incoming), MissingFacts(c, outgoing))
    ensures statistics.blockEvaluations == statistics.scheduledBlocks
    ensures statistics.blockEvaluations <=
      |flow.preorder| + 2 * |Declared(f)| * EdgeCount(ControlFlowFor(f), flow.preorder, Forward)
  {
    ghost var g := ControlFlowFor(f);
    ghost var p := Missing(f);
    hide State, Initially, CF.Describes, CF.Reachable, Room, IsFlow, Successors, Predecessors, Propagation,
        FactEdges, EdgeCount,
         Sized, Fits, MissingIn, MissingFacts, EnqueueAll, Targets, Distinct, Reachables, Missing, Left, Catalog.Valid;
    SeededFor(g, flow, Forward);
    SeededFor(g, flow, Backward);
    EveryBlockWaits(g, flow);
    PropagationIs(g);
    MissingIsWellPosed(f);
    MissingGraph(f);
    var order := flow.preorder;
    incoming, outgoing := InitialFacts(f, order, c, initial);
    var edges := FactEdges(flow.facts, false);
    var worklist := new DataflowWorklist(flow, Forward);
    StateStarts(p, order, MissingFacts(c, incoming), MissingFacts(c, outgoing), worklist.pending,
        worklist.statistics.scheduledBlocks);
    while worklist.pending != []
      invariant worklist.Valid() && fresh(worklist)
      invariant Driving(g, flow, worklist)
      invariant Sized(c, incoming) && Sized(c, outgoing)
      invariant State(p, order, MissingFacts(c, incoming), MissingFacts(c, outgoing), worklist.pending,
        worklist.statistics.scheduledBlocks)
      decreases Left(f, c, order, incoming, outgoing), |worklist.pending|
    {
      incoming, outgoing := Step(f, flow, c, edges, initial, order, worklist, incoming, outgoing);
    }
    StateFacts(p, order, MissingFacts(c, incoming), MissingFacts(c, outgoing), [], worklist.statistics.scheduledBlocks);
    MissingKeys(c, incoming);
    MissingKeys(c, outgoing);
    StateEnds(p, order, MissingFacts(c, incoming), MissingFacts(c, outgoing), worklist.statistics.scheduledBlocks);
    statistics := worklist.statistics;
  }

  // ---------------------------------------------------------------------------
  // Validation and facts

  method ValidateReads(f: Function, b: BlockId, a: Access, c: Catalog, initialized: Bits, issues: seq<Issue>)
      returns (issues': seq<Issue>)
    requires c.Valid() && Fits(c, initialized) && Elements(c.storage) == Declared(f)
    ensures issues' == issues + ReadIssues(f, b, a, MissingIn(c, initialized), |a.uses|)
  {
    issues' := issues;
    for i := 0 to |a.uses|
      invariant issues' == issues + ReadIssues(f, b, a, MissingIn(c, initialized), i)
    {
      var x := a.uses[i];
      assert x in c.indices <==> x in Elements(c.storage);
      if x !in c.indices {
        issues' := issues' + [IssueAt(UnknownReadStorage, b, a, x)];
      } else {
        TestMeans(c, initialized.members, x);
        if c.indices[x] !in initialized.members {
          issues' := issues' + [IssueAt(ReadBeforeInitialization, b, a, x)];
        }
      }
    }
  }

  method ValidateAccess(f: Function, b: BlockId, a: Access, c: Catalog, initialized: Bits, issues: seq<Issue>)
    returns (after: Bits, issues': seq<Issue>)
    requires c.Valid() && Fits(c, initialized) && Elements(c.storage) == Declared(f)
    ensures issues' == issues + AccessIssues(f, b, a, MissingIn(c, initialized))
    ensures Fits(c, after) && MissingIn(c, after) == MissingIn(c, initialized) - Written(a)
  {
    hide MissingIn, ReadIssues, Fits;
    after := initialized;
    issues' := ValidateReads(f, b, a, c, initialized, issues);
    if a.write.Some? {
      var x := a.write.value;
      assert x in c.indices <==> x in Elements(c.storage);
      UnknownIsNotMissing(c, initialized, x);
      if x !in c.indices {
        issues' := issues' + [IssueAt(UnknownWriteStorage, b, a, x)];
      } else {
        after := SetBit(c, initialized, x);
      }
    }
  }

  lemma BlockIssuesPrefix(f: Function, b: BlockId, accesses: seq<Access>, missing: Storages, issues: seq<Issue>, i: nat)
    requires i < |accesses|
    ensures issues + BlockIssues(f, b, accesses[..i + 1], missing)
         == issues + BlockIssues(f, b, accesses[..i], missing)
            + AccessIssues(f, b, accesses[i], missing - Writes(accesses[..i]))
  {
    hide AccessIssues, Writes;
    assert accesses[..i + 1][..i] == accesses[..i];
  }

  method ValidateBlock(f: Function, b: BlockId, c: Catalog, entry: Bits, issues: seq<Issue>)
      returns (issues': seq<Issue>)
    requires c.Valid() && Fits(c, entry) && Elements(c.storage) == Declared(f)
    ensures issues' == issues + BlockIssues(f, b, AccessesOf(f, b), MissingIn(c, entry))
  {
    var accesses := AccessesOf(f, b);
    issues' := issues;
    var initialized := entry;
    assert accesses[..0] == [];
    assert Writes(accesses[..0]) == {};
    assert BlockIssues(f, b, accesses[..0], MissingIn(c, entry)) == [];
    hide MissingIn, Fits, Catalog.Valid, AccessesOf, AccessIssues, Writes, Declared, BlockIssues;
    for i := 0 to |accesses|
      invariant Fits(c, initialized) && MissingIn(c, initialized) == MissingIn(c, entry) - Writes(accesses[..i])
      invariant issues' == issues + BlockIssues(f, b, accesses[..i], MissingIn(c, entry))
    {
      WritesPrefix(accesses, i);
      BlockIssuesPrefix(f, b, accesses, MissingIn(c, entry), issues, i);
      initialized, issues' := ValidateAccess(f, b, accesses[i], c, initialized, issues');
    }
    assert accesses[..|accesses|] == accesses;
  }

  method ValidateAccesses(f: Function, preorder: seq<BlockId>, c: Catalog, incoming: FactMap, issues: seq<Issue>)
      returns (issues': seq<Issue>)
    requires c.Valid() && Sized(c, incoming) && Elements(c.storage) == Declared(f)
    requires incoming.Keys == Elements(preorder)
    ensures issues' == issues + FlowIssues(f, preorder, MissingFacts(c, incoming))
  {
    hide MissingIn, Fits, Catalog.Valid, AccessesOf, BlockIssues, MissingFacts;
    issues' := issues;
    for i := 0 to |preorder|
      invariant issues' == issues + FlowIssues(f, preorder[..i], MissingFacts(c, incoming))
    {
      var b := preorder[i];
      assert b in Elements(preorder);
      assert preorder[..i + 1][..i] == preorder[..i];
      MissingAt(c, incoming, b);
      issues' := ValidateBlock(f, b, c, incoming[b], issues');
    }
    assert preorder[..|preorder|] == preorder;
  }

  datatype BlockFacts = BlockFacts(
    block: BlockId,
    reachable: bool,
    initializedOnEntry: seq<Identity>,
    initializedOnExit: seq<Identity>)

  datatype Result = Result(issues: seq<Issue>, facts: seq<BlockFacts>, statistics: Statistics)

  /** The sets of a record, in ascending order; nothing for a block that cannot execute. */
  ghost predicate FactDescribes(f: Function, missing: Facts<Identity>, missingAfter: Facts<Identity>,
      fact: BlockFacts) {
    && (fact.reachable <==> fact.block in Reachables(ControlFlowFor(f)))
    && Ascending(fact.initializedOnEntry) && Ascending(fact.initializedOnExit)
    && Elements(fact.initializedOnEntry) == (if fact.reachable then Declared(f) - At(missing, fact.block) else {})
    && Elements(fact.initializedOnExit) == (if fact.reachable then Declared(f) - At(missingAfter, fact.block) else {})
  }

  method VisibleStorage(f: Function, c: Catalog, bits: Bits) returns (storage: seq<Identity>)
    requires c.Valid() && Fits(c, bits) && Elements(c.storage) == Declared(f)
    ensures Ascending(storage) && Elements(storage) == Declared(f) - MissingIn(c, bits)
  {
    storage := Visible(c, bits);
    NamedWithin(c, bits.members);
  }

  method BuildFacts(f: Function, flow: CF.Result, c: Catalog, incoming: FactMap, outgoing: FactMap)
      returns (facts: seq<BlockFacts>)
    requires c.Valid() && Sized(c, incoming) && Sized(c, outgoing) && Elements(c.storage) == Declared(f)
    requires CF.Describes(ControlFlowFor(f), flow)
    requires incoming.Keys == outgoing.Keys == Reachables(ControlFlowFor(f))
    ensures |facts| == |flow.facts|
    ensures forall i :: 0 <= i < |facts| ==>
      facts[i].block == flow.facts[i].block
          && FactDescribes(f, MissingFacts(c, incoming), MissingFacts(c, outgoing), facts[i])
  {
    hide MissingIn, Fits, Catalog.Valid, CF.Reachable, Reachables, MissingFacts, Declared, FactDescribes,
        CF.Describes, Sized;
    facts := [];
    for n := 0 to |flow.facts|
      invariant |facts| == n
      invariant forall i :: 0 <= i < n ==>
        facts[i].block == flow.facts[i].block
            && FactDescribes(f, MissingFacts(c, incoming), MissingFacts(c, outgoing), facts[i])
    {
      var b := flow.facts[n].block;
      RecordReachable(ControlFlowFor(f), flow, n);
      var fact := BuildFact(f, c, incoming, outgoing, b, flow.facts[n].reachable);
      facts := facts + [fact];
    }
  }

  method BuildFact(f: Function, c: Catalog, incoming: FactMap, outgoing: FactMap, b: BlockId, reachable: bool)
      returns (fact: BlockFacts)
    requires c.Valid() && Sized(c, incoming) && Sized(c, outgoing) && Elements(c.storage) == Declared(f)
    requires incoming.Keys == outgoing.Keys == Reachables(ControlFlowFor(f))
    requires reachable <==> b in Reachables(ControlFlowFor(f))
    ensures fact.block == b && FactDescribes(f, MissingFacts(c, incoming), MissingFacts(c, outgoing), fact)
  {
    hide MissingIn, Fits, Catalog.Valid, CF.Reachable, Reachables, MissingFacts, Declared;
    if !reachable {
      return BlockFacts(b, false, [], []);
    }
    MissingAt(c, incoming, b);
    MissingAt(c, outgoing, b);
    var entry := VisibleStorage(f, c, incoming[b]);
    var exit := VisibleStorage(f, c, outgoing[b]);
    fact := BlockFacts(b, true, entry, exit);
  }

  /** One record a block in ascending order, or none where they are not asked for. */
  ghost predicate FactsDescribe(f: Function, missing: Facts<Identity>, missingAfter: Facts<Identity>,
      materializeFacts: bool, facts: seq<BlockFacts>) {
    var blocks := ToVector(CF.IdSet(ControlFlowFor(f)));
    if !materializeFacts then facts == []
    else
      |facts| == |blocks| && forall i :: 0 <= i < |facts| ==>
        facts[i].block == blocks[i] && FactDescribes(f, missing, missingAfter, facts[i])
  }

  method MaterializedFacts(f: Function, flow: CF.Result, c: Catalog, incoming: FactMap, outgoing: FactMap,
      materializeFacts: bool)
    returns (facts: seq<BlockFacts>)
    requires c.Valid() && Sized(c, incoming) && Sized(c, outgoing) && Elements(c.storage) == Declared(f)
    requires CF.Describes(ControlFlowFor(f), flow)
    requires incoming.Keys == outgoing.Keys == Reachables(ControlFlowFor(f))
    ensures FactsDescribe(f, MissingFacts(c, incoming), MissingFacts(c, outgoing), materializeFacts, facts)
  {
    hide CF.Describes, CF.Reachable, CF.IdSet, Reachables, ToVector, FactDescribes, MissingFacts, Sized, Catalog.Valid;
    facts := [];
    if materializeFacts {
      facts := BuildFacts(f, flow, c, incoming, outgoing);
      FactsInOrder(ControlFlowFor(f), flow);
    }
  }

  /** The whole analysis. The two ghost results are what may be missing around each block. */
  method Analyze(f: Function, materializeFacts: bool)
    returns (result: Result, ghost order: seq<BlockId>, ghost missing: Facts<Identity>,
        ghost missingAfter: Facts<Identity>)
    ensures order == CF.VisitOrder(ControlFlowFor(f)) && Distinct(order)
      && Elements(order) == Reachables(ControlFlowFor(f))
    ensures IsFlow(Missing(f), missing, missingAfter)
    ensures result.issues == AllIssues(f, order, missing)
    ensures FactsDescribe(f, missing, missingAfter, materializeFacts, result.facts)
    ensures result.statistics.blockEvaluations == result.statistics.scheduledBlocks
    ensures result.statistics.blockEvaluations <= |order|
      + 2 * |Declared(f)| * EdgeCount(ControlFlowFor(f), order, Forward)
  {
    hide FactsDescribe, CF.VisitOrder, Distinct, CF.Describes, CF.OrdersDescribe, CF.FactsDescribe, CF.Issues,
        IsFlow, EdgeCount, FactDescribes, MissingIn, Fits, Catalog.Valid,
         MissingFacts, Sized, Redeclared, AllLocated, UnknownInitial, FlowIssues, CF.Reachable, Reachables, Declared;
    var c, declared := BuildStorageCatalog(f);
    var flow := CF.AnalyzeControlFlow(ControlFlowFor(f));
    var located := AppendControlFlowIssues(f, flow, declared);
    var initial, known := InitialStorage(f, c, located);
    var incoming, outgoing, statistics := ComputeFixedPoint(f, flow, c, initial);
    SeededFor(ControlFlowFor(f), flow, Forward);
    var issues := ValidateAccesses(f, flow.preorder, c, incoming, known);
    var facts := MaterializedFacts(f, flow, c, incoming, outgoing, materializeFacts);
    FactsInOrder(ControlFlowFor(f), flow);
    order, missing, missingAfter := flow.preorder, MissingFacts(c, incoming), MissingFacts(c, outgoing);
    result := Result(issues, facts, statistics);
  }

  /** Storage is recorded as initialized on entry to a block exactly when every path from the
      entry to that block initializes it first. */
  lemma InitializedOnEveryPath(f: Function, missing: Facts<Identity>, missingAfter: Facts<Identity>,
      fact: BlockFacts, x: Identity)
    requires IsFlow(Missing(f), missing, missingAfter) && FactDescribes(f, missing, missingAfter, fact)
      && fact.reachable
    ensures x in fact.initializedOnEntry <==>
      x in Declared(f) && forall path :: PathBetween(CF.Edges(ControlFlowFor(f)), path, f.entry, fact.block) ==>
          !Uninitialized(f, path, x)
  {
    hide IsFlow, CF.Edges, CF.Reachable, Reachables, Uninitialized, At;
    MissingAtEntry(f, missing, missingAfter, fact.block, x);
    assert x in fact.initializedOnEntry <==> x in Elements(fact.initializedOnEntry);
  }
}
