/** The liveness analysis itself (Talac/Analysis/Liveness.cpp): the catalogue, the backward
    worklist loop over packed facts, and the retain-or-erase decision for every access. */
module Liveness {
  import opened Graphs
  import opened Wrappers
  import opened DenseBits
  import opened ReachableGraph
  import opened Worklist
  import opened Scheduling
  import opened LivenessTheory
  import CF = ControlFlow

  type FactMap = map<BlockId, Bits>

  /** The facts as sets of identities. */
  ghost function NamedFacts(c: Catalog, m: FactMap): Facts {
    map b | b in m :: Named(c, m[b].members)
  }

  ghost predicate Sized(c: Catalog, m: FactMap) {
    forall b :: b in m ==> m[b].Valid() && m[b].size == |c.storage|
  }

  /** Every identity the accesses mention has a position. */
  predicate CoversAccess(c: Catalog, a: Access) {
    (forall s :: s in a.uses ==> s in c.indices) && (a.write.Some? ==> a.write.value in c.indices)
  }

  predicate Covers(c: Catalog, accesses: seq<Access>) {
    forall a :: a in accesses ==> CoversAccess(c, a)
  }

  predicate CoversFunction(c: Catalog, f: Function) {
    forall b :: b in f.blocks ==> Covers(c, b.accesses)
  }

  // ---------------------------------------------------------------------------
  // Catalogue

  /** What an access reads or writes. */
  function MentionedBy(a: Access): set<Identity> {
    Elements(a.uses) + if a.write.Some? then {a.write.value} else {}
  }

  function MentionedIn(accesses: seq<Access>): set<Identity> {
    if accesses == [] then {} else MentionedIn(accesses[..|accesses| - 1]) + MentionedBy(accesses[|accesses| - 1])
  }

  /** The storage of a function: what its accesses read or write, in any block. */
  function Storage(blocks: seq<Block>): set<Identity> {
    if blocks == [] then {} else Storage(blocks[..|blocks| - 1]) + MentionedIn(blocks[|blocks| - 1].accesses)
  }

  lemma {:induction false} MentionedCovers(accesses: seq<Access>, a: Access)
    requires a in accesses
    ensures MentionedBy(a) <= MentionedIn(accesses)
  {
    var k := |accesses| - 1;
    if a != accesses[k] {
      assert accesses == accesses[..k] + [accesses[k]];
      MentionedCovers(accesses[..k], a);
    }
  }

  lemma {:induction false} StorageCovers(blocks: seq<Block>, b: Block)
    requires b in blocks
    ensures MentionedIn(b.accesses) <= Storage(blocks)
  {
    var k := |blocks| - 1;
    if b != blocks[k] {
      assert blocks == blocks[..k] + [blocks[k]];
      StorageCovers(blocks[..k], b);
    }
  }

  method MentionedInBlock(accesses: seq<Access>, before: seq<Identity>) returns (storage: seq<Identity>)
    ensures Elements(storage) == Elements(before) + MentionedIn(accesses)
  {
    storage := before;
    for j := 0 to |accesses|
      invariant Elements(storage) == Elements(before) + MentionedIn(accesses[..j])
    {
      assert accesses[..j + 1][..j] == accesses[..j];
      ghost var earlier := storage;
      storage := storage + accesses[j].uses;
      if accesses[j].write.Some? {
        storage := storage + [accesses[j].write.value];
      }
      assert Elements(storage) == Elements(earlier) + MentionedBy(accesses[j]);
    }
    assert accesses[..|accesses|] == accesses;
  }

  method BuildStorageCatalog(f: Function) returns (c: Catalog)
    ensures c.Valid() && CoversFunction(c, f)
    ensures Elements(c.storage) == Storage(f.blocks) && |c.storage| == |Storage(f.blocks)|
  {
    var storage: seq<Identity> := [];
    for i := 0 to |f.blocks|
      invariant Elements(storage) == Storage(f.blocks[..i])
    {
      assert f.blocks[..i + 1][..i] == f.blocks[..i];
      storage := MentionedInBlock(f.blocks[i].accesses, storage);
    }
    assert f.blocks[..|f.blocks|] == f.blocks;
    var unique := SortUnique(storage);
    c := IndexStorage(unique);
    DistinctSize(unique);
    forall b, a | b in f.blocks && a in b.accesses
      ensures CoversAccess(c, a)
    {
      StorageCovers(f.blocks, b);
      MentionedCovers(b.accesses, a);
      MentionedAreCovered(c, a);
    }
  }

  lemma MentionedAreCovered(c: Catalog, a: Access)
    requires c.Valid() && MentionedBy(a) <= Elements(c.storage)
    ensures CoversAccess(c, a)
  {
    forall s | s in MentionedBy(a)
      ensures s in c.indices
    {
      assert s in Elements(c.storage);
    }
    assert forall s :: s in a.uses ==> s in MentionedBy(a);
  }

  lemma CoversBlock(c: Catalog, f: Function, b: BlockId)
    requires CoversFunction(c, f)
    ensures Covers(c, AccessesOf(f, b))
  {
    if b in BlockIds(f) {
      assert f.blocks[FirstIndex(BlockIds(f), b)] in f.blocks;
    }
  }

  // ---------------------------------------------------------------------------
  // Transfer on packed facts

  method Apply(access: Access, c: Catalog, live: Bits) returns (result: Bits)
    requires c.Valid() && CoversAccess(c, access) && live.Valid() && live.size == |c.storage|
    ensures result.Valid() && result.size == live.size
    ensures Named(c, result.members) == Before(access, Named(c, live.members))
  {
    hide Named, Elements, Catalog.Valid;
    var bits := new DenseBitSet.Of(live);
    NoUses(access.uses);
    if access.write.Some? {
      var destination := c.indices[access.write.value];
      TestMeans(c, live.members, access.write.value);
      var isLive := bits.Test(destination);
      if access.removable && !isLive {
        return live;
      }
      NamedReset(c, live.members, access.write.value);
      bits.Reset(destination);
    }
    ghost var start := Named(c, bits.Value().members);
    for i := 0 to |access.uses|
      invariant fresh(bits) && fresh(bits.bits) && bits.Value().size == live.size
      invariant Named(c, bits.Value().members) == start + Elements(access.uses[..i])
    {
      ElementsPrefix(access.uses, i);
      KnownUse(c, access, i);
      NamedSet(c, bits.Value().members, access.uses[i]);
      bits.Set(c.indices[access.uses[i]]);
    }
    assert access.uses[..|access.uses|] == access.uses;
    result := bits.Contents();
  }

  lemma NoUses(uses: seq<Identity>)
    ensures Elements(uses[..0]) == {}
  {
  }

  lemma KnownUse(c: Catalog, access: Access, i: nat)
    requires c.Valid() && CoversAccess(c, access) && i < |access.uses|
    ensures access.uses[i] in c.indices && c.indices[access.uses[i]] < |c.storage|
  {
  }

  method Transfer(accesses: seq<Access>, c: Catalog, live: Bits) returns (result: Bits)
    requires c.Valid() && Covers(c, accesses) && live.Valid() && live.size == |c.storage|
    ensures result.Valid() && result.size == live.size
    ensures Named(c, result.members) == BeforeAll(accesses, Named(c, live.members))
  {
    result := live;
    var i := |accesses|;
    while i > 0
      invariant 0 <= i <= |accesses|
      invariant result.Valid() && result.size == live.size
      invariant Named(c, result.members) == BeforeAll(accesses[i..], Named(c, live.members))
    {
      i := i - 1;
      assert accesses[i] in accesses;
      assert accesses[i..][1..] == accesses[i + 1..];
      result := Apply(accesses[i], c, result);
    }
    assert accesses[0..] == accesses;
  }

  /** Union of the facts at the entries of the successors. */
  method ExitFacts(successors: seq<BlockId>, incoming: FactMap, ghost c: Catalog, storageCount: nat)
      returns (live: Bits)
    requires c.Valid() && storageCount == |c.storage| && Sized(c, incoming)
    ensures live.Valid() && live.size == storageCount
    ensures forall x :: x in Named(c, live.members) <==>
      exists s :: s in successors && x in At(NamedFacts(c, incoming), s)
  {
    var bits := new DenseBitSet(storageCount, false);
    for i := 0 to |successors|
      invariant fresh(bits) && fresh(bits.bits) && bits.Value().size == storageCount
      invariant forall x :: x in Named(c, bits.Value().members) <==>
        exists s :: s in successors[..i] && x in At(NamedFacts(c, incoming), s)
    {
      var s := successors[i];
      assert successors[..i + 1] == successors[..i] + [s];
      if s in incoming {
        NamedUnion(c, bits.Value().members, incoming[s].members);
        assert At(NamedFacts(c, incoming), s) == Named(c, incoming[s].members);
        var other := new DenseBitSet.Of(incoming[s]);
        var compatible := bits.UnionWith(other);
      } else {
        assert At(NamedFacts(c, incoming), s) == {};
      }
    }
    assert successors[..|successors|] == successors;
    live := bits.Contents();
  }

  // ---------------------------------------------------------------------------
  // The fixed point

  /** How many bits are set at the two ends of a block. */
  ghost function Heights(incoming: FactMap, outgoing: FactMap): map<BlockId, nat> {
    map b | b in incoming && b in outgoing :: |incoming[b].members| + |outgoing[b].members|
  }

  /** The packed facts stand for a partial solution. */
  ghost predicate Solving(f: Function, g: CF.Graph, c: Catalog, incoming: FactMap, outgoing: FactMap,
      pending: seq<BlockId>) {
    && incoming.Keys == outgoing.Keys == Reachables(g)
    && Sized(c, incoming) && Sized(c, outgoing)
    && Partial(f, g, NamedFacts(c, incoming), NamedFacts(c, outgoing), pending)
  }

  /** Empty facts for the blocks of a set. */
  function EmptyFacts(nodes: set<BlockId>, size: nat): FactMap {
    map b | b in nodes :: Empty(size)
  }

  lemma EmptyFactsNamed(c: Catalog, nodes: set<BlockId>)
    ensures NamedFacts(c, EmptyFacts(nodes, |c.storage|)) == NoFacts(nodes)
    ensures Sized(c, EmptyFacts(nodes, |c.storage|)) && EmptyFacts(nodes, |c.storage|).Keys == nodes
  {
    assert Named(c, {}) == {};
  }

  lemma SolvingStarts(f: Function, g: CF.Graph, c: Catalog, pending: seq<BlockId>)
    requires forall b :: b in Reachables(g) ==> b in pending
    ensures
      var empty := EmptyFacts(Reachables(g), |c.storage|);
      Solving(f, g, c, empty, empty, pending)
  {
    hide Partial, CF.Reachable, Named, NamedFacts, Sized, EmptyFacts, Reachables;
    EmptyFactsNamed(c, Reachables(g));
    PartialStarts(f, g, pending);
  }

  lemma NamedUpdate(c: Catalog, m: FactMap, b: BlockId, v: Bits)
    ensures NamedFacts(c, m[b := v]) == NamedFacts(c, m)[b := Named(c, v.members)]
  {
  }

  lemma NamedAt(c: Catalog, m: FactMap, b: BlockId)
    requires b in m
    ensures At(NamedFacts(c, m), b) == Named(c, m[b].members)
  {
  }

  /** One evaluation of block b: what the two new facts mean. */
  ghost predicate Evaluated(f: Function, g: CF.Graph, c: Catalog, incoming: FactMap, b: BlockId, exit: Bits,
      entry: Bits) {
    && exit.Valid() && entry.Valid() && exit.size == entry.size == |c.storage|
    && (forall x :: x in Named(c, exit.members) <==> LiveInSuccessor(g, NamedFacts(c, incoming), b, x))
    && Named(c, entry.members) == BeforeAll(AccessesOf(f, b), Named(c, exit.members))
  }

  lemma SolvingStays(f: Function, g: CF.Graph, c: Catalog, incoming: FactMap, outgoing: FactMap, pending: seq<BlockId>,
                     b: BlockId, exit: Bits, entry: Bits)
    requires Solving(f, g, c, incoming, outgoing, [b] + pending) && b in Reachables(g)
    requires Evaluated(f, g, c, incoming, b, exit, entry)
    requires incoming[b] == entry && outgoing[b] == exit
    ensures Solving(f, g, c, incoming, outgoing, pending)
  {
    hide Partial, LiveInSuccessor, BeforeAll, AccessesOf, NamedFacts, Named, CF.Reachable;
    NamedAt(c, incoming, b);
    NamedAt(c, outgoing, b);
    PartialStays(f, g, NamedFacts(c, incoming), NamedFacts(c, outgoing), b, pending, Named(c, exit.members),
        Named(c, entry.members));
  }

  lemma SolvingUpdates(f: Function, g: CF.Graph, c: Catalog, incoming: FactMap, outgoing: FactMap,
      pending: seq<BlockId>,
                       b: BlockId, exit: Bits, entry: Bits, pending': seq<BlockId>)
    requires Solving(f, g, c, incoming, outgoing, [b] + pending) && b in Reachables(g)
    requires Evaluated(f, g, c, incoming, b, exit, entry)
    requires forall x :: x in pending' <==> x in pending || (x in Targets(Predecessors(g), b) && x in Reachables(g))
    ensures Solving(f, g, c, incoming[b := entry], outgoing[b := exit], pending')
  {
    hide Partial, LiveInSuccessor, BeforeAll, AccessesOf, NamedFacts, Named, CF.Reachable, Successors, Predecessors;
    NamedUpdate(c, incoming, b, entry);
    NamedUpdate(c, outgoing, b, exit);
    forall x | x in Reachables(g) && Edge(Successors(g), x, b)
      ensures x in pending'
    {
      SuccessorEdge(g, x, b);
      PredecessorEdge(g, x, b);
      assert x in Targets(Predecessors(g), b);
    }
    PartialUpdates(f, g, NamedFacts(c, incoming), NamedFacts(c, outgoing), b, pending,
                   Named(c, exit.members), Named(c, entry.members), pending');
  }

  /** A changed evaluation sets at least one more bit. */
  lemma ChangeRaises(f: Function, g: CF.Graph, c: Catalog, incoming: FactMap, outgoing: FactMap, pending: seq<BlockId>,
                     b: BlockId, exit: Bits, entry: Bits)
    requires c.Valid() && Solving(f, g, c, incoming, outgoing, pending) && b in Reachables(g)
    requires Evaluated(f, g, c, incoming, b, exit, entry)
    requires incoming[b] != entry || outgoing[b] != exit
    ensures Heights(incoming, outgoing)[b] < |entry.members| + |exit.members| <= 2 * |c.storage|
  {
    hide Partial, LiveInSuccessor, BeforeAll, AccessesOf, NamedFacts, CF.Reachable;
    NamedAt(c, incoming, b);
    NamedAt(c, outgoing, b);
    PartialRises(f, g, NamedFacts(c, incoming), NamedFacts(c, outgoing), pending, b, Named(c, exit.members),
        Named(c, entry.members));
    hide Named;
    NamedSubset(c, incoming[b], entry);
    NamedSubset(c, outgoing[b], exit);
    MembersBounded(entry);
    MembersBounded(exit);
    SubsetSize(incoming[b].members, entry.members);
    SubsetSize(outgoing[b].members, exit.members);
  }

  lemma NamedSubset(c: Catalog, a: Bits, b: Bits)
    requires c.Valid() && a.Valid() && b.Valid() && a.size == b.size == |c.storage|
    requires Named(c, a.members) <= Named(c, b.members)
    ensures a.members <= b.members
  {
    forall i | i in a.members
      ensures i in b.members
    {
      var s := c.storage[i];
      assert s in c.storage;
      PositionIs(c, s, i);
      TestMeans(c, b.members, s);
    }
  }

  lemma HeightsUpdate(incoming: FactMap, outgoing: FactMap, b: BlockId, entry: Bits, exit: Bits)
    requires incoming.Keys == outgoing.Keys && b in incoming
    ensures Heights(incoming[b := entry], outgoing[b := exit])
      == Heights(incoming, outgoing)[b := |entry.members| + |exit.members|]
  {
  }

  lemma HeightsStart(nodes: set<BlockId>, size: nat)
    ensures
      var empty := EmptyFacts(nodes, size);
      var h := Heights(empty, empty);
      h.Keys == nodes && forall b :: b in h ==> h[b] <= 2 * size
  {
  }

  lemma HeightsKeys(incoming: FactMap, outgoing: FactMap)
    requires incoming.Keys == outgoing.Keys
    ensures Heights(incoming, outgoing).Keys == incoming.Keys
  {
  }

  lemma SolvingEnds(f: Function, g: CF.Graph, c: Catalog, incoming: FactMap, outgoing: FactMap)
    requires Solving(f, g, c, incoming, outgoing, [])
    ensures IsLiveness(f, g, NamedFacts(c, incoming), NamedFacts(c, outgoing))
  {
    hide Partial, IsLiveness, NamedFacts;
    PartialEnds(f, g, NamedFacts(c, incoming), NamedFacts(c, outgoing));
  }

  lemma SolvingIsSized(f: Function, g: CF.Graph, c: Catalog, incoming: FactMap, outgoing: FactMap,
      pending: seq<BlockId>)
    requires Solving(f, g, c, incoming, outgoing, pending)
    ensures incoming.Keys == outgoing.Keys == Reachables(g) && Sized(c, incoming) && Sized(c, outgoing)
  {
  }

  /** One evaluation. */
  method Evaluate(f: Function, ghost g: CF.Graph, c: Catalog, successors: seq<BlockId>, incoming: FactMap, b: BlockId)
    returns (exit: Bits, entry: Bits)
    requires c.Valid() && CoversFunction(c, f) && Sized(c, incoming) && successors == Targets(Successors(g), b)
    ensures Evaluated(f, g, c, incoming, b, exit, entry)
  {
    hide Covers, CoversFunction;
    exit := ExitFacts(successors, incoming, c, |c.storage|);
    CoversBlock(c, f, b);
    entry := Transfer(AccessesOf(f, b), c, exit);
    forall x
      ensures (exists s :: s in successors && x in At(NamedFacts(c, incoming), s))
        <==> LiveInSuccessor(g, NamedFacts(c, incoming), b, x)
    {
      if s :| s in successors && x in At(NamedFacts(c, incoming), s) {
        assert Edge(Successors(g), b, s);
      }
    }
  }

  /** The queue belongs to this graph and propagates backwards. */
  ghost predicate Driving(g: CF.Graph, flow: CF.Result, w: DataflowWorklist) {
    && w.reachable == Reachables(g) && w.direction == Backward
    && w.backwardEdges == FactEdges(flow.facts, false)
  }

  /** What the loop keeps. */
  ghost predicate State(f: Function, g: CF.Graph, c: Catalog, order: seq<BlockId>, incoming: FactMap, outgoing: FactMap,
                        pending: seq<BlockId>, scheduled: nat)
  {
    && Solving(f, g, c, incoming, outgoing, pending)
    && Budget(g, order, Backward, Heights(incoming, outgoing), 2 * |c.storage|, scheduled)
  }

  lemma StateFacts(f: Function, g: CF.Graph, c: Catalog, order: seq<BlockId>, incoming: FactMap, outgoing: FactMap,
                   pending: seq<BlockId>, scheduled: nat)
    requires State(f, g, c, order, incoming, outgoing, pending, scheduled)
    ensures incoming.Keys == outgoing.Keys == Reachables(g) && Sized(c, incoming) && Sized(c, outgoing)
    ensures Slack(order, Heights(incoming, outgoing), 2 * |c.storage|) >= 0
  {
  }

  lemma StateStarts(f: Function, g: CF.Graph, c: Catalog, order: seq<BlockId>, pending: seq<BlockId>, scheduled: nat)
    requires forall b :: b in Reachables(g) ==> b in pending
    requires Distinct(order) && Elements(order) == Reachables(g) && scheduled == |order|
    ensures
      var empty := EmptyFacts(Reachables(g), |c.storage|);
      State(f, g, c, order, empty, empty, pending, scheduled)
  {
    hide Solving, Budget, Heights, Slack, CF.Reachable, EmptyFacts, Reachables, Elements, Distinct;
    var empty := EmptyFacts(Reachables(g), |c.storage|);
    HeightsStart(Reachables(g), |c.storage|);
    SolvingStarts(f, g, c, pending);
    BudgetStarts(g, order, Backward, Heights(empty, empty), 2 * |c.storage|, scheduled);
  }

  lemma StateStays(f: Function, g: CF.Graph, c: Catalog, order: seq<BlockId>, incoming: FactMap, outgoing: FactMap,
                   pending: seq<BlockId>, scheduled: nat, b: BlockId, exit: Bits, entry: Bits)
    requires State(f, g, c, order, incoming, outgoing, [b] + pending, scheduled) && b in Reachables(g)
    requires Evaluated(f, g, c, incoming, b, exit, entry)
    requires b in incoming && b in outgoing && incoming[b] == entry && outgoing[b] == exit
    ensures State(f, g, c, order, incoming, outgoing, pending, scheduled)
  {
    hide Solving, Budget, Heights, Evaluated, CF.Reachable;
    SolvingStays(f, g, c, incoming, outgoing, pending, b, exit, entry);
  }

  lemma StateUpdates(f: Function, g: CF.Graph, c: Catalog, order: seq<BlockId>, incoming: FactMap, outgoing: FactMap,
                     pending: seq<BlockId>, scheduled: nat, b: BlockId, exit: Bits, entry: Bits,
                         pending': seq<BlockId>, scheduled': nat)
    requires c.Valid() && State(f, g, c, order, incoming, outgoing, [b] + pending, scheduled) && b in Reachables(g)
    requires Evaluated(f, g, c, incoming, b, exit, entry)
    requires b in incoming && b in outgoing && (incoming[b] != entry || outgoing[b] != exit)
    requires forall x :: x in pending' <==> x in pending || (x in Targets(Predecessors(g), b) && x in Reachables(g))
    requires scheduled' <= scheduled + |Targets(Predecessors(g), b)|
    ensures State(f, g, c, order, incoming[b := entry], outgoing[b := exit], pending', scheduled')
    ensures 0 <= Slack(order, Heights(incoming[b := entry], outgoing[b := exit]), 2 * |c.storage|)
      < Slack(order, Heights(incoming, outgoing), 2 * |c.storage|)
  {
    hide Solving, Budget, Heights, Slack, Evaluated, CF.Reachable, Predecessors, Propagation, Reachables, Targets;
    PropagationIs(g);
    SolvingIsSized(f, g, c, incoming, outgoing, [b] + pending);
    ChangeRaises(f, g, c, incoming, outgoing, [b] + pending, b, exit, entry);
    HeightsUpdate(incoming, outgoing, b, entry, exit);
    HeightsKeys(incoming, outgoing);
    BudgetRises(g, order, Backward, Heights(incoming, outgoing), 2 * |c.storage|, scheduled, b,
                |entry.members| + |exit.members|, scheduled');
    SolvingUpdates(f, g, c, incoming, outgoing, pending, b, exit, entry, pending');
  }

  lemma StateEnds(f: Function, g: CF.Graph, c: Catalog, order: seq<BlockId>, incoming: FactMap, outgoing: FactMap,
      scheduled: nat)
    requires State(f, g, c, order, incoming, outgoing, [], scheduled)
    ensures incoming.Keys == outgoing.Keys == Reachables(g) && Sized(c, incoming) && Sized(c, outgoing)
    ensures IsLiveness(f, g, NamedFacts(c, incoming), NamedFacts(c, outgoing))
    ensures scheduled <= |order| + 2 * |c.storage| * EdgeCount(g, order, Backward)
  {
    SolvingEnds(f, g, c, incoming, outgoing);
    BudgetBounds(g, order, Backward, Heights(incoming, outgoing), 2 * |c.storage|, scheduled);
  }

  lemma EveryBlockWaits(g: CF.Graph, flow: CF.Result, direction: WorklistDirection)
    requires CF.Describes(g, flow)
    ensures forall b :: b in Reachables(g) ==> b in SeedOrder(flow, direction)
  {
    SeededFor(g, flow, direction);
    assert forall b :: b in SeedOrder(flow, direction) <==> b in Elements(SeedOrder(flow, direction));
  }

  /** Take one block from the queue, evaluate it and propagate a change. */
  method Step(f: Function, ghost g: CF.Graph, ghost flow: CF.Result, c: Catalog, edges: EdgeMap,
      ghost order: seq<BlockId>,
              worklist: DataflowWorklist, incoming0: FactMap, outgoing0: FactMap)
                  returns (incoming: FactMap, outgoing: FactMap)
    requires c.Valid() && CoversFunction(c, f) && CF.Describes(g, flow)
    requires forall b :: b in Reachables(g) ==> Targets(edges, b) == Targets(Successors(g), b)
    requires worklist.Valid() && worklist.pending != [] && Driving(g, flow, worklist)
    requires State(f, g, c, order, incoming0, outgoing0, worklist.pending, worklist.statistics.scheduledBlocks)
    modifies worklist
    ensures worklist.Valid()
    ensures State(f, g, c, order, incoming, outgoing, worklist.pending, worklist.statistics.scheduledBlocks)
    ensures 0 <= Slack(order, Heights(incoming, outgoing), 2 * |c.storage|)
    ensures
      || Slack(order, Heights(incoming, outgoing), 2 * |c.storage|) < Slack(order, Heights(incoming0, outgoing0),
          2 * |c.storage|)
      || (Slack(order, Heights(incoming, outgoing), 2 * |c.storage|)
          == Slack(order, Heights(incoming0, outgoing0), 2 * |c.storage|)
          && |worklist.pending| < |old(worklist.pending)|)
  {
    hide State, Evaluated, CF.Describes, CF.Reachable, Slack, Heights, Successors, Predecessors, CoversFunction,
        FactEdges,
         Sized, Enqueue, EnqueueAll, Targets;
    incoming, outgoing := incoming0, outgoing0;
    ghost var waiting := worklist.pending;
    ghost var scheduled := worklist.statistics.scheduledBlocks;
    StateFacts(f, g, c, order, incoming, outgoing, waiting, scheduled);
    HeadAndTail(waiting);
    assert waiting[0] in Elements(waiting);
    var next := worklist.Next();
    var b := next.value;
    ghost var rest := worklist.pending;
    var exit, entry := Evaluate(f, g, c, Targets(edges, b), incoming, b);
    if incoming[b] == entry && outgoing[b] == exit {
      StateStays(f, g, c, order, incoming, outgoing, rest, scheduled, b, exit, entry);
    } else {
      worklist.NotifyChanged(b);
      AffectedIs(worklist, flow, g, b);
      StateUpdates(f, g, c, order, incoming, outgoing, rest, scheduled, b, exit, entry, worklist.pending,
                   worklist.statistics.scheduledBlocks);
      incoming := incoming[b := entry];
      outgoing := outgoing[b := exit];
    }
  }

  /** Backward worklist iteration. The statistics show that the run evaluates each of N blocks
      once and otherwise at most once for every bit, of the two facts of a block, and edge. */
  method ComputeFixedPoint(f: Function, flow: CF.Result, c: Catalog)
      returns (incoming: FactMap, outgoing: FactMap, statistics: Statistics)
    requires c.Valid() && CoversFunction(c, f)
    requires CF.Describes(ControlFlowFor(f), flow)
    ensures incoming.Keys == outgoing.Keys == Reachables(ControlFlowFor(f)) && Sized(c, incoming) && Sized(c, outgoing)
    ensures IsLiveness(f, ControlFlowFor(f), NamedFacts(c, incoming), NamedFacts(c, outgoing))
    ensures statistics.blockEvaluations == statistics.scheduledBlocks
    ensures statistics.blockEvaluations <=
      |flow.preorder| + 2 * |c.storage| * EdgeCount(ControlFlowFor(f), flow.preorder, Backward)
  {
    ghost var g := ControlFlowFor(f);
    hide State, Solving, CF.Describes, CF.Reachable, Slack, Heights, IsLiveness, Successors, Predecessors,
        CoversFunction,
         Propagation, FactEdges, EdgeCount, Sized, EnqueueAll, Targets, EmptyFacts, Distinct, Reachables;
    SeededFor(g, flow, Backward);
    SeededFor(g, flow, Forward);
    EveryBlockWaits(g, flow, Backward);
    PropagationIs(g);
    var order := flow.preorder;
    incoming := EmptyFacts(Elements(order), |c.storage|);
    outgoing := incoming;
    var edges := FactEdges(flow.facts, true);
    var worklist := new DataflowWorklist(flow, Backward);
    StateStarts(f, g, c, order, worklist.pending, worklist.statistics.scheduledBlocks);
    StateFacts(f, g, c, order, incoming, outgoing, worklist.pending, worklist.statistics.scheduledBlocks);
    while worklist.pending != []
      invariant worklist.Valid() && fresh(worklist)
      invariant Driving(g, flow, worklist)
      invariant State(f, g, c, order, incoming, outgoing, worklist.pending, worklist.statistics.scheduledBlocks)
      invariant Slack(order, Heights(incoming, outgoing), 2 * |c.storage|) >= 0
      decreases Slack(order, Heights(incoming, outgoing), 2 * |c.storage|), |worklist.pending|
    {
      incoming, outgoing := Step(f, g, flow, c, edges, order, worklist, incoming, outgoing);
    }
    StateEnds(f, g, c, order, incoming, outgoing, worklist.statistics.scheduledBlocks);
    statistics := worklist.statistics;
  }

  lemma AffectedIs(w: DataflowWorklist, flow: CF.Result, g: CF.Graph, b: BlockId)
    requires CF.Describes(g, flow) && b in Reachables(g) && Driving(g, flow, w)
    ensures w.Affected(b) == Targets(Predecessors(g), b)
  {
    SeededFor(g, flow, Backward);
    PropagationIs(g);
    hide CF.Describes, FactEdges, Predecessors, Successors, CF.Reachable;
  }

  // ---------------------------------------------------------------------------
  // Retention decisions

  datatype AccessFacts = AccessFacts(
    instruction: nat,
    terminator: bool,
    retained: bool,
    liveBefore: seq<Identity>,
    liveAfter: seq<Identity>)

  datatype BlockFacts = BlockFacts(
    block: BlockId,
    reachable: bool,
    liveOnEntry: seq<Identity>,
    liveOnExit: seq<Identity>,
    accesses: seq<AccessFacts>)

  datatype Result = Result(issues: seq<CF.Issue>, facts: seq<BlockFacts>, statistics: Statistics)

  /** A live vector: the set in ascending order, or nothing when it was not asked for. */
  ghost predicate Shows(v: seq<Identity>, live: Storages, materialize: bool) {
    if materialize then Ascending(v) && Elements(v) == live else v == []
  }

  ghost predicate AccessDescribes(a: Access, liveAfter: Storages, materialize: bool, fact: AccessFacts) {
    && fact.instruction == a.instruction && fact.terminator == a.terminator
    && (fact.retained <==> Retained(a, liveAfter))
    && Shows(fact.liveAfter, liveAfter, materialize)
    && Shows(fact.liveBefore, Before(a, liveAfter), materialize)
  }

  /** The facts of an access list whose exit has the given live set. */
  ghost predicate AccessesDescribe(accesses: seq<Access>, exit: Storages, materialize: bool, facts: seq<AccessFacts>) {
    && |facts| == |accesses|
    && forall i :: 0 <= i < |accesses| ==>
         AccessDescribes(accesses[i], BeforeAll(accesses[i + 1..], exit), materialize, facts[i])
  }

  method ShowLive(c: Catalog, live: Bits, materialize: bool) returns (v: seq<Identity>)
    requires c.Valid() && live.Valid() && live.size == |c.storage|
    ensures Shows(v, Named(c, live.members), materialize)
  {
    v := [];
    if materialize {
      v := Visible(c, live);
    }
  }

  method BuildAccessFact(access: Access, c: Catalog, live: Bits, materialize: bool)
      returns (fact: AccessFacts, before: Bits)
    requires c.Valid() && CoversAccess(c, access) && live.Valid() && live.size == |c.storage|
    ensures before.Valid() && before.size == live.size
    ensures Named(c, before.members) == Before(access, Named(c, live.members))
    ensures AccessDescribes(access, Named(c, live.members), materialize, fact)
  {
    var liveAfter := ShowLive(c, live, materialize);
    if access.write.Some? {
      TestMeans(c, live.members, access.write.value);
    }
    var retained := access.write == None || !access.removable || c.indices[access.write.value] in live.members;
    before := live;
    if retained {
      before := Apply(access, c, live);
    }
    var liveBefore := ShowLive(c, before, materialize);
    fact := AccessFacts(access.instruction, access.terminator, retained, liveBefore, liveAfter);
  }

  method BuildAccessFacts(accesses: seq<Access>, c: Catalog, exit: Bits, materialize: bool)
      returns (facts: seq<AccessFacts>)
    requires c.Valid() && Covers(c, accesses) && exit.Valid() && exit.size == |c.storage|
    ensures AccessesDescribe(accesses, Named(c, exit.members), materialize, facts)
  {
    hide AccessDescribes, CoversAccess, Before, Named;
    var live := exit;
    facts := [];
    var i := |accesses|;
    while i > 0
      invariant 0 <= i <= |accesses|
      invariant live.Valid() && live.size == |c.storage|
      invariant Named(c, live.members) == BeforeAll(accesses[i..], Named(c, exit.members))
      invariant AccessesDescribe(accesses[i..], Named(c, exit.members), materialize, facts)
    {
      i := i - 1;
      var access := accesses[i];
      assert access in accesses;
      assert accesses[i..][1..] == accesses[i + 1..];
      ghost var after := live;
      var fact;
      fact, live := BuildAccessFact(access, c, live, materialize);
      AccessesPrepend(access, accesses[i + 1..], Named(c, exit.members), materialize, fact, facts);
      assert accesses[i..] == [access] + accesses[i + 1..];
      facts := [fact] + facts;
    }
    assert accesses[0..] == accesses;
  }

  lemma AccessesPrepend(a: Access, rest: seq<Access>, exit: Storages, materialize: bool, fact: AccessFacts,
      facts: seq<AccessFacts>)
    requires AccessesDescribe(rest, exit, materialize, facts)
    requires AccessDescribes(a, BeforeAll(rest, exit), materialize, fact)
    ensures AccessesDescribe([a] + rest, exit, materialize, [fact] + facts)
  {
    hide AccessDescribes, BeforeAll;
    var all := [a] + rest;
    forall i | 0 <= i < |all|
      ensures AccessDescribes(all[i], BeforeAll(all[i + 1..], exit), materialize, ([fact] + facts)[i])
    {
      if i == 0 {
        assert all[1..] == rest;
      } else {
        assert all[i + 1..] == rest[i..];
        assert rest[i - 1 + 1..] == rest[i..];
      }
    }
  }

  /** Nothing is erased from a block that cannot execute. */
  predicate KeepsEverything(accesses: seq<Access>, facts: seq<AccessFacts>) {
    && |facts| == |accesses|
    && forall i :: 0 <= i < |accesses| ==>
         facts[i] == AccessFacts(accesses[i].instruction, accesses[i].terminator, true, [], [])
  }

  ghost predicate BlockDescribes(f: Function, g: CF.Graph, incoming: Facts, outgoing: Facts, materialize: bool,
      fact: BlockFacts) {
    && fact.block in CF.IdSet(g)
    && (fact.reachable <==> fact.block in Reachables(g))
    && (if fact.reachable then
          && AccessesDescribe(AccessesOf(f, fact.block), At(outgoing, fact.block), materialize, fact.accesses)
          && Shows(fact.liveOnEntry, At(incoming, fact.block), materialize)
          && Shows(fact.liveOnExit, At(outgoing, fact.block), materialize)
        else
          && KeepsEverything(AccessesOf(f, fact.block), fact.accesses)
          && fact.liveOnEntry == [] && fact.liveOnExit == [])
  }

  method BuildBlockFact(f: Function, ghost g: CF.Graph, reachable: set<BlockId>, c: Catalog, incoming: FactMap,
      outgoing: FactMap,
                        materialize: bool, b: BlockId) returns (fact: BlockFacts)
    requires c.Valid() && CoversFunction(c, f) && reachable == Reachables(g) && b in CF.IdSet(g)
    requires incoming.Keys == outgoing.Keys == Reachables(g) && Sized(c, incoming) && Sized(c, outgoing)
    ensures fact.block == b
    ensures BlockDescribes(f, g, NamedFacts(c, incoming), NamedFacts(c, outgoing), materialize, fact)
  {
    hide AccessesDescribe, CoversFunction, Covers, Shows, Named, AccessesOf, CF.Reachable;
    var accesses := AccessesOf(f, b);
    if b !in reachable {
      var kept := seq(|accesses|, i requires 0 <= i < |accesses| => AccessFacts(accesses[i].instruction,
          accesses[i].terminator, true, [], []));
      return BlockFacts(b, false, [], [], kept);
    }
    NamedAt(c, incoming, b);
    NamedAt(c, outgoing, b);
    CoversBlock(c, f, b);
    var entry := ShowLive(c, incoming[b], materialize);
    var exit := ShowLive(c, outgoing[b], materialize);
    var facts := BuildAccessFacts(accesses, c, outgoing[b], materialize);
    fact := BlockFacts(b, true, entry, exit, facts);
  }

  predicate FactsSorted(s: seq<BlockFacts>) {
    forall i, j :: 0 <= i < j < |s| ==> s[i].block < s[j].block
  }

  lemma FactsTail(s: seq<BlockFacts>)
    requires FactsSorted(s) && s != []
    ensures forall x :: x in s[1..] ==> s[0].block < x.block
  {
    forall x | x in s[1..]
      ensures s[0].block < x.block
    {
      var j :| 0 <= j < |s[1..]| && s[1..][j] == x;
      assert s[j + 1] == x;
    }
  }

  function InsertFact(s: seq<BlockFacts>, x: BlockFacts): (r: seq<BlockFacts>)
    requires FactsSorted(s) && forall y :: y in s ==> y.block != x.block
    ensures FactsSorted(r)
    ensures forall y :: y in r <==> y in s || y == x
  {
    if s == [] then [x]
    else if x.block < s[0].block then [x] + s
    else
      var rest := InsertFact(s[1..], x);
      assert s == [s[0]] + s[1..] && s[0] in s;
      FactsTail(s);
      assert forall y :: y in rest ==> s[0].block < y.block;
      [s[0]] + rest
  }

  function SortFacts(s: seq<BlockFacts>): (r: seq<BlockFacts>)
    requires forall i, j :: 0 <= i < j < |s| ==> s[i].block != s[j].block
    ensures FactsSorted(r)
    ensures forall x :: x in r <==> x in s
  {
    if s == [] then [] else
      var k := |s| - 1;
      assert s == s[..k] + [s[k]];
      InsertFact(SortFacts(s[..k]), s[k])
  }

  /** One record a block identity, in ascending order. */
  ghost predicate FactsDescribe(f: Function, g: CF.Graph, incoming: Facts, outgoing: Facts, materialize: bool,
      facts: seq<BlockFacts>) {
    && FactsSorted(facts)
    && (forall x :: x in facts ==> BlockDescribes(f, g, incoming, outgoing, materialize, x))
    && (forall b :: b in CF.IdSet(g) ==> exists x :: x in facts && x.block == b)
  }

  ghost predicate Emitted(f: Function, g: CF.Graph, incoming: Facts, outgoing: Facts, materialize: bool,
      facts: seq<BlockFacts>, done: set<BlockId>) {
    && (forall i, j :: 0 <= i < j < |facts| ==> facts[i].block != facts[j].block)
    && (forall x :: x in facts ==> BlockDescribes(f, g, incoming, outgoing, materialize, x) && x.block in done)
    && (forall b :: b in done ==> exists x :: x in facts && x.block == b)
  }

  lemma EmittedGrows(f: Function, g: CF.Graph, incoming: Facts, outgoing: Facts, materialize: bool,
      facts: seq<BlockFacts>,
                     done: set<BlockId>, x: BlockFacts)
    requires Emitted(f, g, incoming, outgoing, materialize, facts, done)
    requires BlockDescribes(f, g, incoming, outgoing, materialize, x) && x.block !in done
    ensures Emitted(f, g, incoming, outgoing, materialize, facts + [x], done + {x.block})
  {
    hide BlockDescribes;
    var facts' := facts + [x];
    assert forall y :: y in facts' <==> y in facts || y == x;
    forall i, j | 0 <= i < j < |facts'|
      ensures facts'[i].block != facts'[j].block
    {
      assert facts'[i] == facts[i] && facts[i] in facts;
    }
    forall b | b in done + {x.block}
      ensures exists y :: y in facts' && y.block == b
    {
      if b in done {
        var y :| y in facts && y.block == b;
        assert y in facts';
      } else {
        assert x in facts';
      }
    }
  }

  method BuildFacts(f: Function, flow: CF.Result, c: Catalog, incoming: FactMap, outgoing: FactMap, materialize: bool)
    returns (facts: seq<BlockFacts>)
    requires c.Valid() && CoversFunction(c, f) && CF.Describes(ControlFlowFor(f), flow)
    requires incoming.Keys == outgoing.Keys == Reachables(ControlFlowFor(f)) && Sized(c, incoming) && Sized(c, outgoing)
    ensures FactsDescribe(f, ControlFlowFor(f), NamedFacts(c, incoming), NamedFacts(c, outgoing), materialize, facts)
  {
    ghost var g := ControlFlowFor(f);
    hide BlockDescribes, Emitted, CF.Describes, CF.Reachable, NamedFacts, Sized, CoversFunction;
    SeededFor(g, flow, Forward);
    SameIds(f);
    var reachable := Elements(flow.preorder);
    var emitted: set<BlockId> := {};
    facts := [];
    NothingEmitted(f, g, NamedFacts(c, incoming), NamedFacts(c, outgoing), materialize);
    var ids := BlockIds(f);
    for i := 0 to |f.blocks|
      invariant emitted == Elements(ids[..i])
      invariant Emitted(f, g, NamedFacts(c, incoming), NamedFacts(c, outgoing), materialize, facts, emitted)
    {
      ElementsPrefix(ids, i);
      assert ids[i] in Elements(ids);
      if f.blocks[i].id !in emitted {
        var fact := BuildBlockFact(f, g, reachable, c, incoming, outgoing, materialize, f.blocks[i].id);
        EmittedGrows(f, g, NamedFacts(c, incoming), NamedFacts(c, outgoing), materialize, facts, emitted, fact);
        emitted := emitted + {f.blocks[i].id};
        facts := facts + [fact];
      }
    }
    assert ids[..|ids|] == ids;
    EmittedDistinct(f, g, NamedFacts(c, incoming), NamedFacts(c, outgoing), materialize, facts, emitted);
    ghost var unsorted := facts;
    facts := SortFacts(facts);
    FactsSortedDescribe(f, g, NamedFacts(c, incoming), NamedFacts(c, outgoing), materialize, unsorted, facts);
  }

  lemma NothingEmitted(f: Function, g: CF.Graph, incoming: Facts, outgoing: Facts, materialize: bool)
    ensures Emitted(f, g, incoming, outgoing, materialize, [], {})
  {
  }

  lemma EmittedDistinct(f: Function, g: CF.Graph, incoming: Facts, outgoing: Facts, materialize: bool,
      facts: seq<BlockFacts>, done: set<BlockId>)
    requires Emitted(f, g, incoming, outgoing, materialize, facts, done)
    ensures forall i, j :: 0 <= i < j < |facts| ==> facts[i].block != facts[j].block
  {
  }

  lemma FactsSortedDescribe(f: Function, g: CF.Graph, incoming: Facts, outgoing: Facts, materialize: bool,
                            unsorted: seq<BlockFacts>, facts: seq<BlockFacts>)
    requires Emitted(f, g, incoming, outgoing, materialize, unsorted, CF.IdSet(g))
    requires FactsSorted(facts) && forall x :: x in facts <==> x in unsorted
    ensures FactsDescribe(f, g, incoming, outgoing, materialize, facts)
  {
    hide BlockDescribes, FactsSorted;
    forall b | b in CF.IdSet(g)
      ensures exists x :: x in facts && x.block == b
    {
      var x :| x in unsorted && x.block == b;
      assert x in facts;
    }
  }

  /** The whole analysis. The two ghost results are the live sets the records are about. */
  method Analyze(f: Function, materializeLiveSets: bool)
      returns (result: Result, ghost incoming: Facts, ghost outgoing: Facts)
    ensures result.issues == CF.Issues(ControlFlowFor(f))
    ensures IsLiveness(f, ControlFlowFor(f), incoming, outgoing)
    ensures FactsDescribe(f, ControlFlowFor(f), incoming, outgoing, materializeLiveSets, result.facts)
    ensures result.statistics.blockEvaluations == result.statistics.scheduledBlocks
    ensures var order := CF.VisitOrder(ControlFlowFor(f));
            result.statistics.blockEvaluations <= |order|
                + 2 * |Storage(f.blocks)| * EdgeCount(ControlFlowFor(f), order, Backward)
  {
    hide CF.OrdersDescribe, CF.FactsDescribe, CF.Issues, FactsDescribe, IsLiveness, CoversFunction, EdgeCount;
    var flow := CF.AnalyzeControlFlow(ControlFlowFor(f));
    var c := BuildStorageCatalog(f);
    var entries, exits, statistics := ComputeFixedPoint(f, flow, c);
    var facts := BuildFacts(f, flow, c, entries, exits, materializeLiveSets);
    FactsInOrder(ControlFlowFor(f), flow);
    incoming, outgoing := NamedFacts(c, entries), NamedFacts(c, exits);
    result := Result(flow.issues, facts, statistics);
  }
}
