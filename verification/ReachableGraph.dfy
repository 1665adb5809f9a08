/** The part of a graph that is reachable from its entry, as the edge maps every structural
    and dataflow analysis works on. */
module ReachableGraph {
  import opened Graphs
  import opened BackwardSearch
  import opened Components
  import CF = ControlFlow

  ghost function Reachables(g: CF.Graph): (s: set<BlockId>)
    ensures forall b :: b in s <==> CF.Reachable(g, b)
  {
    forall b | CF.Reachable(g, b)
      ensures b in CF.IdSet(g)
    {
      ClosedSetHoldsReachable(CF.Edges(g), g.entry, b, CF.IdSet(g));
    }
    set b | b in CF.IdSet(g) && CF.Reachable(g, b)
  }

  /** The reachable sources of edges into a block. */
  ghost function Sources(g: CF.Graph, b: BlockId): set<BlockId> {
    set p | p in Reachables(g) && Edge(CF.Edges(g), p, b)
  }

  ghost function Successors(g: CF.Graph): EdgeMap {
    map b | b in Reachables(g) :: SortUnique(CF.Edges(g)[b])
  }

  ghost function Predecessors(g: CF.Graph): EdgeMap {
    map b | b in Reachables(g) :: ToVector(Sources(g, b))
  }

  lemma ReachableIsKnown(g: CF.Graph, b: BlockId)
    requires CF.Reachable(g, b)
    ensures b in CF.Edges(g)
  {
    ClosedSetHoldsReachable(CF.Edges(g), g.entry, b, CF.IdSet(g));
  }

  lemma SuccessorEdge(g: CF.Graph, a: BlockId, b: BlockId)
    ensures Edge(Successors(g), a, b) <==> CF.Reachable(g, a) && Edge(CF.Edges(g), a, b)
  {
    if CF.Reachable(g, a) {
      ReachableIsKnown(g, a);
      assert b in Successors(g)[a] <==> b in Elements(SortUnique(CF.Edges(g)[a]));
    }
  }

  lemma PredecessorEdge(g: CF.Graph, a: BlockId, b: BlockId)
    ensures Edge(Predecessors(g), b, a) <==> CF.Reachable(g, a) && Edge(CF.Edges(g), a, b)
  {
    if CF.Reachable(g, a) && Edge(CF.Edges(g), a, b) {
      ReachesThenEdge(CF.Edges(g), g.entry, a, b);
    }
    if CF.Reachable(g, b) {
      assert a in Predecessors(g)[b] <==> a in Elements(ToVector(Sources(g, b)));
    }
  }

  lemma ReachablePartIsClosed(g: CF.Graph)
    ensures Converse(Successors(g), Predecessors(g))
    ensures ClosedUnder(Reachables(g), Successors(g)) && ClosedUnder(Reachables(g), Predecessors(g))
    ensures forall n :: n in Reachables(g) ==> Distinct(Targets(Successors(g), n))
  {
    forall a, b
      ensures Edge(Successors(g), a, b) <==> Edge(Predecessors(g), b, a)
      ensures Edge(Successors(g), a, b) ==> a in Reachables(g) && b in Reachables(g)
    {
      SuccessorEdge(g, a, b);
      PredecessorEdge(g, a, b);
      if Edge(Successors(g), a, b) {
        ReachesThenEdge(CF.Edges(g), g.entry, a, b);
      }
    }
    forall n | n in Reachables(g)
      ensures Distinct(Targets(Successors(g), n))
    {
      AscendingIsDistinct(Successors(g)[n]);
    }
  }

  /** From a reachable block on, the reachable part has all the paths of the graph. */
  lemma ReachablePartHasPaths(g: CF.Graph, p: seq<BlockId>)
    requires |p| > 0 && CF.Reachable(g, p[0])
    ensures IsPath(CF.Edges(g), p) <==> IsPath(Successors(g), p)
  {
    hide Successors, CF.Edges;
    if IsPath(CF.Edges(g), p) {
      forall i | 0 <= i < |p| - 1
        ensures Edge(Successors(g), p[i], p[i + 1])
      {
        SliceIsPath(CF.Edges(g), p, 0, i);
        ReachesTransitive(CF.Edges(g), g.entry, p[0], p[i]);
        SuccessorEdge(g, p[i], p[i + 1]);
      }
    }
    if IsPath(Successors(g), p) {
      forall i | 0 <= i < |p| - 1
        ensures Edge(CF.Edges(g), p[i], p[i + 1])
      {
        SuccessorEdge(g, p[i], p[i + 1]);
      }
    }
  }

  // ---------------------------------------------------------------------------
  // From control-flow facts to edge maps

  lemma RecordReachable(g: CF.Graph, flow: CF.Result, n: nat)
    requires CF.Describes(g, flow) && n < |flow.facts|
    ensures flow.facts[n].reachable <==> flow.facts[n].block in Reachables(g)
  {
    hide CF.Reachable, CF.OrdersDescribe;
    assert CF.FactDescribes(g, flow.facts[n]);
  }

  /** The records come in ascending order of their blocks. */
  lemma FactsInOrder(g: CF.Graph, flow: CF.Result)
    requires CF.Describes(g, flow)
    ensures |flow.facts| == |ToVector(CF.IdSet(g))|
    ensures forall i :: 0 <= i < |flow.facts| ==> flow.facts[i].block == ToVector(CF.IdSet(g))[i]
    ensures flow.preorder == CF.VisitOrder(g)
  {
    hide CF.FactDescribes, CF.Reachable, CF.VisitOrder;
  }

  lemma FlowFactBlocks(g: CF.Graph, facts: seq<CF.BlockFacts>)
    requires CF.FactsDescribe(g, facts)
    ensures forall i, j :: 0 <= i < j < |facts| ==> facts[i].block < facts[j].block
    ensures forall b :: b in CF.IdSet(g) <==> exists i :: 0 <= i < |facts| && facts[i].block == b
  {
    var order := ToVector(CF.IdSet(g));
    forall b | b in CF.IdSet(g)
      ensures exists i :: 0 <= i < |facts| && facts[i].block == b
    {
      assert b in Elements(order);
      var i :| 0 <= i < |order| && order[i] == b;
      assert facts[i].block == b;
    }
    forall i | 0 <= i < |facts|
      ensures facts[i].block in CF.IdSet(g)
    {
      assert CF.FactDescribes(g, facts[i]);
    }
  }

  lemma FlowFactEdges(g: CF.Graph, f: CF.BlockFacts)
    requires CF.FactDescribes(g, f) && f.reachable
    ensures f.block in Reachables(g)
    ensures Successors(g)[f.block] == f.successors
    ensures Predecessors(g)[f.block] == f.predecessors
  {
    AscendingUnique(Successors(g)[f.block], f.successors);
    assert Elements(f.predecessors) == Sources(g, f.block);
    AscendingUnique(Predecessors(g)[f.block], f.predecessors);
  }

  ghost function ReachablePart(g: CF.Graph, reverse: bool): EdgeMap {
    if reverse then Predecessors(g) else Successors(g)
  }

  lemma ReachablePartAt(g: CF.Graph, f: CF.BlockFacts, reverse: bool)
    requires CF.FactDescribes(g, f) && f.reachable
    ensures f.block in ReachablePart(g, reverse)
    ensures ReachablePart(g, reverse)[f.block] == if reverse then f.predecessors else f.successors
  {
    FlowFactEdges(g, f);
  }

  method ReachableEdges(ghost g: CF.Graph, flow: CF.Result, reverse: bool) returns (edges: EdgeMap)
    requires CF.FactsDescribe(g, flow.facts)
    ensures edges == ReachablePart(g, reverse)
  {
    hide ReachablePart, CF.FactDescribes;
    edges := map[];
    for i := 0 to |flow.facts|
      invariant forall b :: b in edges ==> b in ReachablePart(g, reverse) && edges[b] == ReachablePart(g, reverse)[b]
      invariant forall j :: 0 <= j < i && flow.facts[j].reachable ==> flow.facts[j].block in edges
    {
      var facts := flow.facts[i];
      if facts.reachable {
        ReachablePartAt(g, facts, reverse);
        edges := edges[facts.block := if reverse then facts.predecessors else facts.successors];
      }
    }
    forall b | b in ReachablePart(g, reverse)
      ensures b in edges
    {
      ReachablePartKeys(g);
      KeyHasFact(g, flow.facts, reverse, b);
    }
  }

  lemma KeyHasFact(g: CF.Graph, facts: seq<CF.BlockFacts>, reverse: bool, b: BlockId)
    requires CF.FactsDescribe(g, facts) && b in ReachablePart(g, reverse)
    ensures exists i :: 0 <= i < |facts| && facts[i].block == b && facts[i].reachable
  {
    ReachablePartKeys(g);
    ReachableHasFact(g, facts, b);
  }

  lemma ReachablePartKeys(g: CF.Graph)
    ensures Successors(g).Keys == Reachables(g) && Predecessors(g).Keys == Reachables(g)
  {
  }

  lemma ReachableHasFact(g: CF.Graph, facts: seq<CF.BlockFacts>, b: BlockId)
    requires CF.FactsDescribe(g, facts) && b in Reachables(g)
    ensures exists i :: 0 <= i < |facts| && facts[i].block == b && facts[i].reachable
  {
    hide CF.Reachable;
    FlowFactBlocks(g, facts);
    ReachableIsKnown(g, b);
    var i :| 0 <= i < |facts| && facts[i].block == b;
    assert CF.FactDescribes(g, facts[i]);
  }
}
