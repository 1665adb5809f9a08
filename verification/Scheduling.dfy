/** What one worklist run over the reachable part of a graph starts from, and what it may
    cost: the accounting the three dataflow analyses share. */
module Scheduling {
  import opened Graphs
  import opened ReachableGraph
  import opened Worklist
  import CF = ControlFlow

  /** The list a change of a block is propagated along. */
  ghost function Propagation(g: CF.Graph, direction: WorklistDirection): EdgeMap {
    if direction == Forward then Successors(g) else Predecessors(g)
  }

  ghost function Degrees(g: CF.Graph, direction: WorklistDirection): (d: map<BlockId, nat>)
    ensures d.Keys == Reachables(g)
  {
    map b | b in Reachables(g) :: |Targets(Propagation(g, direction), b)|
  }

  /** The number of edges changes are propagated along. */
  ghost function EdgeCount(g: CF.Graph, order: seq<BlockId>, direction: WorklistDirection): nat {
    Total(order, Degrees(g, direction))
  }

  // ---------------------------------------------------------------------------
  // Seeding

  lemma {:induction false} FactEdgesAt(facts: seq<CF.BlockFacts>, forward: bool, i: nat)
    requires i < |facts| && forall j, k :: 0 <= j < k < |facts| ==> facts[j].block != facts[k].block
    ensures facts[i].block in FactEdges(facts, forward)
    ensures FactEdges(facts, forward)[facts[i].block] == if forward then facts[i].successors else facts[i].predecessors
  {
    var k := |facts| - 1;
    if i < k {
      FactEdgesAt(facts[..k], forward, i);
      assert facts[..k][i] == facts[i];
    } else {
      FactEdgesKnown(facts[..k], forward, facts[k].block);
    }
  }

  lemma {:induction false} FactEdgesKnown(facts: seq<CF.BlockFacts>, forward: bool, b: BlockId)
    requires forall j :: 0 <= j < |facts| ==> facts[j].block != b
    ensures b !in FactEdges(facts, forward)
  {
    if facts != [] {
      FactEdgesKnown(facts[..|facts| - 1], forward, b);
    }
  }

  /** The queue starts with every reachable block once, in propagation order, and forwards
      changes along the reachable edges. */
  lemma SeededFor(g: CF.Graph, flow: CF.Result, direction: WorklistDirection)
    requires CF.Describes(g, flow)
    ensures ReachableBlocks(flow.facts) == Reachables(g)
    ensures EnqueueAll([], Reachables(g), SeedOrder(flow, direction)) == SeedOrder(flow, direction)
    ensures Distinct(SeedOrder(flow, direction)) && Elements(SeedOrder(flow, direction)) == Reachables(g)
    ensures Elements(flow.preorder) == Reachables(g) && Distinct(flow.preorder)
    ensures |SeedOrder(flow, direction)| == |flow.preorder|
    ensures forall b :: b in Reachables(g) ==>
      Targets(FactEdges(flow.facts, direction == Forward), b) == Targets(Propagation(g, direction), b)
  {
    hide Successors, Predecessors, CF.Reachable;
    var order := SeedOrder(flow, direction);
    SeedIsReachable(g, flow, direction);
    assert forall b :: b in order ==> b in Elements(order);
    SeedingKeepsOrder(Reachables(g), order);
    SeedSize(g, flow, direction);
    SeedBlocks(g, flow);
    forall b | b in Reachables(g)
      ensures Targets(FactEdges(flow.facts, direction == Forward), b) == Targets(Propagation(g, direction), b)
    {
      SeedEdges(g, flow, direction, b);
    }
  }

  lemma SeedIsReachable(g: CF.Graph, flow: CF.Result, direction: WorklistDirection)
    requires CF.Describes(g, flow)
    ensures Distinct(SeedOrder(flow, direction)) && Elements(SeedOrder(flow, direction)) == Reachables(g)
    ensures Elements(flow.preorder) == Reachables(g) && Distinct(flow.preorder)
  {
    hide CF.FactsDescribe, CF.Reachable, CF.Edges;
    var r := CF.Reverse(flow.reversePostorder);
    assert Distinct(r);
    ReverseDistinct(flow.reversePostorder);
  }

  lemma ReverseDistinct(s: seq<BlockId>)
    requires Distinct(CF.Reverse(s))
    ensures Distinct(s)
  {
    var r := CF.Reverse(s);
    forall i, j | 0 <= i < j < |s|
      ensures s[i] != s[j]
    {
      assert r[|s| - 1 - i] == s[i] && r[|s| - 1 - j] == s[j];
    }
  }

  lemma SeedSize(g: CF.Graph, flow: CF.Result, direction: WorklistDirection)
    requires CF.Describes(g, flow)
    ensures |SeedOrder(flow, direction)| == |flow.preorder|
  {
    SeedIsReachable(g, flow, direction);
    DistinctSize(SeedOrder(flow, direction));
    DistinctSize(flow.preorder);
  }

  lemma SeedBlocks(g: CF.Graph, flow: CF.Result)
    requires CF.Describes(g, flow)
    ensures ReachableBlocks(flow.facts) == Reachables(g)
  {
    hide CF.Reachable, CF.OrdersDescribe;
    forall b | b in ReachableBlocks(flow.facts)
      ensures b in Reachables(g)
    {
      var i :| 0 <= i < |flow.facts| && flow.facts[i].reachable && flow.facts[i].block == b;
      assert CF.FactDescribes(g, flow.facts[i]);
    }
    forall b | b in Reachables(g)
      ensures b in ReachableBlocks(flow.facts)
    {
      ReachableHasFact(g, flow.facts, b);
    }
  }

  lemma SeedEdges(g: CF.Graph, flow: CF.Result, direction: WorklistDirection, b: BlockId)
    requires CF.Describes(g, flow) && b in Reachables(g)
    ensures Targets(FactEdges(flow.facts, direction == Forward), b) == Targets(Propagation(g, direction), b)
  {
    hide CF.Reachable, CF.OrdersDescribe, Successors, Predecessors, FactEdges;
    ReachableHasFact(g, flow.facts, b);
    var i :| 0 <= i < |flow.facts| && flow.facts[i].block == b && flow.facts[i].reachable;
    FlowFactBlocks(g, flow.facts);
    assert CF.FactDescribes(g, flow.facts[i]);
    FlowFactEdges(g, flow.facts[i]);
    ReachablePartKeys(g);
    FactEdgesAt(flow.facts, direction == Forward, i);
  }

  // ---------------------------------------------------------------------------
  // Accounting

  /** Every scheduling so far is a seed or paid for by a rise of some height, and no height
      exceeds the cap. */
  ghost predicate Accounted(g: CF.Graph, order: seq<BlockId>, direction: WorklistDirection, height: map<BlockId, nat>,
                            cap: nat, scheduled: nat)
  {
    && Distinct(order) && Elements(order) == Reachables(g)
    && (forall b :: b in order ==> b in height && height[b] <= cap)
    && (forall b :: b in order ==> b in Degrees(g, direction))
    && scheduled <= |order| + Charged(order, Degrees(g, direction), height)
  }

  lemma AccountStarts(g: CF.Graph, order: seq<BlockId>, direction: WorklistDirection, height: map<BlockId, nat>,
      cap: nat, scheduled: nat)
    requires Distinct(order) && Elements(order) == Reachables(g) && scheduled == |order|
    requires forall b :: b in order ==> b in height && height[b] <= cap
    ensures Accounted(g, order, direction, height, cap, scheduled)
  {
    forall b | b in order
      ensures b in Degrees(g, direction)
    {
      assert b in Elements(order);
    }
  }

  lemma DegreeIs(g: CF.Graph, direction: WorklistDirection, b: BlockId)
    requires b in Reachables(g)
    ensures Degrees(g, direction)[b] == |Targets(Propagation(g, direction), b)|
  {
  }

  /** A change raises the height of its block, and that pays for the blocks it schedules. */
  lemma AccountRises(g: CF.Graph, order: seq<BlockId>, direction: WorklistDirection, height: map<BlockId, nat>,
      cap: nat,
                     scheduled: nat, b: BlockId, h: nat, scheduled': nat)
    requires Accounted(g, order, direction, height, cap, scheduled) && b in Reachables(g)
    requires b in height && height[b] < h <= cap
    requires scheduled' <= scheduled + |Targets(Propagation(g, direction), b)|
    ensures Accounted(g, order, direction, height[b := h], cap, scheduled')
  {
    hide Accounted, Propagation, Elements, Charged, Degrees, Distinct, Targets, Reachables;
    AccountMeans(g, order, direction, height, cap, scheduled, b);
    RisePays(g, order, direction, height, b, h);
    HeightsStay(order, height, cap, b, h);
    AccountHolds(g, order, direction, height[b := h], cap, scheduled');
  }

  lemma AccountHolds(g: CF.Graph, order: seq<BlockId>, direction: WorklistDirection, height: map<BlockId, nat>,
      cap: nat,
                     scheduled: nat)
    requires Distinct(order) && Elements(order) == Reachables(g)
    requires forall x :: x in order ==> x in height && height[x] <= cap
    requires forall x :: x in order ==> x in Degrees(g, direction)
    requires scheduled <= |order| + Charged(order, Degrees(g, direction), height)
    ensures Accounted(g, order, direction, height, cap, scheduled)
  {
    hide Propagation, Elements, Charged, Degrees, Distinct, Targets, Reachables;
  }

  lemma RisePays(g: CF.Graph, order: seq<BlockId>, direction: WorklistDirection, height: map<BlockId, nat>,
      b: BlockId, h: nat)
    requires Distinct(order) && b in order && b in Degrees(g, direction) && b in Reachables(g)
    requires forall x :: x in order ==> x in height && x in Degrees(g, direction)
    requires b in height && height[b] < h
    ensures Charged(order, Degrees(g, direction), height) + |Targets(Propagation(g, direction), b)|
         <= Charged(order, Degrees(g, direction), height[b := h])
  {
    DegreeIs(g, direction, b);
    hide Propagation, Charged, Degrees, Distinct, Targets, CF.Reachable, Reachables;
    ChargedRaised(order, Degrees(g, direction), height, b, h);
  }

  lemma HeightsStay(order: seq<BlockId>, height: map<BlockId, nat>, cap: nat, b: BlockId, h: nat)
    requires forall x :: x in order ==> x in height && height[x] <= cap
    requires h <= cap
    ensures var after := height[b := h]; forall x :: x in order ==> x in after && after[x] <= cap
  {
  }

  lemma AccountMeans(g: CF.Graph, order: seq<BlockId>, direction: WorklistDirection, height: map<BlockId, nat>,
      cap: nat,
                     scheduled: nat, b: BlockId)
    requires Accounted(g, order, direction, height, cap, scheduled) && b in Reachables(g)
    ensures b in order && b in Degrees(g, direction) && Distinct(order) && Elements(order) == Reachables(g)
    ensures forall x :: x in order ==> x in height && height[x] <= cap
    ensures forall x :: x in order ==> x in Degrees(g, direction)
    ensures scheduled <= |order| + Charged(order, Degrees(g, direction), height)
  {
    assert b in Elements(order);
  }

  /** The sum of the heights rises with every change and is bounded: the loop ends. */
  lemma HeightRises(g: CF.Graph, order: seq<BlockId>, height: map<BlockId, nat>, cap: nat, b: BlockId, h: nat)
    requires Distinct(order) && Elements(order) == Reachables(g) && b in Reachables(g)
    requires forall x :: x in order ==> x in height && height[x] <= cap
    requires b in height && height[b] < h <= cap
    ensures Total(order, height[b := h]) > Total(order, height)
    ensures Total(order, height[b := h]) <= cap * |order|
  {
    assert b in Elements(order);
    hide Elements, Total, Distinct;
    TotalRaised(order, height, b, h);
    TotalBounded(order, height[b := h], cap);
  }

  /** A run schedules at most one visit a block and one a bit and edge. */
  lemma AccountBounds(g: CF.Graph, order: seq<BlockId>, direction: WorklistDirection, height: map<BlockId, nat>,
      cap: nat, scheduled: nat)
    requires Accounted(g, order, direction, height, cap, scheduled)
    ensures scheduled <= |order| + cap * EdgeCount(g, order, direction)
  {
    ChargedBounded(order, Degrees(g, direction), height, cap);
  }

  // ---------------------------------------------------------------------------
  // One budget for the whole run

  /** How far the heights may still rise. */
  ghost function Slack(order: seq<BlockId>, height: map<BlockId, nat>, cap: nat): int {
    cap * |order| - Total(order, height)
  }

  ghost predicate Budget(g: CF.Graph, order: seq<BlockId>, direction: WorklistDirection, height: map<BlockId, nat>,
                         cap: nat, scheduled: nat)
  {
    && Accounted(g, order, direction, height, cap, scheduled)
    && height.Keys == Reachables(g)
    && Slack(order, height, cap) >= 0
  }

  lemma BudgetStarts(g: CF.Graph, order: seq<BlockId>, direction: WorklistDirection, height: map<BlockId, nat>,
      cap: nat, scheduled: nat)
    requires Distinct(order) && Elements(order) == Reachables(g) && scheduled == |order|
    requires height.Keys == Reachables(g) && forall b :: b in height ==> height[b] <= cap
    ensures Budget(g, order, direction, height, cap, scheduled)
    ensures Slack(order, height, cap) >= 0
  {
    forall b | b in order
      ensures b in height
    {
      assert b in Elements(order);
    }
    AccountStarts(g, order, direction, height, cap, scheduled);
    TotalBounded(order, height, cap);
  }

  /** A change keeps the budget and lowers the slack. */
  lemma BudgetRises(g: CF.Graph, order: seq<BlockId>, direction: WorklistDirection, height: map<BlockId, nat>, cap: nat,
                    scheduled: nat, b: BlockId, h: nat, scheduled': nat)
    requires Budget(g, order, direction, height, cap, scheduled) && b in Reachables(g)
    requires b in height && height[b] < h <= cap
    requires scheduled' <= scheduled + |Targets(Propagation(g, direction), b)|
    ensures Budget(g, order, direction, height[b := h], cap, scheduled')
    ensures 0 <= Slack(order, height[b := h], cap) < Slack(order, height, cap)
  {
    hide Total, Charged, Degrees, Propagation, Targets, CF.Reachable, Reachables;
    AccountRises(g, order, direction, height, cap, scheduled, b, h, scheduled');
    HeightRises(g, order, height, cap, b, h);
  }

  lemma BudgetBounds(g: CF.Graph, order: seq<BlockId>, direction: WorklistDirection, height: map<BlockId, nat>,
      cap: nat, scheduled: nat)
    requires Budget(g, order, direction, height, cap, scheduled)
    ensures scheduled <= |order| + cap * EdgeCount(g, order, direction)
  {
    AccountBounds(g, order, direction, height, cap, scheduled);
  }

  lemma HeadAndTail(s: seq<BlockId>)
    requires s != []
    ensures s == [s[0]] + s[1..]
  {
  }

  lemma PropagationIs(g: CF.Graph)
    ensures Propagation(g, Forward) == Successors(g) && Propagation(g, Backward) == Predecessors(g)
  {
  }
}
