/** The scheduling queue that drives every dataflow analysis (Talac/Analysis/Worklist.cpp):
    first in, first out, each block waiting at most once, with counters. */
module Worklist {
  import opened Graphs
  import opened Wrappers
  import CF = ControlFlow

  datatype WorklistDirection = Forward | Backward

  datatype Statistics = Statistics(
    blockEvaluations: nat,
    changeNotifications: nat,
    scheduledBlocks: nat,
    peakPendingBlocks: nat)

  /** Append a reachable block that is not waiting yet. */
  function Enqueue(pending: seq<BlockId>, reachable: set<BlockId>, b: BlockId): (r: seq<BlockId>)
    ensures forall x :: x in r <==> x in pending || (x == b && b in reachable)
    ensures Distinct(pending) ==> Distinct(r)
    ensures |r| <= |pending| + 1
  {
    if b in reachable && b !in pending then pending + [b] else pending
  }

  function EnqueueAll(pending: seq<BlockId>, reachable: set<BlockId>, blocks: seq<BlockId>): (r: seq<BlockId>)
    ensures forall x :: x in r <==> x in pending || (x in blocks && x in reachable)
    ensures Distinct(pending) ==> Distinct(r)
    ensures |r| <= |pending| + |blocks|
  {
    if blocks == [] then pending
    else
      var k := |blocks| - 1;
      assert blocks == blocks[..k] + [blocks[k]];
      Enqueue(EnqueueAll(pending, reachable, blocks[..k]), reachable, blocks[k])
  }

  /** Seeding with distinct reachable blocks keeps their order. */
  lemma {:induction false} SeedingKeepsOrder(reachable: set<BlockId>, blocks: seq<BlockId>)
    requires Distinct(blocks) && forall b :: b in blocks ==> b in reachable
    ensures EnqueueAll([], reachable, blocks) == blocks
  {
    if blocks != [] {
      var k := |blocks| - 1;
      assert blocks == blocks[..k] + [blocks[k]];
      SeedingKeepsOrder(reachable, blocks[..k]);
      assert blocks[k] !in blocks[..k];
    }
  }

  function FactEdges(facts: seq<CF.BlockFacts>, forward: bool): EdgeMap {
    if facts == [] then map[]
    else
      var k := |facts| - 1;
      var edges := FactEdges(facts[..k], forward);
      if facts[k].block in edges then edges
      else edges[facts[k].block := if forward then facts[k].successors else facts[k].predecessors]
  }

  function ReachableBlocks(facts: seq<CF.BlockFacts>): set<BlockId> {
    set i | 0 <= i < |facts| && facts[i].reachable :: facts[i].block
  }

  function SeedOrder(flow: CF.Result, direction: WorklistDirection): seq<BlockId> {
    if direction == Backward then CF.Reverse(flow.reversePostorder) else flow.reversePostorder
  }

  class DataflowWorklist {
    const direction: WorklistDirection
    const forwardEdges: EdgeMap
    const backwardEdges: EdgeMap
    const reachable: set<BlockId>
    var scheduled: set<BlockId>
    var pending: seq<BlockId>
    var statistics: Statistics

    /** No block waits twice, the two containers agree, and every block that was ever
        scheduled is either evaluated or still waiting. */
    ghost predicate Valid()
      reads this
    {
      && Distinct(pending)
      && scheduled == Elements(pending)
      && scheduled <= reachable
      && statistics.scheduledBlocks == statistics.blockEvaluations + |pending|
      && |pending| <= statistics.peakPendingBlocks
    }

    /** Where a change of a block is felt. */
    function Affected(b: BlockId): seq<BlockId> {
      Targets(if direction == Forward then forwardEdges else backwardEdges, b)
    }

    constructor (flow: CF.Result, requested: WorklistDirection)
      ensures Valid()
      ensures direction == requested
      ensures forwardEdges == FactEdges(flow.facts, true) && backwardEdges == FactEdges(flow.facts, false)
      ensures reachable == ReachableBlocks(flow.facts)
      ensures pending == EnqueueAll([], reachable, SeedOrder(flow, requested))
      ensures statistics == Statistics(0, 0, |pending|, |pending|)
    {
      direction := requested;
      forwardEdges := FactEdges(flow.facts, true);
      backwardEdges := FactEdges(flow.facts, false);
      reachable := ReachableBlocks(flow.facts);
      scheduled := {};
      pending := [];
      statistics := Statistics(0, 0, 0, 0);
      new;
      var initial := SeedOrder(flow, requested);
      assert initial[..0] == [];
      for i := 0 to |initial|
        invariant Valid()
        invariant pending == EnqueueAll([], reachable, initial[..i])
        invariant statistics == Statistics(0, 0, |pending|, |pending|)
      {
        assert initial[..i + 1][..i] == initial[..i];
        Schedule(initial[i]);
      }
      assert initial[..|initial|] == initial;
    }

    method Schedule(block: BlockId)
      requires Valid()
      modifies this
      ensures Valid()
      ensures pending == Enqueue(old(pending), reachable, block)
      ensures statistics.blockEvaluations == old(statistics.blockEvaluations)
      ensures statistics.changeNotifications == old(statistics.changeNotifications)
      ensures statistics.scheduledBlocks == old(statistics.scheduledBlocks) + |pending| - |old(pending)|
      ensures statistics.peakPendingBlocks ==
        if |pending| > old(statistics.peakPendingBlocks) then |pending| else old(statistics.peakPendingBlocks)
    {
      assert block in pending <==> block in Elements(pending);
      if block !in reachable || block in scheduled {
        return;
      }
      scheduled := scheduled + {block};
      ElementsPush(pending, block);
      pending := pending + [block];
      statistics := statistics.(scheduledBlocks := statistics.scheduledBlocks + 1);
      statistics := statistics.(peakPendingBlocks :=
        if |pending| > statistics.peakPendingBlocks then |pending| else statistics.peakPendingBlocks);
    }

    method Next() returns (block: Option<BlockId>)
      requires Valid()
      modifies this
      ensures Valid()
      ensures old(pending) == [] ==> block == None && pending == [] && statistics == old(statistics)
      ensures old(pending) != [] ==>
        && block == Some(old(pending)[0]) && pending == old(pending)[1..]
        && statistics == old(statistics).(blockEvaluations := old(statistics).blockEvaluations + 1)
    {
      if pending == [] {
        return None;
      }
      var front := pending[0];
      ElementsPop(pending);
      pending := pending[1..];
      scheduled := scheduled - {front};
      statistics := statistics.(blockEvaluations := statistics.blockEvaluations + 1);
      return Some(front);
    }

    method NotifyChanged(block: BlockId)
      requires Valid()
      modifies this
      ensures Valid()
      ensures pending == EnqueueAll(old(pending), reachable, Affected(block))
      ensures statistics.blockEvaluations == old(statistics.blockEvaluations)
      ensures statistics.changeNotifications == old(statistics.changeNotifications) + 1
      ensures statistics.scheduledBlocks == old(statistics.scheduledBlocks) + |pending| - |old(pending)|
      ensures statistics.peakPendingBlocks ==
        if |pending| > old(statistics.peakPendingBlocks) then |pending| else old(statistics.peakPendingBlocks)
    {
      statistics := statistics.(changeNotifications := statistics.changeNotifications + 1);
      var edges := if direction == Forward then forwardEdges else backwardEdges;
      if block !in edges {
        return;
      }
      var affected := edges[block];
      assert affected == Affected(block);
      ghost var start := pending;
      ghost var count := statistics.scheduledBlocks;
      assert affected[..0] == [];
      for i := 0 to |affected|
        invariant Valid()
        invariant pending == EnqueueAll(start, reachable, affected[..i])
        invariant statistics.blockEvaluations == old(statistics.blockEvaluations)
        invariant statistics.changeNotifications == old(statistics.changeNotifications) + 1
        invariant statistics.scheduledBlocks == count + |pending| - |start|
        invariant statistics.peakPendingBlocks ==
          if |pending| > old(statistics.peakPendingBlocks) then |pending| else old(statistics.peakPendingBlocks)
      {
        assert affected[..i + 1][..i] == affected[..i];
        Schedule(affected[i]);
      }
      assert affected[..|affected|] == affected;
    }

    predicate Empty()
      reads this
      ensures Empty() <==> |pending| == 0
    {
      pending == []
    }
  }

  lemma ElementsPush(s: seq<BlockId>, x: BlockId)
    ensures Elements(s + [x]) == Elements(s) + {x}
  {
  }

  lemma ElementsPop(s: seq<BlockId>)
    requires s != [] && Distinct(s)
    ensures Elements(s[1..]) == Elements(s) - {s[0]}
  {
    assert s == [s[0]] + s[1..];
    assert s[0] !in s[1..];
  }

  // ---------------------------------------------------------------------------
  // How much work a run can do

  /** Sum of a weight over the blocks of an order. */
  ghost function Total(order: seq<BlockId>, weight: map<BlockId, nat>): nat {
    if order == [] then 0
    else (if order[0] in weight then weight[order[0]] else 0) + Total(order[1..], weight)
  }

  /** Sum of degree times height: what all changes so far may have scheduled. */
  ghost function Charged(order: seq<BlockId>, degree: map<BlockId, nat>, height: map<BlockId, nat>): nat
    requires forall b :: b in order ==> b in degree && b in height
  {
    if order == [] then 0
    else degree[order[0]] * height[order[0]] + Charged(order[1..], degree, height)
  }

  lemma {:induction false} TotalRaised(order: seq<BlockId>, height: map<BlockId, nat>, b: BlockId, h: nat)
    requires b in height && height[b] <= h && Distinct(order) && b in order
    ensures Total(order, height[b := h]) == Total(order, height) + h - height[b]
  {
    assert order == [order[0]] + order[1..];
    if order[0] == b {
      TotalSame(order[1..], height, b, h);
    } else {
      TotalRaised(order[1..], height, b, h);
    }
  }

  lemma {:induction false} TotalSame(order: seq<BlockId>, height: map<BlockId, nat>, b: BlockId, h: nat)
    requires b !in order
    ensures Total(order, height[b := h]) == Total(order, height)
  {
    if order != [] {
      assert order == [order[0]] + order[1..];
      TotalSame(order[1..], height, b, h);
    }
  }

  /** Raising the height of a block by at least one pays for one visit to each block it
      affects. */
  lemma {:induction false} ChargedRaised(order: seq<BlockId>, degree: map<BlockId, nat>, height: map<BlockId, nat>,
      b: BlockId, h: nat)
    requires forall x :: x in order ==> x in degree && x in height
    requires b in order && height[b] < h && Distinct(order)
    ensures Charged(order, degree, height[b := h]) >= Charged(order, degree, height) + degree[b]
  {
    assert order == [order[0]] + order[1..];
    if order[0] == b {
      ChargedSame(order[1..], degree, height, b, h);
      Pays(degree[b], height[b], h);
    } else {
      ChargedRaised(order[1..], degree, height, b, h);
    }
  }

  lemma {:induction false} Pays(d: nat, h: nat, h': nat)
    requires h < h'
    ensures d * h' >= d * h + d
    decreases h'
  {
    assert d * h' == d * (h' - 1) + d;
    if h < h' - 1 {
      Pays(d, h, h' - 1);
    }
  }

  lemma {:induction false} ChargedSame(order: seq<BlockId>, degree: map<BlockId, nat>, height: map<BlockId, nat>,
      b: BlockId, h: nat)
    requires forall x :: x in order ==> x in degree && x in height
    requires b !in order
    ensures Charged(order, degree, height[b := h]) == Charged(order, degree, height)
  {
    if order != [] {
      assert order == [order[0]] + order[1..];
      ChargedSame(order[1..], degree, height, b, h);
    }
  }

  lemma {:induction false} ChargedBounded(order: seq<BlockId>, degree: map<BlockId, nat>, height: map<BlockId, nat>,
      cap: nat)
    requires forall x :: x in order ==> x in degree && x in height && height[x] <= cap
    ensures Charged(order, degree, height) <= cap * Total(order, degree)
  {
    if order != [] {
      assert order == [order[0]] + order[1..];
      ChargedBounded(order[1..], degree, height, cap);
      var d := degree[order[0]];
      assert d * height[order[0]] <= d * cap;
      assert cap * (d + Total(order[1..], degree)) == cap * d + cap * Total(order[1..], degree);
    }
  }

  lemma {:induction false} TotalBounded(order: seq<BlockId>, height: map<BlockId, nat>, cap: nat)
    requires forall x :: x in order && x in height ==> height[x] <= cap
    ensures Total(order, height) <= cap * |order|
  {
    if order != [] {
      assert order == [order[0]] + order[1..];
      TotalBounded(order[1..], height, cap);
      assert cap * |order| == cap + cap * |order[1..]|;
    }
  }
}
