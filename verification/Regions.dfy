/** The loop and region records built from dominance (Talac/Analysis/Dominance.cpp:270-303,
    420-464): one natural loop a back edge, one irreducible region a component without a
    dominating header, both in a deterministic order. */
module Regions {
  import opened Graphs
  import opened DominanceTheory
  import opened DominanceSets
  import opened BackwardSearch
  import opened Components

  datatype NaturalLoop = NaturalLoop(header: BlockId, latch: BlockId, members: seq<BlockId>, exits: seq<BlockId>)

  datatype IrreducibleRegion = IrreducibleRegion(members: seq<BlockId>, entries: seq<BlockId>)

  /** An edge whose target dominates its source. */
  ghost predicate BackEdge(entry: BlockId, successors: EdgeMap, predecessors: EdgeMap, latch: BlockId,
      header: BlockId) {
    Edge(successors, latch, header) && Dom(predecessors, {entry}, header, latch)
  }

  ghost predicate IsLoopRecord(entry: BlockId, successors: EdgeMap, predecessors: EdgeMap, l: NaturalLoop) {
    && BackEdge(entry, successors, predecessors, l.latch, l.header)
    && Ascending(l.members)
    && (forall m :: m in Elements(l.members) <==> InLoop(successors, l.header, l.latch, m))
    && Ascending(l.exits)
    && (forall t :: t in Elements(l.exits) <==> IsExitTarget(successors, Elements(l.members), t))
  }

  // ---------------------------------------------------------------------------
  // Order of loop records

  predicate LoopBefore(a: NaturalLoop, b: NaturalLoop) {
    a.header < b.header || (a.header == b.header && a.latch < b.latch)
  }

  predicate LoopsSorted(s: seq<NaturalLoop>) {
    forall i, j :: 0 <= i < j < |s| ==> LoopBefore(s[i], s[j])
  }

  predicate SameEdge(a: NaturalLoop, b: NaturalLoop) {
    a.header == b.header && a.latch == b.latch
  }

  lemma LoopsTail(s: seq<NaturalLoop>)
    requires LoopsSorted(s) && s != []
    ensures forall x :: x in s[1..] ==> LoopBefore(s[0], x)
  {
    forall x | x in s[1..]
      ensures LoopBefore(s[0], x)
    {
      var j :| 0 <= j < |s[1..]| && s[1..][j] == x;
      assert s[j + 1] == x;
    }
  }

  function InsertLoop(s: seq<NaturalLoop>, l: NaturalLoop): (r: seq<NaturalLoop>)
    requires LoopsSorted(s) && forall x :: x in s ==> !SameEdge(x, l)
    ensures LoopsSorted(r)
    ensures forall x :: x in r <==> x in s || x == l
  {
    if s == [] then [l]
    else if LoopBefore(l, s[0]) then [l] + s
    else
      var rest := InsertLoop(s[1..], l);
      assert s == [s[0]] + s[1..] && s[0] in s;
      LoopsTail(s);
      assert !SameEdge(s[0], l);
      assert forall x :: x in rest ==> LoopBefore(s[0], x);
      [s[0]] + rest
  }

  function SortLoops(s: seq<NaturalLoop>): (r: seq<NaturalLoop>)
    requires forall i, j :: 0 <= i < j < |s| ==> !SameEdge(s[i], s[j])
    ensures LoopsSorted(r)
    ensures forall x :: x in r <==> x in s
  {
    if s == [] then [] else
      var k := |s| - 1;
      assert s == s[..k] + [s[k]];
      InsertLoop(SortLoops(s[..k]), s[k])
  }

  /** Exactly one record a back edge between nodes, in (header, latch) order. */
  ghost predicate AreLoops(nodes: set<BlockId>, entry: BlockId, successors: EdgeMap, predecessors: EdgeMap,
      loops: seq<NaturalLoop>) {
    && LoopsSorted(loops)
    && (forall l :: l in loops ==> l.latch in nodes && IsLoopRecord(entry, successors, predecessors, l))
    && (forall latch, header :: latch in nodes && BackEdge(entry, successors, predecessors, latch, header) ==>
          exists l :: l in loops && l.header == header && l.latch == latch)
  }

  /** The records found while position k of the targets of a source is reached. */
  ghost predicate LoopsUpTo(entry: BlockId, successors: EdgeMap, predecessors: EdgeMap, loops: seq<NaturalLoop>,
                            done: set<BlockId>, source: BlockId, targets: seq<BlockId>)
  {
    && (forall i, j :: 0 <= i < j < |loops| ==> !SameEdge(loops[i], loops[j]))
    && (forall l :: l in loops ==> IsLoopRecord(entry, successors, predecessors, l))
    && (forall l :: l in loops ==> l.latch in done || (l.latch == source && l.header in targets))
    && (forall latch, header ::
          BackEdge(entry, successors, predecessors, latch, header)
          && (latch in done || (latch == source && header in targets)) ==>
            exists l :: l in loops && l.header == header && l.latch == latch)
  }

  lemma LoopsGrow(entry: BlockId, successors: EdgeMap, predecessors: EdgeMap, loops: seq<NaturalLoop>,
                  done: set<BlockId>, source: BlockId, targets: seq<BlockId>, l: NaturalLoop)
    requires LoopsUpTo(entry, successors, predecessors, loops, done, source, targets)
    requires IsLoopRecord(entry, successors, predecessors, l) && l.latch == source && source !in done
      && l.header !in targets
    ensures LoopsUpTo(entry, successors, predecessors, loops + [l], done, source, targets + [l.header])
  {
    hide IsLoopRecord, BackEdge;
    var loops' := loops + [l];
    assert forall x :: x in loops' <==> x in loops || x == l;
    forall i, j | 0 <= i < j < |loops'|
      ensures !SameEdge(loops'[i], loops'[j])
    {
      assert loops'[i] == loops[i] && loops[i] in loops;
    }
    forall latch, header | BackEdge(entry, successors, predecessors, latch, header)
        && (latch in done || (latch == source && header in targets + [l.header]))
      ensures exists x :: x in loops' && x.header == header && x.latch == latch
    {
      if latch in done || header in targets {
        var x :| x in loops && x.header == header && x.latch == latch;
        assert x in loops';
      } else {
        assert l in loops';
      }
    }
  }

  lemma LoopsSkip(entry: BlockId, successors: EdgeMap, predecessors: EdgeMap, loops: seq<NaturalLoop>,
                  done: set<BlockId>, source: BlockId, targets: seq<BlockId>, target: BlockId)
    requires LoopsUpTo(entry, successors, predecessors, loops, done, source, targets)
    requires !BackEdge(entry, successors, predecessors, source, target)
    ensures LoopsUpTo(entry, successors, predecessors, loops, done, source, targets + [target])
  {
    hide IsLoopRecord, BackEdge;
  }

  lemma LoopsNextSource(entry: BlockId, successors: EdgeMap, predecessors: EdgeMap, loops: seq<NaturalLoop>,
                        done: set<BlockId>, source: BlockId, next: BlockId)
    requires LoopsUpTo(entry, successors, predecessors, loops, done, source, Targets(successors, source))
    ensures LoopsUpTo(entry, successors, predecessors, loops, done + {source}, next, [])
  {
    hide IsLoopRecord, Dom;
  }

  lemma LoopsStart(entry: BlockId, successors: EdgeMap, predecessors: EdgeMap, source: BlockId)
    ensures LoopsUpTo(entry, successors, predecessors, [], {}, source, [])
  {
  }

  lemma LoopRecordIs(entry: BlockId, successors: EdgeMap, predecessors: EdgeMap, latch: BlockId, header: BlockId,
                     members: set<BlockId>, exits: set<BlockId>)
    requires BackEdge(entry, successors, predecessors, latch, header)
    requires forall m :: m in members <==> InLoop(successors, header, latch, m)
    requires forall t :: t in exits <==> IsExitTarget(successors, members, t)
    ensures IsLoopRecord(entry, successors, predecessors,
      NaturalLoop(header, latch, ToVector(members), ToVector(exits)))
  {
    hide InLoop, BackEdge, IsExitTarget, Elements;
  }

  /** The back edges that leave one source. */
  method LoopsFrom(nodes: set<BlockId>, ghost entry: BlockId, successors: EdgeMap, predecessors: EdgeMap,
      dominators: BlockSets,
                   source: BlockId, ghost done: set<BlockId>, before: seq<NaturalLoop>)
                       returns (loops: seq<NaturalLoop>)
    requires Converse(successors, predecessors) && IsDominators(nodes, {entry}, predecessors, dominators)
    requires ClosedUnder(nodes, successors) && ClosedUnder(nodes, predecessors)
    requires source in nodes && source !in done && Distinct(Targets(successors, source))
    requires LoopsUpTo(entry, successors, predecessors, before, done, source, [])
    ensures LoopsUpTo(entry, successors, predecessors, loops, done, source, Targets(successors, source))
  {
    hide LoopsUpTo, IsLoopRecord, Dom, InLoop, Converse;
    loops := before;
    var outgoing := Targets(successors, source);
    assert outgoing[..0] == [];
    for k := 0 to |outgoing|
      invariant LoopsUpTo(entry, successors, predecessors, loops, done, source, outgoing[..k])
    {
      var target := outgoing[k];
      assert Edge(successors, source, target);
      assert outgoing[..k + 1] == outgoing[..k] + [target];
      if target in dominators[source] {
        var members := NaturalLoopMembers(target, source, nodes, successors, predecessors);
        var exits := LoopExits(members, successors);
        LoopRecordIs(entry, successors, predecessors, source, target, members, exits);
        var l := NaturalLoop(target, source, ToVector(members), ToVector(exits));
        LoopsGrow(entry, successors, predecessors, loops, done, source, outgoing[..k], l);
        loops := loops + [l];
      } else {
        LoopsSkip(entry, successors, predecessors, loops, done, source, outgoing[..k], target);
      }
    }
    assert outgoing[..|outgoing|] == outgoing;
  }

  method FindNaturalLoops(nodes: set<BlockId>, ghost entry: BlockId, successors: EdgeMap, predecessors: EdgeMap,
      dominators: BlockSets)
    returns (loops: seq<NaturalLoop>)
    requires Converse(successors, predecessors) && IsDominators(nodes, {entry}, predecessors, dominators)
    requires ClosedUnder(nodes, successors) && ClosedUnder(nodes, predecessors)
    requires forall n :: n in nodes ==> Distinct(Targets(successors, n))
    ensures AreLoops(nodes, entry, successors, predecessors, loops)
  {
    hide LoopsUpTo, IsDominators, Converse, ClosedUnder, Targets;
    loops := [];
    var order := ToVector(nodes);
    LoopsStart(entry, successors, predecessors, if order == [] then entry else order[0]);
    assert Elements(order[..0]) == {};
    for i := 0 to |order|
      invariant LoopsUpTo(entry, successors, predecessors, loops, Elements(order[..i]), if i < |order| then order[i]
        else entry, [])
    {
      var source := order[i];
      assert source in Elements(order);
      assert source !in Elements(order[..i]);
      ElementsPrefix(order, i);
      loops := LoopsFrom(nodes, entry, successors, predecessors, dominators, source, Elements(order[..i]), loops);
      LoopsNextSource(entry, successors, predecessors, loops, Elements(order[..i]), source,
                      if i + 1 < |order| then order[i + 1] else entry);
    }
    assert order[..|order|] == order;
    LoopsEnd(nodes, entry, successors, predecessors, loops);
    loops := SortLoops(loops);
    LoopsReordered(nodes, entry, successors, predecessors, loops);
  }

  /** The unsorted records are complete. */
  lemma LoopsEnd(nodes: set<BlockId>, entry: BlockId, successors: EdgeMap, predecessors: EdgeMap,
      loops: seq<NaturalLoop>)
    requires LoopsUpTo(entry, successors, predecessors, loops, nodes, entry, [])
    ensures forall i, j :: 0 <= i < j < |loops| ==> !SameEdge(loops[i], loops[j])
    ensures forall l :: l in loops ==> l.latch in nodes && IsLoopRecord(entry, successors, predecessors, l)
    ensures forall latch, header :: latch in nodes && BackEdge(entry, successors, predecessors, latch, header) ==>
      exists l :: l in loops && l.header == header && l.latch == latch
  {
    hide IsLoopRecord, BackEdge;
  }

  lemma LoopsReordered(nodes: set<BlockId>, entry: BlockId, successors: EdgeMap, predecessors: EdgeMap,
      loops: seq<NaturalLoop>)
    requires LoopsSorted(loops)
    requires forall l :: l in loops ==> l.latch in nodes && IsLoopRecord(entry, successors, predecessors, l)
    requires forall latch, header :: latch in nodes && BackEdge(entry, successors, predecessors, latch, header) ==>
      exists l :: l in loops && l.header == header && l.latch == latch
    ensures AreLoops(nodes, entry, successors, predecessors, loops)
  {
  }

  // ---------------------------------------------------------------------------
  // Irreducible regions

  ghost predicate IsRegion(successors: EdgeMap, predecessors: EdgeMap, r: IrreducibleRegion) {
    && Ascending(r.members) && IsClass(successors, Elements(r.members))
    && (forall a :: a in Elements(r.members) ==> OnCycle(successors, a))
    && Ascending(r.entries)
    && (forall m :: m in Elements(r.entries) <==> IsEntry(predecessors, Elements(r.members), m))
    && |r.entries| >= 2
  }

  /** A class that lies on cycles and is entered at two blocks at least. */
  ghost predicate Irreducible(successors: EdgeMap, predecessors: EdgeMap, c: set<BlockId>) {
    && IsClass(successors, c)
    && (forall a :: a in c ==> OnCycle(successors, a))
    && TwoEntries(predecessors, c)
  }

  ghost predicate TwoEntries(predecessors: EdgeMap, c: set<BlockId>) {
    exists x, y :: x != y && IsEntry(predecessors, c, x) && IsEntry(predecessors, c, y)
  }

  /** Lexicographic order of member lists. */
  predicate ListBefore(a: seq<BlockId>, b: seq<BlockId>) {
    b != [] && (a == [] || a[0] < b[0] || (a[0] == b[0] && ListBefore(a[1..], b[1..])))
  }

  lemma {:induction false} ListsCompare(a: seq<BlockId>, b: seq<BlockId>)
    ensures ListBefore(a, b) || ListBefore(b, a) || a == b
  {
    if a != [] && b != [] && a[0] == b[0] {
      ListsCompare(a[1..], b[1..]);
      assert a == [a[0]] + a[1..] && b == [b[0]] + b[1..];
    }
  }

  /** Neighbours are in order. */
  predicate RegionsSorted(s: seq<IrreducibleRegion>) {
    forall i :: 0 <= i < |s| - 1 ==> ListBefore(s[i].members, s[i + 1].members)
  }

  function InsertRegion(s: seq<IrreducibleRegion>, x: IrreducibleRegion): (r: seq<IrreducibleRegion>)
    requires RegionsSorted(s) && forall y :: y in s ==> y.members != x.members
    ensures RegionsSorted(r)
    ensures forall y :: y in r <==> y in s || y == x
    ensures r != [] && (r[0] == x || (s != [] && r[0] == s[0]))
  {
    if s == [] then [x]
    else if ListBefore(x.members, s[0].members) then [x] + s
    else
      var rest := InsertRegion(s[1..], x);
      assert s == [s[0]] + s[1..];
      ListsCompare(s[0].members, x.members);
      assert s[0] in s;
      [s[0]] + rest
  }

  function SortRegions(s: seq<IrreducibleRegion>): (r: seq<IrreducibleRegion>)
    requires forall i, j :: 0 <= i < j < |s| ==> s[i].members != s[j].members
    ensures RegionsSorted(r)
    ensures forall x :: x in r <==> x in s
  {
    if s == [] then [] else
      var k := |s| - 1;
      assert s == s[..k] + [s[k]];
      InsertRegion(SortRegions(s[..k]), s[k])
  }

  /** Exactly the irreducible classes of the nodes, in member order. */
  ghost predicate AreRegions(nodes: set<BlockId>, successors: EdgeMap, predecessors: EdgeMap,
      regions: seq<IrreducibleRegion>) {
    && RegionsSorted(regions)
    && (forall r :: r in regions ==> IsRegion(successors, predecessors, r) && Elements(r.members) <= nodes)
    && (forall c :: c <= nodes && Irreducible(successors, predecessors, c) ==>
          exists r :: r in regions && Elements(r.members) == c)
  }

  /** The regions found among the first k components. */
  ghost predicate RegionsUpTo(successors: EdgeMap, predecessors: EdgeMap, components: seq<set<BlockId>>, k: nat,
                              regions: seq<IrreducibleRegion>)
    requires k <= |components|
  {
    && (forall i, j :: 0 <= i < j < |regions| ==> regions[i].members != regions[j].members)
    && (forall r :: r in regions ==> IsRegion(successors, predecessors, r))
    && (forall r :: r in regions ==> exists i :: 0 <= i < k && components[i] == Elements(r.members))
    && (forall i :: 0 <= i < k && Irreducible(successors, predecessors, components[i]) ==>
          exists r :: r in regions && Elements(r.members) == components[i])
  }

  lemma RegionsSkip(successors: EdgeMap, predecessors: EdgeMap, components: seq<set<BlockId>>, k: nat,
      regions: seq<IrreducibleRegion>)
    requires k < |components| && RegionsUpTo(successors, predecessors, components, k, regions)
    requires !Irreducible(successors, predecessors, components[k])
    ensures RegionsUpTo(successors, predecessors, components, k + 1, regions)
  {
    hide Irreducible, IsRegion;
  }

  lemma RegionsGrow(successors: EdgeMap, predecessors: EdgeMap, components: seq<set<BlockId>>, all: set<BlockId>,
      k: nat,
                    regions: seq<IrreducibleRegion>, r: IrreducibleRegion)
    requires k < |components| && IsPartition(successors, components, all)
    requires RegionsUpTo(successors, predecessors, components, k, regions)
    requires IsRegion(successors, predecessors, r) && Elements(r.members) == components[k]
    ensures RegionsUpTo(successors, predecessors, components, k + 1, regions + [r])
  {
    hide Irreducible, IsRegion;
    var regions' := regions + [r];
    assert components[k] != {} by {
      assert IsClass(successors, components[k]);
    }
    hide IsClass;
    assert forall x :: x in regions' <==> x in regions || x == r;
    forall x | x in regions
      ensures x.members != r.members
    {
      var i :| 0 <= i < k && components[i] == Elements(x.members);
      assert components[i] !! components[k];
    }
    forall i, j | 0 <= i < j < |regions'|
      ensures regions'[i].members != regions'[j].members
    {
      assert regions'[i] == regions[i] && regions[i] in regions;
    }
    forall i | 0 <= i < k + 1 && Irreducible(successors, predecessors, components[i])
      ensures exists x :: x in regions' && Elements(x.members) == components[i]
    {
      if i < k {
        var x :| x in regions && Elements(x.members) == components[i];
        assert x in regions';
      } else {
        assert r in regions';
      }
    }
  }

  /** What the two tests of the source decide about one component. */
  lemma ComponentDecided(nodes: set<BlockId>, entry: BlockId, successors: EdgeMap, predecessors: EdgeMap,
      c: set<BlockId>,
                         cyclic: bool, headed: bool, entries: set<BlockId>)
    requires FlowGraph(nodes, {entry}, predecessors) && Converse(successors, predecessors)
    requires IsClass(successors, c) && c <= nodes
    requires cyclic <==> forall a :: a in c ==> OnCycle(successors, a)
    requires headed <==> exists h :: IsHeader(entry, predecessors, c, h)
    requires forall m :: m in entries <==> IsEntry(predecessors, c, m)
    ensures Irreducible(successors, predecessors, c) <==> cyclic && !headed
    ensures cyclic && !headed ==>
      IsRegion(successors, predecessors, IrreducibleRegion(ToVector(c), ToVector(entries)))
  {
    IrreducibleIffTwoEntries(nodes, entry, successors, predecessors, c, entries);
    hide FlowGraph, Converse, IsHeader, IsRegion, IsClass, OnCycle, IsEntry, TwoEntries, ToVector;
    TwoEntriesMeans(predecessors, c, entries);
    if cyclic && !headed {
      RegionIs(successors, predecessors, c, entries);
    }
  }

  lemma TwoEntriesMeans(predecessors: EdgeMap, c: set<BlockId>, entries: set<BlockId>)
    requires forall m :: m in entries <==> IsEntry(predecessors, c, m)
    ensures |entries| >= 2 <==> TwoEntries(predecessors, c)
  {
    hide IsEntry;
    if x, y :| x != y && IsEntry(predecessors, c, x) && IsEntry(predecessors, c, y) {
      SizeOfPair(entries, x, y);
    }
    if |entries| >= 2 {
      TwoMembers(entries);
      var x, y :| x in entries && y in entries && x != y;
      assert IsEntry(predecessors, c, x) && IsEntry(predecessors, c, y);
    }
  }

  lemma RegionIs(successors: EdgeMap, predecessors: EdgeMap, c: set<BlockId>, entries: set<BlockId>)
    requires IsClass(successors, c) && |entries| >= 2
    requires forall a :: a in c ==> OnCycle(successors, a)
    requires forall m :: m in entries <==> IsEntry(predecessors, c, m)
    ensures IsRegion(successors, predecessors, IrreducibleRegion(ToVector(c), ToVector(entries)))
  {
    var es := ToVector(entries);
    AscendingIsDistinct(es);
    DistinctSize(es);
    RegionOf(successors, predecessors, ToVector(c), es);
  }

  lemma RegionOf(successors: EdgeMap, predecessors: EdgeMap, members: seq<BlockId>, entries: seq<BlockId>)
    requires Ascending(members) && Ascending(entries) && |entries| >= 2
    requires IsClass(successors, Elements(members))
    requires forall a :: a in Elements(members) ==> OnCycle(successors, a)
    requires forall m :: m in Elements(entries) <==> IsEntry(predecessors, Elements(members), m)
    ensures IsRegion(successors, predecessors, IrreducibleRegion(members, entries))
  {
    hide IsClass, OnCycle, IsEntry, Elements, Ascending;
  }

  lemma TwoMembers(s: set<BlockId>)
    requires |s| >= 2
    ensures exists x, y :: x in s && y in s && x != y
  {
    var x :| x in s;
    assert |s - {x}| == |s| - 1;
    var y :| y in s - {x};
    assert x in s && y in s && x != y;
  }

  method FindIrreducibleRegions(nodes: set<BlockId>, ghost entry: BlockId, successors: EdgeMap,
      predecessors: EdgeMap, dominators: BlockSets)
    returns (regions: seq<IrreducibleRegion>)
    requires FlowGraph(nodes, {entry}, predecessors) && Converse(successors, predecessors)
    requires IsDominators(nodes, {entry}, predecessors, dominators)
    requires ClosedUnder(nodes, successors) && ClosedUnder(nodes, predecessors)
    ensures AreRegions(nodes, successors, predecessors, regions)
  {
    hide FlowGraph, Converse, ClosedUnder, RegionsUpTo, IsClass, OnCycle, IsEntry, IsHeader, HasDominatingHeader,
        Irreducible, IsRegion, Dom;
    var components := StronglyConnectedComponents(nodes, successors, predecessors);
    regions := [];
    NoRegionsYet(successors, predecessors, components);
    for k := 0 to |components|
      invariant RegionsUpTo(successors, predecessors, components, k, regions)
    {
      var component := components[k];
      assert component <= nodes;
      HeaderMeans(nodes, entry, predecessors, dominators, component);
      var cyclic := IsCyclicComponent(component, successors);
      var headed := HasDominatingHeader(component, dominators);
      var entries := RegionEntries(component, predecessors);
      ComponentDecided(nodes, entry, successors, predecessors, component, cyclic, headed, entries);
      if !cyclic || headed {
        RegionsSkip(successors, predecessors, components, k, regions);
      } else {
        var r := IrreducibleRegion(ToVector(component), ToVector(entries));
        RegionsGrow(successors, predecessors, components, nodes, k, regions, r);
        regions := regions + [r];
      }
    }
    RegionsAreDistinct(successors, predecessors, components, regions);
    ghost var unsorted := regions;
    regions := SortRegions(regions);
    RegionsEnd(nodes, successors, predecessors, components, unsorted, regions);
  }

  lemma NoRegionsYet(successors: EdgeMap, predecessors: EdgeMap, components: seq<set<BlockId>>)
    ensures RegionsUpTo(successors, predecessors, components, 0, [])
  {
  }

  lemma RegionsAreDistinct(successors: EdgeMap, predecessors: EdgeMap, components: seq<set<BlockId>>,
      regions: seq<IrreducibleRegion>)
    requires RegionsUpTo(successors, predecessors, components, |components|, regions)
    ensures forall i, j :: 0 <= i < j < |regions| ==> regions[i].members != regions[j].members
  {
  }

  /** A class of nodes is one of the components. */
  lemma ClassIsComponent(successors: EdgeMap, components: seq<set<BlockId>>, nodes: set<BlockId>, c: set<BlockId>)
      returns (i: nat)
    requires IsPartition(successors, components, nodes) && IsClass(successors, c) && c <= nodes
    ensures i < |components| && components[i] == c
  {
    var x :| x in c;
    i :| 0 <= i < |components| && x in components[i];
    assert IsClass(successors, components[i]);
    assert forall b :: b in c <==> Mutual(successors, b, x);
    assert forall b :: b in components[i] <==> Mutual(successors, b, x);
  }

  lemma RegionsEnd(nodes: set<BlockId>, successors: EdgeMap, predecessors: EdgeMap, components: seq<set<BlockId>>,
                   unsorted: seq<IrreducibleRegion>, regions: seq<IrreducibleRegion>)
    requires IsPartition(successors, components, nodes)
    requires RegionsUpTo(successors, predecessors, components, |components|, unsorted)
    requires RegionsSorted(regions) && forall r :: r in regions <==> r in unsorted
    ensures AreRegions(nodes, successors, predecessors, regions)
  {
    hide IsRegion, RegionsSorted;
    forall c | c <= nodes && Irreducible(successors, predecessors, c)
      ensures exists r :: r in regions && Elements(r.members) == c
    {
      var i := ClassIsComponent(successors, components, nodes, c);
      var r :| r in unsorted && Elements(r.members) == components[i];
      assert r in regions;
    }
    forall r | r in regions
      ensures Elements(r.members) <= nodes
    {
      assert r in unsorted;
      var i :| 0 <= i < |components| && components[i] == Elements(r.members);
      assert forall x :: x in components[i] ==> x in nodes;
    }
  }
}
