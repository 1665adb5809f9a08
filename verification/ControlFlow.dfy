/** Graph cleaning and traversal (Talac/Analysis/ControlFlow.cpp): a possibly malformed block
    list becomes a deduplicated edge map, two traversal orders and one fact record a block. */
module ControlFlow {
  import opened Graphs
  import opened DepthFirst

  datatype Block = Block(id: BlockId, successors: seq<BlockId>)

  datatype Graph = Graph(entry: BlockId, blocks: seq<Block>)

  datatype IssueKind = DuplicateBlock | MissingEntry | MissingTarget

  datatype Issue = Issue(kind: IssueKind, block: BlockId, target: BlockId)

  datatype BlockFacts = BlockFacts(
    block: BlockId,
    reachable: bool,
    predecessors: seq<BlockId>,
    successors: seq<BlockId>)

  datatype Result = Result(
    issues: seq<Issue>,
    preorder: seq<BlockId>,
    reversePostorder: seq<BlockId>,
    facts: seq<BlockFacts>)
  {
    predicate Valid() {
      issues == []
    }
  }

  /** A block map names the record that stands for an identity by its position. */
  type BlockMap = map<BlockId, nat>

  // ---------------------------------------------------------------------------
  // What the input means

  function Ids(blocks: seq<Block>): seq<BlockId> {
    seq(|blocks|, i requires 0 <= i < |blocks| => blocks[i].id)
  }

  function IdSet(g: Graph): set<BlockId> {
    Elements(Ids(g.blocks))
  }

  /** The targets that name a block, each at its first mention. */
  function ValidTargets(targets: seq<BlockId>, known: set<BlockId>): (r: seq<BlockId>)
    ensures Distinct(r)
    ensures forall t :: t in r <==> t in targets && t in known
  {
    if targets == [] then [] else
      var k := |targets| - 1;
      var r := ValidTargets(targets[..k], known);
      assert targets == targets[..k] + [targets[k]];
      if targets[k] in known && targets[k] !in r then r + [targets[k]] else r
  }

  /** The first record of an identity decides its edges. */
  function TargetsOf(g: Graph, id: BlockId): (r: seq<BlockId>)
    requires id in IdSet(g)
    ensures Distinct(r) && forall t :: t in r ==> t in IdSet(g)
  {
    ValidTargets(g.blocks[FirstIndex(Ids(g.blocks), id)].successors, IdSet(g))
  }

  /** The control-flow edges of a graph. */
  function Edges(g: Graph): (e: EdgeMap)
    ensures e.Keys == IdSet(g)
    ensures Closed(e)
  {
    map id | id in IdSet(g) :: TargetsOf(g, id)
  }

  ghost predicate Reachable(g: Graph, b: BlockId) {
    g.entry in IdSet(g) && Reaches(Edges(g), g.entry, b)
  }

  /** Identities are unique, the entry exists and so does every target. */
  predicate WellFormed(g: Graph) {
    && Distinct(Ids(g.blocks))
    && g.entry in IdSet(g)
    && forall i, t :: 0 <= i < |g.blocks| && t in g.blocks[i].successors ==> t in IdSet(g)
  }

  /** The records before position n that repeat an earlier identity. */
  function DuplicateIssues(blocks: seq<Block>): seq<Issue> {
    if blocks == [] then [] else
      var k := |blocks| - 1;
      DuplicateIssues(blocks[..k])
      + if blocks[k].id in Ids(blocks[..k]) then [Issue(DuplicateBlock, blocks[k].id, 0)] else []
  }

  function TargetIssues(id: BlockId, targets: seq<BlockId>, known: set<BlockId>): seq<Issue> {
    if targets == [] then [] else
      var k := |targets| - 1;
      TargetIssues(id, targets[..k], known)
      + if targets[k] in known then [] else [Issue(MissingTarget, id, targets[k])]
  }

  function MissingTargetIssues(blocks: seq<Block>, known: set<BlockId>): seq<Issue> {
    if blocks == [] then [] else
      var k := |blocks| - 1;
      MissingTargetIssues(blocks[..k], known)
      + if blocks[k].id in Ids(blocks[..k]) then [] else TargetIssues(blocks[k].id, blocks[k].successors, known)
  }

  function Issues(g: Graph): seq<Issue> {
    DuplicateIssues(g.blocks)
    + (if g.entry in IdSet(g) then [] else [Issue(MissingEntry, g.entry, 0)])
    + MissingTargetIssues(g.blocks, IdSet(g))
  }

  // ---------------------------------------------------------------------------
  // What the result says

  ghost predicate FactDescribes(g: Graph, f: BlockFacts) {
    && f.block in IdSet(g)
    && (f.reachable <==> Reachable(g, f.block))
    && Ascending(f.successors) && Elements(f.successors) == Elements(Edges(g)[f.block])
    && Ascending(f.predecessors)
    && (forall p :: p in f.predecessors <==> Reachable(g, p) && Edge(Edges(g), p, f.block))
  }

  ghost predicate FactsDescribe(g: Graph, facts: seq<BlockFacts>) {
    && |facts| == |ToVector(IdSet(g))|
    && forall i :: 0 <= i < |facts| ==> facts[i].block == ToVector(IdSet(g))[i] && FactDescribes(g, facts[i])
  }

  function Reverse<T>(s: seq<T>): (r: seq<T>)
    ensures |r| == |s|
    ensures forall i :: 0 <= i < |s| ==> r[i] == s[|s| - 1 - i]
    ensures Elements(r) == Elements(s)
  {
    var r := seq(|s|, i requires 0 <= i < |s| => s[|s| - 1 - i]);
    assert forall x :: x in s ==> x in r by {
      forall x | x in s
        ensures x in r
      {
        var i :| 0 <= i < |s| && s[i] == x;
        assert r[|s| - 1 - i] == x;
      }
    }
    r
  }

  /** The blocks that can execute, in depth-first preorder. */
  function VisitOrder(g: Graph): seq<BlockId> {
    if g.entry in IdSet(g) then Preorder(Edges(g), g.entry) else []
  }

  ghost predicate OrdersDescribe(g: Graph, preorder: seq<BlockId>, reversePostorder: seq<BlockId>) {
    && preorder == VisitOrder(g)
    && Distinct(preorder)
    && (forall b :: b in preorder <==> Reachable(g, b))
    && Elements(reversePostorder) == Elements(preorder)
    && IsFinishOrder(Edges(g), Reverse(reversePostorder))
  }

  ghost predicate Describes(g: Graph, r: Result) {
    && r.issues == Issues(g)
    && OrdersDescribe(g, r.preorder, r.reversePostorder)
    && FactsDescribe(g, r.facts)
  }

  // ---------------------------------------------------------------------------
  // The passes

  lemma IdsPrefix(blocks: seq<Block>, i: nat)
    requires i < |blocks|
    ensures Ids(blocks[..i + 1]) == Ids(blocks[..i]) + [blocks[i].id]
    ensures blocks[..i + 1][..i] == blocks[..i] && blocks[..i + 1][i] == blocks[i]
    ensures Ids(blocks[..i]) == Ids(blocks)[..i]
  {
  }

  lemma NoBlocksNoDuplicates()
    ensures DuplicateIssues([]) == []
  {
  }

  lemma DuplicateIssuesPrefix(blocks: seq<Block>, i: nat)
    requires i < |blocks|
    ensures blocks[i].id == Ids(blocks)[i]
    ensures DuplicateIssues(blocks[..i + 1])
      == DuplicateIssues(blocks[..i])
         + if blocks[i].id in Elements(Ids(blocks)[..i]) then [Issue(DuplicateBlock, blocks[i].id, 0)] else []
  {
    IdsPrefix(blocks, i);
  }

  method CatalogBlocks(g: Graph) returns (blocks: BlockMap, issues: seq<Issue>)
    ensures blocks.Keys == IdSet(g)
    ensures forall id :: id in blocks ==> blocks[id] == FirstIndex(Ids(g.blocks), id)
    ensures issues == DuplicateIssues(g.blocks)
      + (if g.entry in IdSet(g) then [] else [Issue(MissingEntry, g.entry, 0)])
  {
    hide DuplicateIssues, FirstIndex;
    blocks, issues := map[], [];
    assert issues == DuplicateIssues(g.blocks[..0]) by {
      NoBlocksNoDuplicates();
    }
    ghost var ids := Ids(g.blocks);
    for i := 0 to |g.blocks|
      invariant blocks.Keys == Elements(ids[..i])
      invariant forall id :: id in blocks ==> id in ids && blocks[id] == FirstIndex(ids, id)
      invariant issues == DuplicateIssues(g.blocks[..i])
    {
      DuplicateIssuesPrefix(g.blocks, i);
      ElementsPrefix(ids, i);
      var id := g.blocks[i].id;
      if id in blocks {
        issues := issues + [Issue(DuplicateBlock, id, 0)];
      } else {
        FirstIndexIs(ids, i);
        blocks := blocks[id := i];
      }
    }
    assert g.blocks[..|g.blocks|] == g.blocks && ids[..|ids|] == ids;
    if g.entry !in blocks {
      issues := issues + [Issue(MissingEntry, g.entry, 0)];
    }
  }

  lemma NoTargets(id: BlockId, known: set<BlockId>)
    ensures ValidTargets([], known) == [] && TargetIssues(id, [], known) == []
  {
  }

  lemma TargetsPrefix(id: BlockId, targets: seq<BlockId>, known: set<BlockId>, j: nat)
    requires j < |targets|
    ensures
      var found := ValidTargets(targets[..j], known);
      ValidTargets(targets[..j + 1], known)
      == if targets[j] in known && targets[j] !in found then found + [targets[j]] else found
    ensures TargetIssues(id, targets[..j + 1], known)
      == TargetIssues(id, targets[..j], known)
         + if targets[j] in known then [] else [Issue(MissingTarget, id, targets[j])]
  {
    assert targets[..j + 1][..j] == targets[..j];
  }

  method ResolveTargets(block: Block, known: set<BlockId>, issues: seq<Issue>)
      returns (found: seq<BlockId>, issues': seq<Issue>)
    ensures found == ValidTargets(block.successors, known)
    ensures issues' == issues + TargetIssues(block.id, block.successors, known)
  {
    hide ValidTargets, TargetIssues;
    var unique: set<BlockId> := {};
    found, issues' := [], issues;
    NoTargets(block.id, known);
    for j := 0 to |block.successors|
      invariant found == ValidTargets(block.successors[..j], known) && unique == Elements(found)
      invariant issues' == issues + TargetIssues(block.id, block.successors[..j], known)
    {
      var target := block.successors[j];
      TargetsPrefix(block.id, block.successors, known, j);
      if target !in known {
        issues' := issues' + [Issue(MissingTarget, block.id, target)];
      } else if target !in unique {
        unique := unique + {target};
        found := found + [target];
      }
    }
    assert block.successors[..|block.successors|] == block.successors;
  }

  lemma MissingIssuesPrefix(g: Graph, issues: seq<Issue>, i: nat)
    requires i < |g.blocks|
    ensures g.blocks[i].id in Elements(Ids(g.blocks)[..i]) ==>
      MissingTargetIssues(g.blocks[..i + 1], IdSet(g)) == MissingTargetIssues(g.blocks[..i], IdSet(g))
    ensures g.blocks[i].id !in Elements(Ids(g.blocks)[..i]) ==>
      issues + MissingTargetIssues(g.blocks[..i + 1], IdSet(g))
      == issues + MissingTargetIssues(g.blocks[..i], IdSet(g))
         + TargetIssues(g.blocks[i].id, g.blocks[i].successors, IdSet(g))
  {
    IdsPrefix(g.blocks, i);
    if g.blocks[i].id !in Elements(Ids(g.blocks)[..i]) {
      Associative(issues, MissingTargetIssues(g.blocks[..i], IdSet(g)),
                  TargetIssues(g.blocks[i].id, g.blocks[i].successors, IdSet(g)));
    }
  }

  lemma NoBlocksNoMissing(g: Graph, issues: seq<Issue>)
    ensures issues == issues + MissingTargetIssues(g.blocks[..0], IdSet(g))
  {
  }

  lemma TargetsOfFirst(g: Graph, i: nat)
    requires i < |g.blocks| && Ids(g.blocks)[i] !in Elements(Ids(g.blocks)[..i])
    ensures g.blocks[i].id in IdSet(g)
    ensures TargetsOf(g, g.blocks[i].id) == ValidTargets(g.blocks[i].successors, IdSet(g))
  {
    assert Ids(g.blocks)[i] == g.blocks[i].id;
    FirstIndexIs(Ids(g.blocks), i);
  }

  lemma EdgesAre(g: Graph, e: EdgeMap)
    requires e.Keys == IdSet(g)
    requires forall id :: id in IdSet(g) ==> e[id] == TargetsOf(g, id)
    ensures e == Edges(g)
  {
  }

  method ValidSuccessors(g: Graph, blocks: BlockMap, issues: seq<Issue>)
      returns (successors: EdgeMap, issues': seq<Issue>)
    requires blocks.Keys == IdSet(g)
    ensures successors == Edges(g)
    ensures issues' == issues + MissingTargetIssues(g.blocks, IdSet(g))
  {
    hide MissingTargetIssues, TargetIssues, ValidTargets, TargetsOf, Edges, Distinct;
    ghost var ids := Ids(g.blocks);
    successors := map id | id in blocks :: [];
    issues' := issues;
    NoBlocksNoMissing(g, issues);
    var visited: set<BlockId> := {};
    for i := 0 to |g.blocks|
      invariant visited == Elements(ids[..i])
      invariant successors.Keys == IdSet(g)
      invariant forall id :: id in visited ==> id in IdSet(g) && successors[id] == TargetsOf(g, id)
      invariant issues' == issues + MissingTargetIssues(g.blocks[..i], IdSet(g))
    {
      ElementsPrefix(ids, i);
      var block := g.blocks[i];
      assert block.id == ids[i];
      MissingIssuesPrefix(g, issues, i);
      if block.id !in visited {
        visited := visited + {block.id};
        TargetsOfFirst(g, i);
        var found;
        found, issues' := ResolveTargets(block, blocks.Keys, issues');
        successors := successors[block.id := found];
      }
    }
    assert g.blocks[..|g.blocks|] == g.blocks && ids[..|ids|] == ids;
    EdgesAre(g, successors);
  }

  method BuildPredecessors(blocks: BlockMap, successors: EdgeMap) returns (predecessors: EdgeMap)
    requires successors.Keys == blocks.Keys && Closed(successors)
    requires forall id :: id in successors ==> Distinct(successors[id])
    ensures predecessors.Keys == blocks.Keys
    ensures forall id :: id in predecessors ==> Ascending(predecessors[id])
    ensures forall id, p :: id in predecessors ==> (p in predecessors[id] <==> Edge(successors, p, id))
  {
    predecessors := map id | id in blocks :: [];
    var sources := successors.Keys;
    while sources != {}
      invariant sources <= successors.Keys
      invariant predecessors.Keys == blocks.Keys
      invariant forall id, p :: id in predecessors ==>
        (p in predecessors[id] <==> p !in sources && Edge(successors, p, id))
    {
      var source :| source in sources;
      var targets := successors[source];
      ghost var before := predecessors;
      for k := 0 to |targets|
        invariant predecessors.Keys == blocks.Keys
        invariant forall id, p :: id in predecessors ==>
          (p in predecessors[id] <==> p in before[id] || (p == source && id in targets[..k]))
      {
        assert targets[k] in successors;
        assert targets[..k + 1] == targets[..k] + [targets[k]];
        predecessors := predecessors[targets[k] := predecessors[targets[k]] + [source]];
      }
      assert targets[..|targets|] == targets;
      sources := sources - {source};
    }
    predecessors := map id | id in predecessors :: SortUnique(predecessors[id]);
    forall id, p | id in predecessors
      ensures p in predecessors[id] <==> Edge(successors, p, id)
    {
      assert p in predecessors[id] <==> p in Elements(predecessors[id]);
    }
  }

  /** The preorder side of the search: what was pushed, in order, and what the frames still
      have to look at. */
  ghost predicate PreorderInvariant(e: EdgeMap, entry: BlockId, seen: set<BlockId>, stack: seq<Frame>,
      preorder: seq<BlockId>) {
    && Distinct(preorder) && Elements(preorder) == seen && seen <= e.Keys
    && (forall b :: b in preorder ==> Reaches(e, entry, b))
    && (forall i :: 0 <= i < |stack| ==> stack[i].block in seen)
    && (forall f :: f in stack ==> f.next <= |Targets(e, f.block)|)
    && Visit(e, Remaining(e, stack), preorder) == Preorder(e, entry)
  }

  /** The frame that is on top after the next target was taken from it. */
  lemma TopTaken(e: EdgeMap, stack: seq<Frame>)
    requires stack != [] && forall f :: f in stack ==> f.next <= |Targets(e, f.block)|
    requires stack[|stack| - 1].next < |Targets(e, stack[|stack| - 1].block)|
    ensures forall f :: f in Advance(stack) ==> f.next <= |Targets(e, f.block)|
    ensures Remaining(e, stack) == [Targets(e, stack[|stack| - 1].block)[stack[|stack| - 1].next]]
      + Remaining(e, Advance(stack))
    ensures FrameWork(e, stack) == FrameWork(e, Advance(stack)) + 1
  {
    var n := |stack|;
    var lower, top := stack[..n - 1], stack[n - 1];
    var next := Frame(top.block, top.next + 1);
    assert Advance(stack) == lower + [next];
    assert forall f :: f in Advance(stack) ==> f in lower || f == next;
    FrameWorkPushed(e, lower, next);
    RemainingPushed(e, lower, next);
    TailTaken(Targets(e, top.block), top.next, Remaining(e, lower));
  }

  lemma TailTaken(t: seq<BlockId>, n: nat, rest: seq<BlockId>)
    requires n < |t|
    ensures t[n..] + rest == [t[n]] + (t[n + 1..] + rest)
  {
  }

  lemma PreorderAdvances(e: EdgeMap, entry: BlockId, seen: set<BlockId>, stack: seq<Frame>, preorder: seq<BlockId>)
    requires PreorderInvariant(e, entry, seen, stack, preorder) && stack != []
    requires stack[|stack| - 1].next < |Targets(e, stack[|stack| - 1].block)|
    requires Targets(e, stack[|stack| - 1].block)[stack[|stack| - 1].next] in seen
    ensures PreorderInvariant(e, entry, seen, Advance(stack), preorder)
  {
    TopTaken(e, stack);
    var target := Targets(e, stack[|stack| - 1].block)[stack[|stack| - 1].next];
    assert target in preorder;
    assert Remaining(e, stack)[1..] == Remaining(e, Advance(stack));
    assert Visit(e, Remaining(e, stack), preorder) == Visit(e, Remaining(e, Advance(stack)), preorder);
  }

  lemma PreorderPushes(e: EdgeMap, entry: BlockId, seen: set<BlockId>, stack: seq<Frame>, preorder: seq<BlockId>,
      target: BlockId)
    requires Closed(e) && PreorderInvariant(e, entry, seen, stack, preorder) && stack != []
    requires stack[|stack| - 1].next < |Targets(e, stack[|stack| - 1].block)|
    requires target == Targets(e, stack[|stack| - 1].block)[stack[|stack| - 1].next] && target !in seen
    ensures PreorderInvariant(e, entry, seen + {target}, Advance(stack) + [Frame(target, 0)], preorder + [target])
  {
    var top := stack[|stack| - 1];
    var stack' := Advance(stack) + [Frame(target, 0)];
    TopTaken(e, stack);
    RemainingPushed(e, Advance(stack), Frame(target, 0));
    assert target in preorder <==> target in Elements(preorder);
    assert top.block in seen && top.block in Elements(preorder);
    assert Edge(e, top.block, target);
    assert target in e;
    ReachesThenEdge(e, entry, top.block, target);
    var rest := Remaining(e, Advance(stack));
    assert Remaining(e, stack)[0] == target && Remaining(e, stack)[1..] == rest;
    assert e[target][0..] == e[target];
    assert Remaining(e, stack') == e[target] + rest;
    assert Visit(e, Remaining(e, stack), preorder) == Visit(e, e[target] + rest, preorder + [target]);
    assert Elements(preorder + [target]) == seen + {target};
  }

  lemma PreorderPops(e: EdgeMap, entry: BlockId, seen: set<BlockId>, stack: seq<Frame>, preorder: seq<BlockId>)
    requires PreorderInvariant(e, entry, seen, stack, preorder) && stack != []
    requires stack[|stack| - 1].next == |Targets(e, stack[|stack| - 1].block)|
    ensures PreorderInvariant(e, entry, seen, stack[..|stack| - 1], preorder)
    ensures FrameWork(e, stack[..|stack| - 1]) < FrameWork(e, stack)
  {
    var lower := stack[..|stack| - 1];
    assert Remaining(e, stack) == Remaining(e, lower);
  }

  lemma PreorderStarts(e: EdgeMap, entry: BlockId)
    requires Closed(e) && entry in e
    ensures PreorderInvariant(e, entry, {entry}, [Frame(entry, 0)], [entry])
  {
    ReachesSelf(e, entry);
    RemainingPushed(e, [], Frame(entry, 0));
    assert [] + [Frame(entry, 0)] == [Frame(entry, 0)];
    assert e[entry][0..] + [] == e[entry] + [entry][1..];
    assert [] + [entry] == [entry];
  }

  /** Search and PreorderInvariant together, with what the loop itself looks at. */
  ghost predicate Traversal(e: EdgeMap, entry: BlockId, seen: set<BlockId>, stack: seq<Frame>, bases: seq<nat>,
                            preorder: seq<BlockId>, postorder: seq<BlockId>)
  {
    && Search(e, seen, stack, bases, postorder)
    && PreorderInvariant(e, entry, seen, stack, preorder)
    && entry in seen
  }

  lemma TraversalFacts(e: EdgeMap, entry: BlockId, seen: set<BlockId>, stack: seq<Frame>, bases: seq<nat>,
                       preorder: seq<BlockId>, postorder: seq<BlockId>)
    requires Traversal(e, entry, seen, stack, bases, preorder, postorder)
    ensures |bases| == |stack|
    ensures forall f :: f in stack ==> f.next <= |Targets(e, f.block)| && f.block in e
    ensures seen <= e.Keys
  {
  }

  lemma TraversalStarts(e: EdgeMap, entry: BlockId)
    requires Closed(e) && entry in e
    ensures Traversal(e, entry, {entry}, [Frame(entry, 0)], [0], [entry], [])
  {
    SearchStarts(e, {}, [], entry);
    assert {} + {entry} == {entry};
    PreorderStarts(e, entry);
  }

  lemma TraversalPushes(e: EdgeMap, entry: BlockId, seen: set<BlockId>, stack: seq<Frame>, bases: seq<nat>,
                        preorder: seq<BlockId>, postorder: seq<BlockId>, target: BlockId)
    requires Closed(e) && Traversal(e, entry, seen, stack, bases, preorder, postorder) && stack != []
    requires stack[|stack| - 1].next < |Targets(e, stack[|stack| - 1].block)|
    requires target == Targets(e, stack[|stack| - 1].block)[stack[|stack| - 1].next] && target !in seen
    ensures Traversal(e, entry, seen + {target}, Advance(stack) + [Frame(target, 0)], bases + [|postorder|],
                      preorder + [target], postorder)
  {
    hide Search, PreorderInvariant;
    SearchPushes(e, seen, stack, bases, postorder, target);
    PreorderPushes(e, entry, seen, stack, preorder, target);
  }

  lemma TraversalAdvances(e: EdgeMap, entry: BlockId, seen: set<BlockId>, stack: seq<Frame>, bases: seq<nat>,
                          preorder: seq<BlockId>, postorder: seq<BlockId>)
    requires Traversal(e, entry, seen, stack, bases, preorder, postorder) && stack != []
    requires stack[|stack| - 1].next < |Targets(e, stack[|stack| - 1].block)|
    requires Targets(e, stack[|stack| - 1].block)[stack[|stack| - 1].next] in seen
    ensures Traversal(e, entry, seen, Advance(stack), bases, preorder, postorder)
  {
    hide Search, PreorderInvariant;
    SearchAdvances(e, seen, stack, bases, postorder);
    PreorderAdvances(e, entry, seen, stack, preorder);
  }

  lemma TraversalPops(e: EdgeMap, entry: BlockId, seen: set<BlockId>, stack: seq<Frame>, bases: seq<nat>,
                      preorder: seq<BlockId>, postorder: seq<BlockId>)
    requires Traversal(e, entry, seen, stack, bases, preorder, postorder) && stack != []
    requires stack[|stack| - 1].next == |Targets(e, stack[|stack| - 1].block)|
    requires |bases| == |stack| && forall f :: f in stack ==> f.next <= |Targets(e, f.block)|
    ensures Traversal(e, entry, seen, stack[..|stack| - 1], bases[..|stack| - 1], preorder,
                      postorder + [stack[|stack| - 1].block])
    ensures FrameWork(e, stack[..|stack| - 1]) < FrameWork(e, stack)
  {
    hide Search, PreorderInvariant;
    SearchPops(e, seen, stack, bases, postorder);
    PreorderPops(e, entry, seen, stack, preorder);
  }

  lemma TraversalEnds(e: EdgeMap, entry: BlockId, seen: set<BlockId>, preorder: seq<BlockId>, postorder: seq<BlockId>)
    requires Traversal(e, entry, seen, [], [], preorder, postorder)
    ensures preorder == Preorder(e, entry) && Distinct(preorder)
    ensures forall b :: b in preorder <==> Reaches(e, entry, b)
    ensures IsFinishOrder(e, postorder) && Elements(postorder) == Elements(preorder)
  {
    SearchEnds(e, seen, postorder);
    TraverseComplete(e, entry, seen, preorder, postorder);
  }

  lemma NothingFinished(e: EdgeMap)
    ensures IsFinishOrder(e, Reverse([])) && Distinct<BlockId>([])
  {
    assert Reverse<BlockId>([]) == [];
  }

  method Traverse(entry: BlockId, blocks: BlockMap, successors: EdgeMap)
    returns (preorder: seq<BlockId>, reversePostorder: seq<BlockId>)
    requires blocks.Keys == successors.Keys && Closed(successors)
    ensures preorder == (if entry in blocks then Preorder(successors, entry) else [])
    ensures Distinct(preorder)
    ensures forall b :: b in preorder <==> entry in blocks && Reaches(successors, entry, b)
    ensures Elements(reversePostorder) == Elements(preorder)
    ensures IsFinishOrder(successors, Reverse(reversePostorder))
  {
    hide Traversal, IsFinishOrder, Preorder, Reaches, FrameWork, Remaining, Elements, Distinct, Edge;
    if entry !in blocks {
      NothingFinished(successors);
      return [], [];
    }
    var discovered := {entry};
    var postorder: seq<BlockId> := [];
    preorder := [entry];
    var stack := [Frame(entry, 0)];
    ghost var bases: seq<nat> := [0];
    TraversalStarts(successors, entry);
    while stack != []
      invariant Traversal(successors, entry, discovered, stack, bases, preorder, postorder)
      invariant |bases| == |stack|
      invariant forall f :: f in stack ==> f.next <= |Targets(successors, f.block)| && f.block in successors
      decreases successors.Keys - discovered, FrameWork(successors, stack)
    {
      var frame := stack[|stack| - 1];
      var targets := successors[frame.block];
      if frame.next < |targets| {
        var target := targets[frame.next];
        TopTaken(successors, stack);
        if target !in discovered {
          assert target in successors;
          TraversalPushes(successors, entry, discovered, stack, bases, preorder, postorder, target);
          discovered := discovered + {target};
          preorder := preorder + [target];
          stack := Advance(stack) + [Frame(target, 0)];
          bases := bases + [|postorder|];
        } else {
          TraversalAdvances(successors, entry, discovered, stack, bases, preorder, postorder);
          stack := Advance(stack);
        }
      } else {
        TraversalPops(successors, entry, discovered, stack, bases, preorder, postorder);
        postorder := postorder + [frame.block];
        bases := bases[..|stack| - 1];
        stack := stack[..|stack| - 1];
      }
      TraversalFacts(successors, entry, discovered, stack, bases, preorder, postorder);
    }
    assert bases == [];
    TraversalEnds(successors, entry, discovered, preorder, postorder);
    reversePostorder := Reverse(postorder);
    assert Reverse(reversePostorder) == postorder;
  }

  lemma TraverseComplete(e: EdgeMap, entry: BlockId, seen: set<BlockId>, preorder: seq<BlockId>,
      postorder: seq<BlockId>)
    requires PreorderInvariant(e, entry, seen, [], preorder) && entry in seen
    requires IsFinishOrder(e, postorder) && Elements(postorder) == seen
    ensures preorder == Preorder(e, entry)
    ensures forall b :: b in preorder <==> Reaches(e, entry, b)
  {
    forall b | Reaches(e, entry, b)
      ensures b in preorder
    {
      forall x, y | x in seen && Edge(e, x, y)
        ensures y in seen
      {
        assert x in postorder && y in Elements(postorder);
      }
      ClosedSetHoldsReachable(e, entry, b, seen);
      assert b in Elements(preorder);
    }
  }

  lemma FactIs(g: Graph, id: BlockId, reachable: bool, sources: seq<BlockId>, keep: set<BlockId>)
    requires id in IdSet(g) && (reachable <==> Reachable(g, id))
    requires Ascending(sources) && forall p :: p in sources <==> Edge(Edges(g), p, id)
    requires forall b :: b in keep <==> Reachable(g, b)
    ensures FactDescribes(g, BlockFacts(id, reachable, Filter(sources, keep), SortUnique(Edges(g)[id])))
  {
    FilterAscending(sources, keep);
  }

  /** Facts for the first n blocks of the ascending block list. */
  ghost predicate FactsUpTo(g: Graph, order: seq<BlockId>, facts: seq<BlockFacts>, n: nat) {
    |facts| == n <= |order| && forall j :: 0 <= j < n ==> facts[j].block == order[j] && FactDescribes(g, facts[j])
  }

  lemma FactsGrow(g: Graph, order: seq<BlockId>, facts: seq<BlockFacts>, n: nat, f: BlockFacts)
    requires FactsUpTo(g, order, facts, n) && n < |order| && f.block == order[n] && FactDescribes(g, f)
    ensures FactsUpTo(g, order, facts + [f], n + 1)
  {
    hide FactDescribes;
  }

  method BuildFacts(g: Graph, blocks: BlockMap, predecessors: EdgeMap, successors: EdgeMap, preorder: seq<BlockId>)
    returns (facts: seq<BlockFacts>)
    requires blocks.Keys == IdSet(g) && successors == Edges(g) && predecessors.Keys == blocks.Keys
    requires forall id :: id in predecessors ==> Ascending(predecessors[id])
    requires forall id, p :: id in predecessors ==> (p in predecessors[id] <==> Edge(successors, p, id))
    requires forall b :: b in preorder <==> Reachable(g, b)
    ensures FactsDescribe(g, facts)
  {
    hide FactsUpTo, FactDescribes, Reachable;
    var reachable := Elements(preorder);
    var order := ToVector(blocks.Keys);
    facts := [];
    FactsStart(g, order);
    for i := 0 to |order|
      invariant FactsUpTo(g, order, facts, i)
    {
      var id := order[i];
      assert id in Elements(order);
      var fact := BlockFacts(id, id in reachable, Filter(predecessors[id], reachable), SortUnique(successors[id]));
      FactIs(g, id, id in reachable, predecessors[id], reachable);
      FactsGrow(g, order, facts, i, fact);
      facts := facts + [fact];
    }
    FactsEnd(g, facts);
  }

  lemma FactsStart(g: Graph, order: seq<BlockId>)
    ensures FactsUpTo(g, order, [], 0)
  {
  }

  lemma FactsEnd(g: Graph, facts: seq<BlockFacts>)
    requires FactsUpTo(g, ToVector(IdSet(g)), facts, |ToVector(IdSet(g))|)
    ensures FactsDescribe(g, facts)
  {
  }

  /** The members of an ascending sequence that lie in a set. */
  function Filter(s: seq<BlockId>, keep: set<BlockId>): (r: seq<BlockId>)
    ensures forall x :: x in r <==> x in s && x in keep
  {
    if s == [] then [] else
      var k := |s| - 1;
      assert s == s[..k] + [s[k]];
      Filter(s[..k], keep) + if s[k] in keep then [s[k]] else []
  }

  lemma {:induction false} FilterAscending(s: seq<BlockId>, keep: set<BlockId>)
    requires Ascending(s)
    ensures Ascending(Filter(s, keep))
  {
    if s != [] {
      var k := |s| - 1;
      FilterAscending(s[..k], keep);
      var r := Filter(s[..k], keep);
      forall i | 0 <= i < |r|
        ensures r[i] < s[k]
      {
        assert r[i] in s[..k];
      }
    }
  }

  method AnalyzeControlFlow(g: Graph) returns (result: Result)
    ensures Describes(g, result)
  {
    var blocks, issues := CatalogBlocks(g);
    var successors;
    successors, issues := ValidSuccessors(g, blocks, issues);
    var predecessors := BuildPredecessors(blocks, successors);
    var preorder, reversePostorder := Traverse(g.entry, blocks, successors);
    var facts := BuildFacts(g, blocks, predecessors, successors, preorder);
    result := Result(issues, preorder, reversePostorder, facts);
  }

  // ---------------------------------------------------------------------------
  // What the issues mean

  lemma {:induction false} DuplicateIssueMeaning(blocks: seq<Block>, issue: Issue)
    ensures issue in DuplicateIssues(blocks) <==>
      issue.kind == DuplicateBlock && issue.target == 0
      && exists i :: 0 <= i < |blocks| && blocks[i].id == issue.block && issue.block in Ids(blocks)[..i]
  {
    if blocks != [] {
      var k := |blocks| - 1;
      DuplicateIssueMeaning(blocks[..k], issue);
      assert blocks[..k + 1] == blocks;
      IdsPrefix(blocks, k);
      assert forall i :: 0 <= i < k ==> Ids(blocks[..k])[..i] == Ids(blocks)[..i];
      if issue in DuplicateIssues(blocks[..k]) {
        var i :| 0 <= i < k && blocks[..k][i].id == issue.block && issue.block in Ids(blocks[..k])[..i];
        assert blocks[i].id == issue.block;
      }
      if exists i :: 0 <= i < |blocks| && blocks[i].id == issue.block && issue.block in Ids(blocks)[..i] {
        var i :| 0 <= i < |blocks| && blocks[i].id == issue.block && issue.block in Ids(blocks)[..i];
        if i < k {
          assert blocks[..k][i].id == issue.block;
        }
      }
    }
  }

  lemma {:induction false} TargetIssueMeaning(id: BlockId, targets: seq<BlockId>, known: set<BlockId>, issue: Issue)
    ensures issue in TargetIssues(id, targets, known) <==>
      issue.kind == MissingTarget && issue.block == id && issue.target in targets && issue.target !in known
  {
    if targets != [] {
      var k := |targets| - 1;
      TargetIssueMeaning(id, targets[..k], known, issue);
      assert targets == targets[..k] + [targets[k]];
    }
  }

  /** Position i holds the record that stands for its identity. */
  predicate IsFirst(blocks: seq<Block>, i: int) {
    0 <= i < |blocks| && blocks[i].id !in Ids(blocks)[..i]
  }

  lemma {:induction false} MissingTargetIssueMeaning(blocks: seq<Block>, known: set<BlockId>, issue: Issue)
    ensures issue in MissingTargetIssues(blocks, known) <==>
      issue.kind == MissingTarget && issue.target !in known
      && exists i :: IsFirst(blocks, i) && blocks[i].id == issue.block && issue.target in blocks[i].successors
  {
    if blocks != [] {
      var k := |blocks| - 1;
      MissingTargetIssueMeaning(blocks[..k], known, issue);
      assert blocks[..k + 1] == blocks;
      IdsPrefix(blocks, k);
      assert forall i :: 0 <= i < k ==> Ids(blocks[..k])[..i] == Ids(blocks)[..i];
      assert forall i :: 0 <= i < k ==>
        (IsFirst(blocks[..k], i) <==> IsFirst(blocks, i)) && blocks[..k][i] == blocks[i];
      TargetIssueMeaning(blocks[k].id, blocks[k].successors, known, issue);
      if issue in MissingTargetIssues(blocks[..k], known) {
        var i :| IsFirst(blocks[..k], i) && blocks[..k][i].id == issue.block
            && issue.target in blocks[..k][i].successors;
        assert IsFirst(blocks, i);
      }
    }
  }

  /** The edges of a block are the targets its first record names, as far as they name a block. */
  lemma EdgeMeaning(g: Graph, a: BlockId, b: BlockId)
    ensures Edge(Edges(g), a, b) <==>
      b in IdSet(g) && exists i :: IsFirst(g.blocks, i) && g.blocks[i].id == a && b in g.blocks[i].successors
  {
    var ids := Ids(g.blocks);
    if a in ids {
      var k := FirstIndex(ids, a);
      assert IsFirst(g.blocks, k) && g.blocks[k].id == a;
      forall i | IsFirst(g.blocks, i) && g.blocks[i].id == a
        ensures i == k
      {
        FirstIndexIs(ids, i);
      }
    } else {
      assert forall i :: 0 <= i < |g.blocks| ==> g.blocks[i].id == ids[i];
    }
  }

  /** Targets keep the order in which they are first named. */
  lemma {:induction false} TargetsInOrder(targets: seq<BlockId>, known: set<BlockId>, i: nat, j: nat)
    requires i < j < |ValidTargets(targets, known)|
    ensures ValidTargets(targets, known)[i] in targets && ValidTargets(targets, known)[j] in targets
    ensures FirstIndex(targets, ValidTargets(targets, known)[i]) < FirstIndex(targets, ValidTargets(targets, known)[j])
    decreases |targets|
  {
    var k := |targets| - 1;
    var before, r := ValidTargets(targets[..k], known), ValidTargets(targets, known);
    assert targets == targets[..k] + [targets[k]];
    FirstIndexKept(targets, k, r[i]);
    if j < |before| {
      TargetsInOrder(targets[..k], known, i, j);
      FirstIndexKept(targets, k, r[j]);
    } else {
      assert r[j] == targets[k] && targets[k] !in targets[..k];
      FirstIndexIs(targets, k);
    }
  }

  lemma FirstIndexKept(s: seq<BlockId>, k: nat, x: BlockId)
    requires k <= |s| && x in s[..k]
    ensures x in s && FirstIndex(s, x) == FirstIndex(s[..k], x) < k
  {
    var i := FirstIndex(s[..k], x);
    assert s[i] == x && s[..i] == s[..k][..i];
    FirstIndexIs(s, i);
  }

  /** Every kind of issue is reported exactly for the defect it names. */
  lemma IssueMeaning(g: Graph, issue: Issue)
    ensures issue in Issues(g) <==>
      match issue.kind
      case DuplicateBlock =>
        issue.target == 0
        && exists i :: 0 <= i < |g.blocks| && g.blocks[i].id == issue.block && issue.block in Ids(g.blocks)[..i]
      case MissingEntry => issue == Issue(MissingEntry, g.entry, 0) && g.entry !in IdSet(g)
      case MissingTarget =>
        issue.target !in IdSet(g)
        && exists i :: IsFirst(g.blocks, i) && g.blocks[i].id == issue.block && issue.target in g.blocks[i].successors
  {
    DuplicateIssueMeaning(g.blocks, issue);
    MissingTargetIssueMeaning(g.blocks, IdSet(g), issue);
  }

  lemma WellFormedHasNoIssue(g: Graph, issue: Issue)
    requires WellFormed(g)
    ensures issue !in Issues(g)
  {
    IssueMeaning(g, issue);
    assert forall i :: 0 <= i < |g.blocks| ==> g.blocks[i].id == Ids(g.blocks)[i];
  }

  lemma NoIssueIsWellFormed(g: Graph)
    requires Issues(g) == []
    ensures WellFormed(g)
  {
    var ids := Ids(g.blocks);
    forall i, j | 0 <= i < j < |ids|
      ensures ids[i] != ids[j]
    {
      IssueMeaning(g, Issue(DuplicateBlock, ids[j], 0));
      assert g.blocks[j].id == ids[j];
      assert ids[j] !in ids[..j];
      assert ids[i] in ids[..j];
    }
    IssueMeaning(g, Issue(MissingEntry, g.entry, 0));
    forall i, t | 0 <= i < |g.blocks| && t in g.blocks[i].successors
      ensures t in IdSet(g)
    {
      IssueMeaning(g, Issue(MissingTarget, g.blocks[i].id, t));
      assert g.blocks[i].id == ids[i];
      assert IsFirst(g.blocks, i);
    }
  }

  /** The result is valid exactly when identities are unique, the entry exists and every
      target exists. */
  lemma ValidIffWellFormed(g: Graph, r: Result)
    requires Describes(g, r)
    ensures r.Valid() <==> WellFormed(g)
  {
    hide OrdersDescribe, FactsDescribe, Issues, WellFormed;
    if r.issues == [] {
      NoIssueIsWellFormed(g);
    } else if WellFormed(g) {
      WellFormedHasNoIssue(g, r.issues[0]);
      assert false;
    }
  }

  // ---------------------------------------------------------------------------
  // What the orders mean

  /** Reverse postorder visits the source of every edge first, except along edges that close
      a cycle. */
  lemma ReversePostorderFollowsEdges(g: Graph, r: Result, i: nat, j: nat)
    requires Describes(g, r) && i < |r.reversePostorder| && j < |r.reversePostorder|
    requires Edge(Edges(g), r.reversePostorder[i], r.reversePostorder[j])
    ensures i < j || Reaches(Edges(g), r.reversePostorder[j], r.reversePostorder[i])
  {
    FinishOrderReversed(Edges(g), r.reversePostorder, i, j);
  }

  lemma FinishOrderReversed(e: EdgeMap, order: seq<BlockId>, i: nat, j: nat)
    requires IsFinishOrder(e, Reverse(order)) && i < |order| && j < |order| && Edge(e, order[i], order[j])
    ensures i < j || Reaches(e, order[j], order[i])
  {
    hide IsFinishOrder, Reaches, Edge;
    EdgeFinishesEarlier(e, Reverse(order), |order| - 1 - i, |order| - 1 - j);
  }

  /** Two well-formed graphs with the same entry and the same block records. */
  predicate SameBlocks(g: Graph, h: Graph) {
    g.entry == h.entry && Elements(g.blocks) == Elements(h.blocks)
  }

  lemma RecordDecides(g: Graph, b: Block)
    requires WellFormed(g) && b in g.blocks
    ensures b.id in IdSet(g) && Edges(g)[b.id] == ValidTargets(b.successors, IdSet(g))
  {
    var i :| 0 <= i < |g.blocks| && g.blocks[i] == b;
    assert Ids(g.blocks)[i] == b.id;
    TargetsOfFirst(g, i);
  }

  lemma SameBlocksSameIds(g: Graph, h: Graph)
    requires SameBlocks(g, h)
    ensures IdSet(g) <= IdSet(h)
  {
    forall id | id in IdSet(g)
      ensures id in IdSet(h)
    {
      var i :| 0 <= i < |g.blocks| && Ids(g.blocks)[i] == id;
      assert g.blocks[i] in Elements(h.blocks);
      var j :| 0 <= j < |h.blocks| && h.blocks[j] == g.blocks[i];
      assert Ids(h.blocks)[j] == id;
    }
  }

  lemma SameRecord(g: Graph, h: Graph, id: BlockId)
    requires WellFormed(g) && WellFormed(h) && SameBlocks(g, h) && id in IdSet(g) && IdSet(g) == IdSet(h)
    ensures Edges(g)[id] == Edges(h)[id]
  {
    hide WellFormed, Edges, ValidTargets, Distinct;
    var i :| 0 <= i < |g.blocks| && Ids(g.blocks)[i] == id;
    var b := g.blocks[i];
    assert b in Elements(g.blocks) && b in Elements(h.blocks);
    RecordDecides(g, b);
    RecordDecides(h, b);
  }

  lemma SameBlocksSameEdges(g: Graph, h: Graph)
    requires WellFormed(g) && WellFormed(h) && SameBlocks(g, h)
    ensures Edges(g) == Edges(h)
  {
    SameBlocksSameIds(g, h);
    SameBlocksSameIds(h, g);
    forall id | id in IdSet(g)
      ensures Edges(g)[id] == Edges(h)[id]
    {
      SameRecord(g, h, id);
    }
  }

  /** The order in which the blocks of a well-formed graph are presented has no influence on
      the issues, the preorder or any fact. */
  lemma PresentationIsIrrelevant(g: Graph, h: Graph, r: Result, s: Result)
    requires WellFormed(g) && WellFormed(h) && SameBlocks(g, h)
    requires Describes(g, r) && Describes(h, s)
    ensures r.issues == s.issues == [] && r.preorder == s.preorder && r.facts == s.facts
  {
    SameBlocksSameEdges(g, h);
    ValidIffWellFormed(g, r);
    ValidIffWellFormed(h, s);
    SameFacts(g, h, r.facts, s.facts);
  }

  lemma SameFacts(g: Graph, h: Graph, r: seq<BlockFacts>, s: seq<BlockFacts>)
    requires Edges(g) == Edges(h) && g.entry == h.entry
    requires FactsDescribe(g, r) && FactsDescribe(h, s)
    ensures r == s
  {
    assert IdSet(g) == IdSet(h);
    forall i | 0 <= i < |r|
      ensures r[i] == s[i]
    {
      SameFact(g, h, r[i], s[i]);
    }
  }

  lemma SameFact(g: Graph, h: Graph, f: BlockFacts, k: BlockFacts)
    requires Edges(g) == Edges(h) && IdSet(g) == IdSet(h) && g.entry == h.entry
    requires FactDescribes(g, f) && FactDescribes(h, k) && f.block == k.block
    ensures f == k
  {
    AscendingUnique(f.successors, k.successors);
    assert forall p :: Reachable(g, p) <==> Reachable(h, p);
    AscendingUnique(f.predecessors, k.predecessors);
  }
}
