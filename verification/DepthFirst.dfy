/** Depth-first search with an explicit frame stack: the state both searches of the
    analysis layer keep, the invariant every step of it preserves, and what the finish
    order says about reachability. */
module DepthFirst {
  import opened Graphs

  /** A block under exploration and how many of its targets were already looked at. */
  datatype Frame = Frame(block: BlockId, next: nat)

  /** Position k of a finish order, seen with the first b entries that had already finished
      when block order[k] was discovered: what finished in between is reachable from it, and
      nothing that finished before it has an edge into what finished since. */
  ghost predicate FinishedAt(e: EdgeMap, order: seq<BlockId>, k: nat, b: nat)
    requires k < |order|
  {
    && b <= k
    && (forall j :: b <= j <= k ==> Reaches(e, order[k], order[j]))
    && (forall i, j :: 0 <= i < b <= j <= k ==> !Edge(e, order[i], order[j]))
  }

  ghost predicate HasBase(e: EdgeMap, order: seq<BlockId>, k: nat)
    requires k < |order|
  {
    exists b :: FinishedAt(e, order, k, b)
  }

  ghost predicate FinishedWell(e: EdgeMap, order: seq<BlockId>) {
    forall k :: 0 <= k < |order| ==> HasBase(e, order, k)
  }

  /** A complete finish order: distinct blocks, closed under the edges. */
  ghost predicate IsFinishOrder(e: EdgeMap, order: seq<BlockId>) {
    && Distinct(order)
    && FinishedWell(e, order)
    && forall a, b :: a in order && Edge(e, a, b) ==> b in order
  }

  ghost predicate OnStack(stack: seq<Frame>, x: BlockId) {
    exists i :: 0 <= i < |stack| && stack[i].block == x
  }

  /** The frames are a path of distinct blocks, and every target they looked at was seen. */
  ghost predicate StackInvariant(e: EdgeMap, seen: set<BlockId>, stack: seq<Frame>) {
    && (forall i, j :: 0 <= i < j < |stack| ==> stack[i].block != stack[j].block)
    && (forall i :: 0 <= i < |stack| ==> stack[i].next <= |Targets(e, stack[i].block)|)
    && (forall i, k :: 0 <= i < |stack| && 0 <= k < stack[i].next ==> Targets(e, stack[i].block)[k] in seen)
    && (forall i :: 0 < i < |stack| ==> Edge(e, stack[i - 1].block, stack[i].block))
  }

  /** bases[i] is how many blocks had finished when stack[i] was pushed. What finished
      before that has no edge to stack[i], to anything above it, or to anything that
      finished since; what finished since is reachable from stack[i]. */
  ghost predicate BaseInvariant(e: EdgeMap, stack: seq<Frame>, bases: seq<nat>, finished: seq<BlockId>) {
    && |bases| == |stack|
    && (forall i :: 0 <= i < |bases| ==> bases[i] <= |finished|)
    && (forall i, j :: 0 <= i < |stack| && bases[i] <= j < |finished| ==> Reaches(e, stack[i].block, finished[j]))
    && (forall i, j, q :: 0 <= i < |stack| && 0 <= j < bases[i] <= q < |finished| ==>
        !Edge(e, finished[j], finished[q]))
    && (forall i, j, k :: 0 <= i <= k < |stack| && 0 <= j < bases[i] ==> !Edge(e, finished[j], stack[k].block))
  }

  ghost predicate SeenInvariant(e: EdgeMap, seen: set<BlockId>, stack: seq<Frame>, finished: seq<BlockId>) {
    && Distinct(finished)
    && (forall x :: x in finished ==> !OnStack(stack, x))
    && (forall x :: x in seen <==> x in finished || OnStack(stack, x))
    && (forall j, y :: 0 <= j < |finished| && Edge(e, finished[j], y) ==> y in seen)
  }

  ghost predicate Search(e: EdgeMap, seen: set<BlockId>, stack: seq<Frame>, bases: seq<nat>, finished: seq<BlockId>) {
    && StackInvariant(e, seen, stack)
    && BaseInvariant(e, stack, bases, finished)
    && SeenInvariant(e, seen, stack, finished)
    && FinishedWell(e, finished)
  }

  lemma SearchStarts(e: EdgeMap, seen: set<BlockId>, finished: seq<BlockId>, start: BlockId)
    requires Search(e, seen, [], [], finished) && start !in seen
    ensures Search(e, seen + {start}, [Frame(start, 0)], [|finished|], finished)
  {
    OnStackPushed([], Frame(start, 0));
  }

  lemma OnStackPushed(stack: seq<Frame>, f: Frame)
    ensures forall x :: OnStack(stack + [f], x) <==> OnStack(stack, x) || x == f.block
  {
    var stack' := stack + [f];
    forall x | OnStack(stack, x) || x == f.block
      ensures OnStack(stack', x)
    {
      if OnStack(stack, x) {
        var i :| 0 <= i < |stack| && stack[i].block == x;
        assert stack'[i].block == x;
      } else {
        assert stack'[|stack|].block == x;
      }
    }
  }

  /** The top frame after one more target was looked at. */
  function Advance(stack: seq<Frame>): seq<Frame>
    requires stack != []
  {
    var top := stack[|stack| - 1];
    stack[|stack| - 1 := Frame(top.block, top.next + 1)]
  }

  lemma OnStackAdvanced(stack: seq<Frame>)
    requires stack != []
    ensures forall x :: OnStack(Advance(stack), x) <==> OnStack(stack, x)
  {
    var stack' := Advance(stack);
    assert forall i :: 0 <= i < |stack| ==> stack'[i].block == stack[i].block;
    forall x | OnStack(stack, x)
      ensures OnStack(stack', x)
    {
      var i :| 0 <= i < |stack| && stack[i].block == x;
      assert stack'[i].block == x;
    }
  }

  /** Looking at a target that is in the seen set by now only advances the frame. */
  lemma SearchAdvances(e: EdgeMap, seen: set<BlockId>, stack: seq<Frame>, bases: seq<nat>, finished: seq<BlockId>)
    requires Search(e, seen, stack, bases, finished) && stack != []
    requires stack[|stack| - 1].next < |Targets(e, stack[|stack| - 1].block)|
    requires Targets(e, stack[|stack| - 1].block)[stack[|stack| - 1].next] in seen
    ensures Search(e, seen, Advance(stack), bases, finished)
  {
    OnStackAdvanced(stack);
    AdvanceKeepsStack(e, seen, stack);
    AdvanceKeepsBases(e, stack, bases, finished);
  }

  lemma AdvanceKeepsStack(e: EdgeMap, seen: set<BlockId>, stack: seq<Frame>)
    requires StackInvariant(e, seen, stack) && stack != []
    requires stack[|stack| - 1].next < |Targets(e, stack[|stack| - 1].block)|
    requires Targets(e, stack[|stack| - 1].block)[stack[|stack| - 1].next] in seen
    ensures StackInvariant(e, seen, Advance(stack))
  {
  }

  lemma AdvanceKeepsBases(e: EdgeMap, stack: seq<Frame>, bases: seq<nat>, finished: seq<BlockId>)
    requires BaseInvariant(e, stack, bases, finished) && stack != []
    ensures BaseInvariant(e, Advance(stack), bases, finished)
  {
    assert forall i :: 0 <= i < |stack| ==> Advance(stack)[i].block == stack[i].block;
  }

  /** Looking at a new target pushes a frame for it. */
  lemma SearchPushes(e: EdgeMap, seen: set<BlockId>, stack: seq<Frame>, bases: seq<nat>, finished: seq<BlockId>,
      target: BlockId)
    requires Search(e, seen, stack, bases, finished) && stack != []
    requires stack[|stack| - 1].next < |Targets(e, stack[|stack| - 1].block)|
    requires target == Targets(e, stack[|stack| - 1].block)[stack[|stack| - 1].next] && target !in seen
    ensures Search(e, seen + {target}, Advance(stack) + [Frame(target, 0)], bases + [|finished|], finished)
  {
    var stack' := Advance(stack) + [Frame(target, 0)];
    OnStackAdvanced(stack);
    OnStackPushed(Advance(stack), Frame(target, 0));
    forall i | 0 <= i < |stack|
      ensures stack'[i].block == stack[i].block && stack[i].block in seen
    {
      assert OnStack(stack, stack[i].block);
    }
    assert Edge(e, stack'[|stack| - 1].block, target);
    PushKeepsStack(e, seen, stack, target);
    assert SeenInvariant(e, seen + {target}, stack', finished);
    PushKeepsBases(e, seen, stack, bases, finished, target);
  }

  lemma PushKeepsStack(e: EdgeMap, seen: set<BlockId>, stack: seq<Frame>, target: BlockId)
    requires StackInvariant(e, seen, stack) && stack != [] && target !in seen
    requires forall i :: 0 <= i < |stack| ==> stack[i].block in seen
    requires stack[|stack| - 1].next < |Targets(e, stack[|stack| - 1].block)|
    requires target == Targets(e, stack[|stack| - 1].block)[stack[|stack| - 1].next]
    ensures StackInvariant(e, seen + {target}, Advance(stack) + [Frame(target, 0)])
  {
    assert Edge(e, stack[|stack| - 1].block, target);
    var longer := Advance(stack) + [Frame(target, 0)];
    var top := |stack| - 1;
    assert forall i :: 0 <= i < |stack| ==> longer[i].block == stack[i].block;
    assert forall i :: 0 <= i < top ==> longer[i].next == stack[i].next;
    assert longer[top].next == stack[top].next + 1 && longer[top + 1] == Frame(target, 0);
    hide Edge;
    forall i, k | 0 <= i < |longer| && 0 <= k < longer[i].next
      ensures Targets(e, longer[i].block)[k] in seen + {target}
    {
      if i == top && k == stack[top].next {
        assert Targets(e, longer[i].block)[k] == target;
      } else {
        assert Targets(e, stack[i].block)[k] in seen;
      }
    }
  }

  lemma PushKeepsBases(e: EdgeMap, seen: set<BlockId>, stack: seq<Frame>, bases: seq<nat>, finished: seq<BlockId>,
      target: BlockId)
    requires BaseInvariant(e, stack, bases, finished) && stack != [] && target !in seen
    requires forall j, y :: 0 <= j < |finished| && Edge(e, finished[j], y) ==> y in seen
    requires forall x :: OnStack(stack, x) ==> x in seen
    ensures BaseInvariant(e, Advance(stack) + [Frame(target, 0)], bases + [|finished|], finished)
  {
    hide Edge, Reaches, OnStack;
    var stack', bases' := Advance(stack) + [Frame(target, 0)], bases + [|finished|];
    assert forall i :: 0 <= i < |stack| ==> stack'[i].block == stack[i].block && bases'[i] == bases[i];
    forall i, j, k | 0 <= i <= k < |stack'| && 0 <= j < bases'[i]
      ensures !Edge(e, finished[j], stack'[k].block)
    {
      if k < |stack| {
        assert stack'[k].block == stack[k].block;
      }
    }
  }

  lemma StackReaches(e: EdgeMap, seen: set<BlockId>, stack: seq<Frame>, i: nat, j: nat)
    requires StackInvariant(e, seen, stack) && i <= j < |stack|
    ensures Reaches(e, stack[i].block, stack[j].block)
    decreases j - i
  {
    if i == j {
      ReachesSelf(e, stack[i].block);
    } else {
      StackReaches(e, seen, stack, i, j - 1);
      ReachesThenEdge(e, stack[i].block, stack[j - 1].block, stack[j].block);
    }
  }

  lemma FinishedAtExtends(e: EdgeMap, order: seq<BlockId>, x: BlockId, k: nat, b: nat)
    requires k < |order| && FinishedAt(e, order, k, b)
    ensures FinishedAt(e, order + [x], k, b)
  {
  }

  /** The block that finishes next satisfies FinishedAt with the base of its frame. */
  lemma TopFinishesWell(e: EdgeMap, stack: seq<Frame>, bases: seq<nat>, finished: seq<BlockId>)
    requires BaseInvariant(e, stack, bases, finished) && stack != []
    ensures FinishedAt(e, finished + [stack[|stack| - 1].block], |finished|, bases[|stack| - 1])
  {
    ReachesSelf(e, stack[|stack| - 1].block);
  }

  /** A frame whose targets were all looked at is popped and its block finishes. */
  lemma SearchPops(e: EdgeMap, seen: set<BlockId>, stack: seq<Frame>, bases: seq<nat>, finished: seq<BlockId>)
    requires Search(e, seen, stack, bases, finished) && stack != []
    requires stack[|stack| - 1].next == |Targets(e, stack[|stack| - 1].block)|
    ensures Search(e, seen, stack[..|stack| - 1], bases[..|stack| - 1], finished + [stack[|stack| - 1].block])
  {
    PopKeepsBases(e, seen, stack, bases, finished);
    PopKeepsFinished(e, stack, bases, finished);
    PopKeepsSeen(e, seen, stack, finished);
    PopKeepsStack(e, seen, stack);
    hide StackInvariant, BaseInvariant, SeenInvariant, FinishedWell;
  }

  lemma PopKeepsStack(e: EdgeMap, seen: set<BlockId>, stack: seq<Frame>)
    requires StackInvariant(e, seen, stack) && stack != []
    ensures StackInvariant(e, seen, stack[..|stack| - 1])
  {
  }

  lemma PopKeepsFinished(e: EdgeMap, stack: seq<Frame>, bases: seq<nat>, finished: seq<BlockId>)
    requires BaseInvariant(e, stack, bases, finished) && FinishedWell(e, finished) && stack != []
    ensures FinishedWell(e, finished + [stack[|stack| - 1].block])
  {
    var top := stack[|stack| - 1].block;
    var order := finished + [top];
    TopFinishesWell(e, stack, bases, finished);
    hide BaseInvariant;
    forall k | 0 <= k < |order|
      ensures HasBase(e, order, k)
    {
      if k < |finished| {
        assert HasBase(e, finished, k);
        var b :| FinishedAt(e, finished, k, b);
        FinishedAtExtends(e, finished, top, k, b);
      }
    }
  }

  lemma PopKeepsSeen(e: EdgeMap, seen: set<BlockId>, stack: seq<Frame>, finished: seq<BlockId>)
    requires StackInvariant(e, seen, stack) && SeenInvariant(e, seen, stack, finished) && stack != []
    requires stack[|stack| - 1].next == |Targets(e, stack[|stack| - 1].block)|
    ensures SeenInvariant(e, seen, stack[..|stack| - 1], finished + [stack[|stack| - 1].block])
  {
    hide StackInvariant, SeenInvariant, OnStack, Edge, Targets;
    var below, top := stack[..|stack| - 1], stack[|stack| - 1];
    TopOfStack(stack);
    OnStackPushed(below, top);
    TopIsNotBelow(e, seen, stack);
    TopSawItsTargets(e, seen, stack);
    SeenMoves(e, seen, below, top, finished);
  }

  lemma TopOfStack(stack: seq<Frame>)
    requires stack != []
    ensures stack == stack[..|stack| - 1] + [stack[|stack| - 1]]
  {
  }

  lemma TopIsNotBelow(e: EdgeMap, seen: set<BlockId>, stack: seq<Frame>)
    requires StackInvariant(e, seen, stack) && stack != []
    ensures !OnStack(stack[..|stack| - 1], stack[|stack| - 1].block)
  {
  }

  lemma TopSawItsTargets(e: EdgeMap, seen: set<BlockId>, stack: seq<Frame>)
    requires StackInvariant(e, seen, stack) && stack != []
    requires stack[|stack| - 1].next == |Targets(e, stack[|stack| - 1].block)|
    ensures forall y :: Edge(e, stack[|stack| - 1].block, y) ==> y in seen
  {
    var top := stack[|stack| - 1];
    forall y | Edge(e, top.block, y)
      ensures y in seen
    {
      var k :| 0 <= k < |Targets(e, top.block)| && Targets(e, top.block)[k] == y;
    }
  }

  lemma SeenMoves(e: EdgeMap, seen: set<BlockId>, below: seq<Frame>, top: Frame, finished: seq<BlockId>)
    requires SeenInvariant(e, seen, below + [top], finished) && !OnStack(below, top.block)
    requires forall x :: OnStack(below + [top], x) <==> OnStack(below, x) || x == top.block
    requires forall y :: Edge(e, top.block, y) ==> y in seen
    ensures SeenInvariant(e, seen, below, finished + [top.block])
  {
    hide OnStack, Edge;
    var order := finished + [top.block];
    assert forall x :: x in order <==> x in finished || x == top.block;
    forall j, y | 0 <= j < |order| && Edge(e, order[j], y)
      ensures y in seen
    {
      assert j < |finished| ==> order[j] == finished[j];
    }
  }

  lemma PopKeepsBases(e: EdgeMap, seen: set<BlockId>, stack: seq<Frame>, bases: seq<nat>, finished: seq<BlockId>)
    requires StackInvariant(e, seen, stack) && BaseInvariant(e, stack, bases, finished) && stack != []
    ensures BaseInvariant(e, stack[..|stack| - 1], bases[..|stack| - 1], finished + [stack[|stack| - 1].block])
  {
    var n := |stack|;
    var stack', bases', order := stack[..n - 1], bases[..n - 1], finished + [stack[n - 1].block];
    forall i, j | 0 <= i < |stack'| && bases'[i] <= j < |order|
      ensures Reaches(e, stack'[i].block, order[j])
    {
      if j == |finished| {
        StackReaches(e, seen, stack, i, n - 1);
      }
    }
  }

  lemma SearchEnds(e: EdgeMap, seen: set<BlockId>, finished: seq<BlockId>)
    requires Search(e, seen, [], [], finished)
    ensures IsFinishOrder(e, finished) && Elements(finished) == seen
  {
    assert forall x :: x in seen <==> x in finished;
    forall a, b | a in finished && Edge(e, a, b)
      ensures b in finished
    {
      var j :| 0 <= j < |finished| && finished[j] == a;
    }
  }

  // ---------------------------------------------------------------------------
  // Termination of the explicit loop

  /** How much work a search can still do: two units for every block that may yet be
      pushed, and what is left of the frames on the stack. */
  ghost function FrameWork(e: EdgeMap, stack: seq<Frame>): nat
    requires forall f :: f in stack ==> f.next <= |Targets(e, f.block)|
  {
    if stack == [] then 0
    else
      var f := stack[|stack| - 1];
      FrameWork(e, stack[..|stack| - 1]) + 1 + |Targets(e, f.block)| - f.next
  }

  lemma FrameWorkPushed(e: EdgeMap, stack: seq<Frame>, f: Frame)
    requires forall g :: g in stack ==> g.next <= |Targets(e, g.block)|
    requires f.next <= |Targets(e, f.block)|
    ensures FrameWork(e, stack + [f]) == FrameWork(e, stack) + 1 + |Targets(e, f.block)| - f.next
  {
    assert (stack + [f])[..|stack|] == stack;
  }

  // ---------------------------------------------------------------------------
  // What a finish order proves

  /** The key step of the second sweep: if a block that finished earlier reaches order[k]
      without leaving what had finished by then, order[k] reaches it back. */
  lemma {:induction false} EarlierReachesBack(e: EdgeMap, order: seq<BlockId>, k: nat, p: seq<BlockId>)
    requires IsFinishOrder(e, order) && k < |order|
    requires IsPath(e, p) && p[|p| - 1] == order[k]
    requires forall x :: x in p ==> x in order[..k + 1]
    ensures Reaches(e, order[k], p[0])
  {
    assert HasBase(e, order, k);
    var b :| FinishedAt(e, order, k, b);
    EarlierStaysAbove(e, order, k, b, p);
  }

  lemma {:induction false} EarlierStaysAbove(e: EdgeMap, order: seq<BlockId>, k: nat, b: nat, p: seq<BlockId>)
    requires IsFinishOrder(e, order) && k < |order| && FinishedAt(e, order, k, b)
    requires IsPath(e, p) && p[|p| - 1] == order[k]
    requires forall x :: x in p ==> x in order[..k + 1]
    ensures exists j :: b <= j <= k && order[j] == p[0]
    ensures Reaches(e, order[k], p[0])
    decreases |p|
  {
    if |p| > 1 {
      assert forall x :: x in p[1..] ==> x in p;
      assert Edge(e, p[0], p[1]);
      SliceIsPath(e, p, 1, |p| - 1);
      assert p[1..] == p[1..|p| - 1 + 1];
      EarlierStaysAbove(e, order, k, b, p[1..]);
      var j :| b <= j <= k && order[j] == p[1];
      assert p[0] in p;
      var i :| 0 <= i <= k && order[i] == p[0];
      assert !(i < b);
    }
  }

  /** Along an edge the finish order decreases, unless the edge closes a cycle. */
  lemma EdgeFinishesEarlier(e: EdgeMap, order: seq<BlockId>, i: nat, j: nat)
    requires IsFinishOrder(e, order) && i < |order| && j < |order|
    requires Edge(e, order[i], order[j])
    ensures j < i || Reaches(e, order[j], order[i])
  {
    if i < j {
      assert PathBetween(e, [order[i], order[j]], order[i], order[j]);
      var p := [order[i], order[j]];
      assert order[i] == order[..j + 1][i] && order[j] == order[..j + 1][j];
      EarlierReachesBack(e, order, j, p);
    } else if i == j {
      ReachesSelf(e, order[i]);
    }
  }

  // ---------------------------------------------------------------------------
  // Preorder

  /** Depth-first preorder as a recursive function of the edges alone: the blocks first met
      when the targets waiting in todo are explored from the left. A name without a block is
      passed over. */
  function Visit(e: EdgeMap, todo: seq<BlockId>, seen: seq<BlockId>): seq<BlockId>
    decreases e.Keys - Elements(seen), |todo|
  {
    if todo == [] then seen
    else if todo[0] in seen || todo[0] !in e then Visit(e, todo[1..], seen)
    else
      assert todo[0] in e.Keys - Elements(seen);
      assert todo[0] in Elements(seen + [todo[0]]);
      assert forall x :: x in seen ==> x in Elements(seen + [todo[0]]);
      Visit(e, e[todo[0]] + todo[1..], seen + [todo[0]])
  }

  function Preorder(e: EdgeMap, entry: BlockId): seq<BlockId> {
    Visit(e, [entry], [])
  }

  /** Everything below the first targets comes before anything below the later ones: what is met
      below a block directly follows it. */
  lemma {:induction false} VisitSplit(e: EdgeMap, first: seq<BlockId>, later: seq<BlockId>, seen: seq<BlockId>)
    ensures Visit(e, first + later, seen) == Visit(e, later, Visit(e, first, seen))
    decreases e.Keys - Elements(seen), |first|
  {
    if first == [] {
      assert first + later == later;
    } else {
      var b := first[0];
      assert (first + later)[1..] == first[1..] + later;
      if b in seen || b !in e {
        VisitSplit(e, first[1..], later, seen);
      } else {
        assert b in e.Keys - Elements(seen) && b in Elements(seen + [b]);
        assert forall x :: x in seen ==> x in Elements(seen + [b]);
        assert e[b] + (first + later)[1..] == (e[b] + first[1..]) + later;
        VisitSplit(e, e[b] + first[1..], later, seen + [b]);
      }
    }
  }

  /** The targets the frames of a stack have not looked at, innermost first. */
  function Remaining(e: EdgeMap, stack: seq<Frame>): seq<BlockId>
    requires forall f :: f in stack ==> f.next <= |Targets(e, f.block)|
  {
    if stack == [] then []
    else
      var f := stack[|stack| - 1];
      Targets(e, f.block)[f.next..] + Remaining(e, stack[..|stack| - 1])
  }

  lemma RemainingPushed(e: EdgeMap, stack: seq<Frame>, f: Frame)
    requires forall g :: g in stack ==> g.next <= |Targets(e, g.block)|
    requires f.next <= |Targets(e, f.block)|
    ensures Remaining(e, stack + [f]) == Targets(e, f.block)[f.next..] + Remaining(e, stack)
  {
    assert (stack + [f])[..|stack|] == stack;
  }
}
