/** What it means that storage is live at a position of a function, told without any transfer
    function: some execution from there reads it, in an access that is needed, before it is written.
    The facts and decisions of the liveness analysis are exactly that. */
module LivenessMeaning {
  import opened Graphs
  import opened Wrappers
  import opened DenseBits
  import opened ReachableGraph
  import opened LivenessTheory
  import opened Liveness
  import CF = ControlFlow

  // ---------------------------------------------------------------------------
  // Positions and executions

  /** Before the access of that index, or at the end of the block. */
  datatype Position = Position(block: BlockId, index: nat)

  ghost predicate IsAccess(f: Function, p: Position) {
    p.index < |AccessesOf(f, p.block)|
  }

  function AccessAt(f: Function, p: Position): Access
    requires IsAccess(f, p)
  {
    AccessesOf(f, p.block)[p.index]
  }

  /** Control goes on to the next access, or from the end of a block to the start of a successor. */
  ghost predicate GoesOn(f: Function, g: CF.Graph, p: Position, q: Position) {
    if IsAccess(f, p) then q == Position(p.block, p.index + 1)
    else p.index == |AccessesOf(f, p.block)| && q.index == 0 && Edge(Successors(g), p.block, q.block)
  }

  ghost predicate Way(f: Function, g: CF.Graph, way: seq<Position>) {
    way != [] && forall i :: 0 <= i < |way| - 1 ==> GoesOn(f, g, way[i], way[i + 1])
  }

  ghost predicate Reads(f: Function, p: Position, x: Identity) {
    IsAccess(f, p) && x in AccessAt(f, p).uses
  }

  ghost predicate Writes(f: Function, p: Position, x: Identity) {
    IsAccess(f, p) && AccessAt(f, p).write == Some(x)
  }

  // ---------------------------------------------------------------------------
  // Liveness

  /** The way leads from p to a read of x and does not write x before. */
  ghost predicate LeadsToRead(f: Function, g: CF.Graph, way: seq<Position>, p: Position, x: Identity) {
    && Way(f, g, way) && way[0] == p
    && Reads(f, way[|way| - 1], x)
    && forall i :: 0 <= i < |way| - 1 ==> !Writes(f, way[i], x)
  }

  /** x is live at p, by a chain of at most n accesses that are needed for what they write. */
  ghost predicate LiveWithin(f: Function, g: CF.Graph, p: Position, x: Identity, n: nat)
    decreases n, 1
  {
    exists way :: LeadsToRead(f, g, way, p, x) && NeededWithin(f, g, way[|way| - 1], n)
  }

  /** An access is needed that writes nothing or may not be removed, or whose destination is live
      after it. */
  ghost predicate NeededWithin(f: Function, g: CF.Graph, p: Position, n: nat)
    decreases n, 0
  {
    && IsAccess(f, p)
    && var a := AccessAt(f, p);
       || a.write == None
       || !a.removable
       || (n > 0 && LiveWithin(f, g, Position(p.block, p.index + 1), a.write.value, n - 1))
  }

  ghost predicate LiveAt(f: Function, g: CF.Graph, p: Position, x: Identity) {
    exists n: nat :: LiveWithin(f, g, p, x, n)
  }

  ghost predicate Needed(f: Function, g: CF.Graph, p: Position) {
    exists n: nat :: NeededWithin(f, g, p, n)
  }

  // ---------------------------------------------------------------------------
  // One step

  lemma PrependPosition(f: Function, g: CF.Graph, p: Position, way: seq<Position>)
    requires Way(f, g, way) && GoesOn(f, g, p, way[0])
    ensures Way(f, g, [p] + way)
  {
    hide GoesOn;
    var longer := [p] + way;
    forall i | 0 <= i < |longer| - 1
      ensures GoesOn(f, g, longer[i], longer[i + 1])
    {
      if i > 0 {
        assert longer[i] == way[i - 1] && longer[i + 1] == way[i];
      }
    }
  }

  /** What is live at the next position is live here, unless it is written between. */
  lemma LiveBefore(f: Function, g: CF.Graph, p: Position, q: Position, x: Identity, n: nat)
    requires GoesOn(f, g, p, q) && LiveWithin(f, g, q, x, n) && !Writes(f, p, x)
    ensures LiveWithin(f, g, p, x, n)
  {
    hide GoesOn, Reads, Writes, NeededWithin;
    var way :| LeadsToRead(f, g, way, q, x) && NeededWithin(f, g, way[|way| - 1], n);
    var longer := [p] + way;
    PrependPosition(f, g, p, way);
    assert longer[|longer| - 1] == way[|way| - 1];
    forall i | 0 <= i < |longer| - 1
      ensures !Writes(f, longer[i], x)
    {
      if i > 0 {
        assert longer[i] == way[i - 1];
      }
    }
    assert LeadsToRead(f, g, longer, p, x);
  }

  /** What a needed access reads is live before it. */
  lemma LiveByRead(f: Function, g: CF.Graph, p: Position, x: Identity, n: nat)
    requires Reads(f, p, x) && NeededWithin(f, g, p, n)
    ensures LiveWithin(f, g, p, x, n)
  {
    hide NeededWithin;
    assert LeadsToRead(f, g, [p], p, x);
  }

  lemma GoesOnInside(f: Function, g: CF.Graph, b: BlockId, k: nat)
    requires k < |AccessesOf(f, b)|
    ensures GoesOn(f, g, Position(b, k), Position(b, k + 1))
  {
  }

  lemma NeededForLive(f: Function, g: CF.Graph, p: Position)
    requires IsAccess(f, p)
    ensures Needed(f, g, p) <==>
      var a := AccessAt(f, p);
      a.write == None || !a.removable || LiveAt(f, g, Position(p.block, p.index + 1), a.write.value)
  {
    hide LiveWithin;
    var a := AccessAt(f, p);
    var after := Position(p.block, p.index + 1);
    if Needed(f, g, p) && a.write.Some? && a.removable {
      var n: nat :| NeededWithin(f, g, p, n);
      assert LiveWithin(f, g, after, a.write.value, n - 1);
    } else if a.write.Some? && a.removable && LiveAt(f, g, after, a.write.value) {
      var n: nat :| LiveWithin(f, g, after, a.write.value, n);
      assert NeededWithin(f, g, p, n + 1);
    } else if a.write == None || !a.removable {
      assert NeededWithin(f, g, p, 0);
    }
  }

  // ---------------------------------------------------------------------------
  // What the equations demand is live

  /** Going back through one access. */
  lemma TransferIsLive(f: Function, g: CF.Graph, b: BlockId, k: nat, after: Storages, x: Identity)
    requires k < |AccessesOf(f, b)|
    requires forall y :: y in after ==> LiveAt(f, g, Position(b, k + 1), y)
    requires x in Before(AccessesOf(f, b)[k], after)
    ensures LiveAt(f, g, Position(b, k), x)
  {
    hide LiveWithin, NeededWithin, GoesOn;
    var p, q := Position(b, k), Position(b, k + 1);
    var a := AccessesOf(f, b)[k];
    GoesOnInside(f, g, b, k);
    NeededForLive(f, g, p);
    if x in after && a.write != Some(x) {
      var n: nat :| LiveWithin(f, g, q, x, n);
      LiveBefore(f, g, p, q, x, n);
    } else {
      var n: nat :| NeededWithin(f, g, p, n);
      LiveByRead(f, g, p, x, n);
    }
  }

  lemma {:induction false} DemandIsLive(f: Function, g: CF.Graph, b: BlockId, k: nat, exit: Storages, x: Identity)
    requires k <= |AccessesOf(f, b)|
    requires forall y :: y in exit ==> LiveAt(f, g, Position(b, |AccessesOf(f, b)|), y)
    requires x in BeforeAll(AccessesOf(f, b)[k..], exit)
    ensures LiveAt(f, g, Position(b, k), x)
    decreases |AccessesOf(f, b)| - k
  {
    hide LiveAt, Before, AccessesOf;
    var accesses := AccessesOf(f, b);
    if k < |accesses| {
      assert accesses[k..][1..] == accesses[k + 1..];
      var after := BeforeAll(accesses[k + 1..], exit);
      forall y | y in after
        ensures LiveAt(f, g, Position(b, k + 1), y)
      {
        DemandIsLive(f, g, b, k + 1, exit, y);
      }
      TransferIsLive(f, g, b, k, after, x);
    }
  }

  lemma EdgeIsLive(f: Function, g: CF.Graph, b: BlockId, s: BlockId, x: Identity)
    requires Edge(Successors(g), b, s) && LiveAt(f, g, Position(s, 0), x)
    ensures LiveAt(f, g, Position(b, |AccessesOf(f, b)|), x)
  {
    hide LiveWithin;
    var n: nat :| LiveWithin(f, g, Position(s, 0), x, n);
    LiveBefore(f, g, Position(b, |AccessesOf(f, b)|), Position(s, 0), x, n);
  }

  lemma {:induction false} AlongIsLive(f: Function, g: CF.Graph, path: seq<BlockId>, x: Identity)
    requires IsPath(Successors(g), path) && x in Along(f, path)
    ensures LiveAt(f, g, Position(path[0], 0), x)
    decreases |path|
  {
    hide LiveAt, AccessesOf, Successors;
    var b := path[0];
    var exit := if |path| == 1 then {} else Along(f, path[1..]);
    if |path| > 1 {
      SliceIsPath(Successors(g), path, 1, |path| - 1);
      assert path[1..] == path[1..|path| - 1 + 1];
      assert Edge(Successors(g), b, path[1]);
      forall y | y in exit
        ensures LiveAt(f, g, Position(b, |AccessesOf(f, b)|), y)
      {
        AlongIsLive(f, g, path[1..], y);
        EdgeIsLive(f, g, b, path[1], y);
      }
    }
    assert AccessesOf(f, b)[0..] == AccessesOf(f, b);
    DemandIsLive(f, g, b, 0, exit, x);
  }

  // ---------------------------------------------------------------------------
  // What is live the equations demand

  /** The set the facts give for a position. */
  ghost function FactAt(f: Function, outgoing: Facts, p: Position): Storages
    requires p.index <= |AccessesOf(f, p.block)|
  {
    BeforeAll(AccessesOf(f, p.block)[p.index..], At(outgoing, p.block))
  }

  lemma FactBefore(f: Function, outgoing: Facts, p: Position)
    requires IsAccess(f, p)
    ensures FactAt(f, outgoing, p) == Before(AccessAt(f, p), FactAt(f, outgoing, Position(p.block, p.index + 1)))
  {
    hide Before;
    var accesses := AccessesOf(f, p.block);
    assert accesses[p.index..][1..] == accesses[p.index + 1..];
  }

  /** What the equations say of one block that can execute. */
  lemma EquationsAt(f: Function, g: CF.Graph, incoming: Facts, outgoing: Facts, b: BlockId)
    requires IsLiveness(f, g, incoming, outgoing) && b in Reachables(g)
    ensures incoming[b] == At(incoming, b) == BeforeAll(AccessesOf(f, b), At(outgoing, b))
    ensures outgoing[b] == At(outgoing, b)
    ensures forall x :: x in At(outgoing, b) <==> LiveInSuccessor(g, incoming, b, x)
    ensures forall x :: x in At(incoming, b) <==> LiveIn(f, g, b, x)
  {
    hide Reachables, AccessesOf, BeforeAll, LiveIn, LiveInSuccessor;
    assert Solved(f, g, incoming, outgoing, b);
  }

  lemma EdgeStays(g: CF.Graph, b: BlockId, s: BlockId)
    requires b in Reachables(g) && Edge(Successors(g), b, s)
    ensures s in Reachables(g)
  {
    hide CF.Edges, Successors;
    SuccessorEdge(g, b, s);
    ReachesThenEdge(CF.Edges(g), g.entry, b, s);
  }

  lemma FactCrosses(f: Function, g: CF.Graph, incoming: Facts, outgoing: Facts, b: BlockId, s: BlockId, x: Identity)
    requires IsLiveness(f, g, incoming, outgoing) && b in Reachables(g) && Edge(Successors(g), b, s)
    requires x in FactAt(f, outgoing, Position(s, 0))
    ensures x in FactAt(f, outgoing, Position(b, |AccessesOf(f, b)|))
  {
    hide IsLiveness, Reachables, Successors, AccessesOf, LiveIn;
    EdgeStays(g, b, s);
    EquationsAt(f, g, incoming, outgoing, b);
    EquationsAt(f, g, incoming, outgoing, s);
    assert AccessesOf(f, s)[0..] == AccessesOf(f, s) && AccessesOf(f, b)[|AccessesOf(f, b)|..] == [];
    assert LiveInSuccessor(g, incoming, b, x);
  }

  lemma FactGoesOn(f: Function, g: CF.Graph, incoming: Facts, outgoing: Facts, p: Position, q: Position, x: Identity)
    requires IsLiveness(f, g, incoming, outgoing) && p.block in Reachables(g) && p.index <= |AccessesOf(f, p.block)|
    requires GoesOn(f, g, p, q) && !Writes(f, p, x)
    ensures q.block in Reachables(g) && q.index <= |AccessesOf(f, q.block)|
    ensures x in FactAt(f, outgoing, q) ==> x in FactAt(f, outgoing, p)
  {
    hide IsLiveness, Reachables, Successors, AccessesOf, FactAt;
    if IsAccess(f, p) {
      FactBefore(f, outgoing, p);
    } else {
      EdgeStays(g, p.block, q.block);
      if x in FactAt(f, outgoing, q) {
        FactCrosses(f, g, incoming, outgoing, p.block, q.block, x);
      }
    }
  }

  lemma {:induction false} LiveIsInFact(f: Function, g: CF.Graph, incoming: Facts, outgoing: Facts, p: Position,
      x: Identity, n: nat)
    requires IsLiveness(f, g, incoming, outgoing) && p.block in Reachables(g) && p.index <= |AccessesOf(f, p.block)|
    requires LiveWithin(f, g, p, x, n)
    ensures x in FactAt(f, outgoing, p)
    decreases n, 1, 0
  {
    var way :| LeadsToRead(f, g, way, p, x) && NeededWithin(f, g, way[|way| - 1], n);
    WayIsInFact(f, g, incoming, outgoing, way, x, n);
  }

  lemma {:induction false} WayIsInFact(f: Function, g: CF.Graph, incoming: Facts, outgoing: Facts, way: seq<Position>,
      x: Identity, n: nat)
    requires IsLiveness(f, g, incoming, outgoing) && way != []
    requires way[0].block in Reachables(g) && way[0].index <= |AccessesOf(f, way[0].block)|
    requires LeadsToRead(f, g, way, way[0], x) && NeededWithin(f, g, way[|way| - 1], n)
    ensures x in FactAt(f, outgoing, way[0])
    decreases n, 0, |way|
  {
    hide IsLiveness, AccessesOf, Reachables, GoesOn, FactAt, NeededWithin, LeadsToRead;
    if |way| == 1 {
      assert Reads(f, way[0], x) by {
        hide *;
        ReadsAtEnd(f, g, way, x);
      }
      NeededReadIsInFact(f, g, incoming, outgoing, way[0], x, n);
    } else {
      RestLeads(f, g, way, x);
      FactGoesOn(f, g, incoming, outgoing, way[0], way[1], x);
      assert way[1..][0] == way[1] && way[1..][|way| - 2] == way[|way| - 1];
      WayIsInFact(f, g, incoming, outgoing, way[1..], x, n);
    }
  }

  lemma ReadsAtEnd(f: Function, g: CF.Graph, way: seq<Position>, x: Identity)
    requires way != [] && LeadsToRead(f, g, way, way[0], x)
    ensures Reads(f, way[|way| - 1], x)
  {
  }

  lemma NeededReadIsInFact(f: Function, g: CF.Graph, incoming: Facts, outgoing: Facts, p: Position, x: Identity,
      n: nat)
    requires IsLiveness(f, g, incoming, outgoing) && p.block in Reachables(g)
    requires Reads(f, p, x) && NeededWithin(f, g, p, n)
    ensures x in FactAt(f, outgoing, p)
    decreases n, 0, 0
  {
    hide IsLiveness, AccessesOf, Reachables, FactAt, LiveWithin;
    var a := AccessAt(f, p);
    FactBefore(f, outgoing, p);
    if a.write.Some? && a.removable {
      LiveIsInFact(f, g, incoming, outgoing, Position(p.block, p.index + 1), a.write.value, n - 1);
    }
  }

  lemma RestLeads(f: Function, g: CF.Graph, way: seq<Position>, x: Identity)
    requires |way| > 1 && LeadsToRead(f, g, way, way[0], x)
    ensures GoesOn(f, g, way[0], way[1]) && !Writes(f, way[0], x)
    ensures LeadsToRead(f, g, way[1..], way[1], x)
  {
    hide GoesOn, Reads, Writes;
    var rest := way[1..];
    forall i | 0 <= i < |rest| - 1
      ensures GoesOn(f, g, rest[i], rest[i + 1]) && !Writes(f, rest[i], x)
    {
      assert rest[i] == way[i + 1] && rest[i + 1] == way[i + 2];
    }
  }

  // ---------------------------------------------------------------------------
  // The results

  /** At every position of a block that can execute, the analysis holds exactly the storage that is
      live there. */
  lemma FactsAreLiveness(f: Function, g: CF.Graph, incoming: Facts, outgoing: Facts, p: Position, x: Identity)
    requires IsLiveness(f, g, incoming, outgoing) && p.block in Reachables(g) && p.index <= |AccessesOf(f, p.block)|
    ensures x in FactAt(f, outgoing, p) <==> LiveAt(f, g, p, x)
  {
    hide AccessesOf, Reachables, Successors, LiveWithin;
    if LiveAt(f, g, p, x) {
      var n: nat :| LiveWithin(f, g, p, x, n);
      LiveIsInFact(f, g, incoming, outgoing, p, x, n);
    }
    if x in FactAt(f, outgoing, p) {
      forall y | y in At(outgoing, p.block)
        ensures LiveAt(f, g, Position(p.block, |AccessesOf(f, p.block)|), y)
      {
        ExitIsLive(f, g, incoming, outgoing, p.block, y);
      }
      DemandIsLive(f, g, p.block, p.index, At(outgoing, p.block), x);
    }
  }

  lemma ExitIsLive(f: Function, g: CF.Graph, incoming: Facts, outgoing: Facts, b: BlockId, y: Identity)
    requires IsLiveness(f, g, incoming, outgoing) && b in Reachables(g) && y in At(outgoing, b)
    ensures LiveAt(f, g, Position(b, |AccessesOf(f, b)|), y)
  {
    hide IsLiveness, Reachables, Successors, AccessesOf, LiveAt, Along, BeforeAll;
    EquationsAt(f, g, incoming, outgoing, b);
    var s :| Edge(Successors(g), b, s) && y in At(incoming, s);
    EdgeStays(g, b, s);
    EquationsAt(f, g, incoming, outgoing, s);
    var path :| IsPath(Successors(g), path) && path[0] == s && y in Along(f, path);
    AlongIsLive(f, g, path, y);
    EdgeIsLive(f, g, b, s, y);
  }

  /** Live on entry and live on exit of a block. */
  lemma BlockFactsAreLiveness(f: Function, g: CF.Graph, incoming: Facts, outgoing: Facts, b: BlockId, x: Identity)
    requires IsLiveness(f, g, incoming, outgoing) && b in Reachables(g)
    ensures x in At(incoming, b) <==> LiveAt(f, g, Position(b, 0), x)
    ensures x in At(outgoing, b) <==> LiveAt(f, g, Position(b, |AccessesOf(f, b)|), x)
  {
    hide IsLiveness, AccessesOf, LiveAt, Reachables, LiveIn, LiveInSuccessor;
    EquationsAt(f, g, incoming, outgoing, b);
    var accesses := AccessesOf(f, b);
    assert accesses[0..] == accesses && accesses[|accesses|..] == [];
    FactsAreLiveness(f, g, incoming, outgoing, Position(b, 0), x);
    FactsAreLiveness(f, g, incoming, outgoing, Position(b, |accesses|), x);
  }

  lemma RecordOfAccess(f: Function, g: CF.Graph, incoming: Facts, outgoing: Facts, materialize: bool,
      facts: seq<BlockFacts>, i: nat, k: nat)
    requires FactsDescribe(f, g, incoming, outgoing, materialize, facts)
    requires i < |facts| && facts[i].reachable && k < |AccessesOf(f, facts[i].block)|
    ensures facts[i].block in Reachables(g) && k < |facts[i].accesses|
    ensures AccessDescribes(AccessesOf(f, facts[i].block)[k], FactAt(f, outgoing, Position(facts[i].block, k + 1)),
        materialize, facts[i].accesses[k])
  {
    hide AccessDescribes, AccessesOf, Reachables, FactsSorted, Shows;
    assert facts[i] in facts && BlockDescribes(f, g, incoming, outgoing, materialize, facts[i]);
  }

  /** An access of a block that can execute is retained exactly when it is needed, and is shown with
      what is live before and after it. */
  lemma RetainedIffNeeded(f: Function, g: CF.Graph, incoming: Facts, outgoing: Facts, materialize: bool,
      facts: seq<BlockFacts>, i: nat, k: nat)
    requires IsLiveness(f, g, incoming, outgoing)
    requires FactsDescribe(f, g, incoming, outgoing, materialize, facts)
    requires i < |facts| && facts[i].reachable && k < |AccessesOf(f, facts[i].block)|
    ensures k < |facts[i].accesses|
    ensures facts[i].accesses[k].retained <==> Needed(f, g, Position(facts[i].block, k))
    ensures materialize ==> forall x ::
      x in facts[i].accesses[k].liveBefore <==> LiveAt(f, g, Position(facts[i].block, k), x)
    ensures materialize ==> forall x ::
      x in facts[i].accesses[k].liveAfter <==> LiveAt(f, g, Position(facts[i].block, k + 1), x)
  {
    hide FactsDescribe, IsLiveness, AccessesOf, Reachables, Needed, LiveAt, FactAt, AccessDescribes;
    RecordOfAccess(f, g, incoming, outgoing, materialize, facts, i, k);
    var b := facts[i].block;
    var p, q := Position(b, k), Position(b, k + 1);
    forall x
      ensures x in FactAt(f, outgoing, p) <==> LiveAt(f, g, p, x)
      ensures x in FactAt(f, outgoing, q) <==> LiveAt(f, g, q, x)
    {
      FactsAreLiveness(f, g, incoming, outgoing, p, x);
      FactsAreLiveness(f, g, incoming, outgoing, q, x);
    }
    FactBefore(f, outgoing, p);
    NeededForLive(f, g, p);
    AccessRecordMeaning(AccessesOf(f, b)[k], FactAt(f, outgoing, q), materialize, facts[i].accesses[k]);
  }

  lemma AccessRecordMeaning(a: Access, liveAfter: Storages, materialize: bool, fact: AccessFacts)
    requires AccessDescribes(a, liveAfter, materialize, fact)
    ensures fact.retained <==> a.write == None || !a.removable || a.write.value in liveAfter
    ensures materialize ==> forall x :: x in fact.liveBefore <==> x in Before(a, liveAfter)
    ensures materialize ==> forall x :: x in fact.liveAfter <==> x in liveAfter
  {
    hide Before;
  }
}
