/** What the retain-or-erase decisions of the liveness analysis are for: a program with every
    access erased that was not retained behaves like the original, and one pass erases all
    there is to erase. */
module LivenessPruning {
  import opened Graphs
  import opened Wrappers
  import opened DenseBits
  import opened ReachableGraph
  import opened LivenessTheory
  import opened Liveness
  import CF = ControlFlow

  // ---------------------------------------------------------------------------
  // An execution model

  type Value = int

  /** One executed access and the values it read. */
  datatype Event = Event(access: Access, values: seq<Value>)

  /** What the analysis does not know about a program. A removable access with a destination
      computes its value from what it reads; any other access may also depend on everything
      observable that happened before, and so may the choice of the next block. */
  datatype Machine = Machine(
    compute: (Access, seq<Value>) -> Value,
    effect: (Access, seq<Value>, seq<Event>) -> Value,
    choose: (BlockId, seq<Event>) -> int)

  datatype State = State(store: map<Identity, Value>, observed: seq<Event>, kept: seq<Event>)

  datatype Config = Running(block: BlockId, state: State) | Halted(state: State)

  function Load(store: map<Identity, Value>, x: Identity): Value {
    if x in store then store[x] else 0
  }

  function Loads(store: map<Identity, Value>, xs: seq<Identity>): seq<Value> {
    seq(|xs|, i requires 0 <= i < |xs| => Load(store, xs[i]))
  }

  /** Effects, stores without permission to be removed, and terminators. */
  predicate Observable(a: Access) {
    a.write == None || !a.removable
  }

  /** Execute one access; record says whether it counts as kept. */
  function Execute(m: Machine, a: Access, record: bool, st: State): State {
    var values := Loads(st.store, a.uses);
    var event := Event(a, values);
    State(
      match a.write
      case None => st.store
      case Some(d) => st.store[d := if a.removable then m.compute(a, values) else m.effect(a, values, st.observed)],
      if Observable(a) then st.observed + [event] else st.observed,
      if record then st.kept + [event] else st.kept)
  }

  /** Position i of a mark list; what is not listed is marked. */
  function Mark(marks: seq<bool>, i: nat): bool {
    if i < |marks| then marks[i] else true
  }

  function Rest(marks: seq<bool>): seq<bool> {
    if marks == [] then [] else marks[1..]
  }

  function ExecuteAll(m: Machine, accesses: seq<Access>, marks: seq<bool>, st: State): State {
    if accesses == [] then st
    else ExecuteAll(m, accesses[1..], Rest(marks), Execute(m, accesses[0], Mark(marks, 0), st))
  }

  /** The block to run next, or the end of the run. */
  function Choose(m: Machine, g: CF.Graph, b: BlockId, after: State): Config {
    var targets := Targets(CF.Edges(g), b);
    var i := m.choose(b, after.observed);
    if 0 <= i < |targets| then Running(targets[i], after) else Halted(after)
  }

  /** One block: its accesses, then the choice of a successor. */
  function Step(m: Machine, f: Function, marks: map<BlockId, seq<bool>>, c: Config): Config {
    match c
    case Halted(_) => c
    case Running(b, st) =>
      Choose(m, ControlFlowFor(f), b, ExecuteAll(m, AccessesOf(f, b), if b in marks then marks[b] else [], st))
  }

  function Run(m: Machine, f: Function, marks: map<BlockId, seq<bool>>, c: Config, n: nat): Config {
    if n == 0 then c else Step(m, f, marks, Run(m, f, marks, c, n - 1))
  }

  // ---------------------------------------------------------------------------
  // Erasing

  /** The accesses that are marked. */
  function Kept(accesses: seq<Access>, marks: seq<bool>): seq<Access> {
    if accesses == [] then []
    else (if Mark(marks, 0) then [accesses[0]] else []) + Kept(accesses[1..], Rest(marks))
  }

  /** The retention decisions recorded for a block. */
  function Decisions(facts: seq<BlockFacts>): map<BlockId, seq<bool>> {
    if facts == [] then map[]
    else
      var k := |facts| - 1;
      var a := facts[k].accesses;
      Decisions(facts[..k])[facts[k].block := seq(|a|, i requires 0 <= i < |a| => a[i].retained)]
  }

  /** The function with every access erased that was not retained. */
  function Pruned(f: Function, marks: map<BlockId, seq<bool>>): Function {
    Function(f.entry, seq(|f.blocks|, i requires 0 <= i < |f.blocks| =>
      f.blocks[i].(accesses := Kept(f.blocks[i].accesses, if f.blocks[i].id in marks then marks[f.blocks[i].id]
          else []))))
  }

  lemma PrunedKeepsControlFlow(f: Function, marks: map<BlockId, seq<bool>>)
    ensures ControlFlowFor(Pruned(f, marks)) == ControlFlowFor(f)
    ensures forall b :: AccessesOf(Pruned(f, marks), b) == Kept(AccessesOf(f, b), if b in marks then marks[b] else [])
  {
    assert BlockIds(Pruned(f, marks)) == BlockIds(f);
    assert ControlFlowFor(Pruned(f, marks)).blocks == ControlFlowFor(f).blocks;
  }

  /** The decisions for an access list with a given live set at its exit. */
  function Decide(accesses: seq<Access>, exit: Storages): seq<bool> {
    if accesses == [] then []
    else [Retained(accesses[0], BeforeAll(accesses[1..], exit))] + Decide(accesses[1..], exit)
  }

  lemma {:induction false} DecideAt(accesses: seq<Access>, exit: Storages)
    ensures |Decide(accesses, exit)| == |accesses|
    ensures forall i :: 0 <= i < |accesses| ==>
      Decide(accesses, exit)[i] == Retained(accesses[i], BeforeAll(accesses[i + 1..], exit))
  {
    if accesses != [] {
      DecideAt(accesses[1..], exit);
      forall i | 0 < i < |accesses|
        ensures Decide(accesses, exit)[i] == Retained(accesses[i], BeforeAll(accesses[i + 1..], exit))
      {
        assert accesses[1..][i - 1] == accesses[i] && accesses[1..][i - 1 + 1..] == accesses[i + 1..];
      }
    }
  }

  lemma {:induction false} DecisionsAt(facts: seq<BlockFacts>, i: nat)
    requires FactsSorted(facts) && i < |facts|
    ensures facts[i].block in Decisions(facts)
    ensures Decisions(facts)[facts[i].block]
      == seq(|facts[i].accesses|, k requires 0 <= k < |facts[i].accesses| => facts[i].accesses[k].retained)
  {
    var k := |facts| - 1;
    if i < k {
      DecisionsAt(facts[..k], i);
      assert facts[..k][i] == facts[i] && facts[i].block < facts[k].block;
    }
  }

  lemma DecisionsMatch(accesses: seq<Access>, exit: Storages, materialize: bool, facts: seq<AccessFacts>)
    requires AccessesDescribe(accesses, exit, materialize, facts)
    ensures seq(|facts|, k requires 0 <= k < |facts| => facts[k].retained) == Decide(accesses, exit)
  {
    hide Shows, Decide, BeforeAll, Retained, Before;
    DecideAt(accesses, exit);
    var marks := seq(|facts|, k requires 0 <= k < |facts| => facts[k].retained);
    forall k | 0 <= k < |facts|
      ensures marks[k] == Decide(accesses, exit)[k]
    {
      assert AccessDescribes(accesses[k], BeforeAll(accesses[k + 1..], exit), materialize, facts[k]);
    }
  }

  /** The recorded decisions are the decisions of the live sets. */
  lemma RecordedDecisions(f: Function, g: CF.Graph, incoming: Facts, outgoing: Facts, materialize: bool,
      facts: seq<BlockFacts>, b: BlockId)
    requires FactsDescribe(f, g, incoming, outgoing, materialize, facts) && b in Reachables(g)
    ensures b in Decisions(facts)
    ensures Decisions(facts)[b] == Decide(AccessesOf(f, b), At(outgoing, b))
  {
    ReachableIsKnown(g, b);
    hide CF.Reachable, Decisions, Decide, AccessesOf, AccessesDescribe, Shows, FactsSorted, Reachables;
    var x :| x in facts && x.block == b;
    var i :| 0 <= i < |facts| && facts[i] == x;
    DecisionsAt(facts, i);
    assert BlockDescribes(f, g, incoming, outgoing, materialize, x);
    DecisionsMatch(AccessesOf(f, b), At(outgoing, b), materialize, x.accesses);
  }

  // ---------------------------------------------------------------------------
  // Erasing preserves meaning

  /** The two runs have observed and kept the same events and agree on what is live. */
  ghost predicate Agree(a: State, b: State, live: Storages) {
    && a.observed == b.observed && a.kept == b.kept
    && forall x :: x in live ==> Load(a.store, x) == Load(b.store, x)
  }

  lemma SameLoads(a: State, b: State, live: Storages, xs: seq<Identity>)
    requires Agree(a, b, live) && Elements(xs) <= live
    ensures Loads(a.store, xs) == Loads(b.store, xs)
  {
    var u, v := Loads(a.store, xs), Loads(b.store, xs);
    forall i | 0 <= i < |xs|
      ensures u[i] == v[i]
    {
      assert xs[i] in Elements(xs);
    }
  }

  /** A retained access reads the same values in both runs. */
  lemma RetainedAgrees(m: Machine, a: Access, after: Storages, s: State, t: State)
    requires Retained(a, after) && Agree(s, t, Before(a, after))
    ensures Agree(Execute(m, a, true, s), Execute(m, a, true, t), after)
  {
    SameLoads(s, t, Before(a, after), a.uses);
    var s', t' := Execute(m, a, true, s), Execute(m, a, true, t);
    forall x | x in after
      ensures Load(s'.store, x) == Load(t'.store, x)
    {
      if a.write != Some(x) {
        assert x in Before(a, after);
        assert Load(s.store, x) == Load(t.store, x);
      }
    }
  }

  /** An erased access changes nothing that is needed. */
  lemma ErasedAgrees(m: Machine, a: Access, after: Storages, s: State, t: State)
    requires !Retained(a, after) && Agree(s, t, Before(a, after))
    ensures Agree(Execute(m, a, false, s), t, after)
  {
  }

  lemma {:induction false} BlockAgrees(m: Machine, accesses: seq<Access>, exit: Storages, s: State, t: State)
    requires Agree(s, t, BeforeAll(accesses, exit))
    ensures Agree(ExecuteAll(m, accesses, Decide(accesses, exit), s),
                  ExecuteAll(m, Kept(accesses, Decide(accesses, exit)), [], t), exit)
  {
    if accesses != [] {
      var a, rest := accesses[0], accesses[1..];
      var marks := Decide(accesses, exit);
      var after := BeforeAll(rest, exit);
      assert Rest(marks) == Decide(rest, exit) && Mark(marks, 0) == Retained(a, after);
      hide Agree, Retained, Execute, Before;
      if Retained(a, after) {
        RetainedAgrees(m, a, after, s, t);
        BlockAgrees(m, rest, exit, Execute(m, a, true, s), Execute(m, a, true, t));
        assert Kept(accesses, marks) == [a] + Kept(rest, Decide(rest, exit));
        assert ([a] + Kept(rest, Decide(rest, exit)))[1..] == Kept(rest, Decide(rest, exit));
        assert Rest([]) == [] && Mark([], 0);
      } else {
        ErasedAgrees(m, a, after, s, t);
        BlockAgrees(m, rest, exit, Execute(m, a, false, s), t);
        assert Kept(accesses, marks) == Kept(rest, Decide(rest, exit));
      }
    }
  }

  /** The two configurations stand at the same block, or have both halted. */
  ghost predicate InStep(g: CF.Graph, incoming: Facts, c: Config, d: Config) {
    match (c, d)
    case (Running(b, s), Running(e, t)) => b == e && b in Reachables(g) && Agree(s, t, At(incoming, b))
    case (Halted(s), Halted(t)) => s.observed == t.observed && s.kept == t.kept
    case _ => false
  }

  lemma LiveFlowsOn(f: Function, g: CF.Graph, incoming: Facts, outgoing: Facts, b: BlockId, s: BlockId)
    requires IsLiveness(f, g, incoming, outgoing) && b in Reachables(g) && s in Targets(CF.Edges(g), b)
    ensures s in Reachables(g)
    ensures At(incoming, s) <= At(outgoing, b)
  {
    assert Edge(CF.Edges(g), b, s);
    ReachesThenEdge(CF.Edges(g), g.entry, b, s);
    SuccessorEdge(g, b, s);
    assert Solved(f, g, incoming, outgoing, b);
    forall x | x in At(incoming, s)
      ensures x in At(outgoing, b)
    {
      assert LiveInSuccessor(g, incoming, b, x);
    }
  }

  /** The two runs leave a block in step whatever is chosen next. */
  lemma ChoiceAgrees(m: Machine, f: Function, g: CF.Graph, incoming: Facts, outgoing: Facts, b: BlockId, s: State,
      t: State)
    requires IsLiveness(f, g, incoming, outgoing) && b in Reachables(g)
    requires Agree(s, t, At(outgoing, b))
    ensures InStep(g, incoming, Choose(m, g, b, s), Choose(m, g, b, t))
  {
    hide IsLiveness, Reachables, At, CF.Edges;
    var targets := Targets(CF.Edges(g), b);
    var i := m.choose(b, s.observed);
    if 0 <= i < |targets| {
      LiveFlowsOn(f, g, incoming, outgoing, b, targets[i]);
    }
  }

  lemma StepAgrees(m: Machine, f: Function, incoming: Facts, outgoing: Facts, materialize: bool,
      facts: seq<BlockFacts>, c: Config, d: Config)
    requires IsLiveness(f, ControlFlowFor(f), incoming, outgoing)
    requires FactsDescribe(f, ControlFlowFor(f), incoming, outgoing, materialize, facts)
    requires InStep(ControlFlowFor(f), incoming, c, d)
    ensures InStep(ControlFlowFor(f), incoming,
                   Step(m, f, Decisions(facts), c), Step(m, Pruned(f, Decisions(facts)), map[], d))
  {
    hide ExecuteAll, IsLiveness, FactsDescribe, Decisions, AccessesOf, CF.Edges, BeforeAll, Decide, Kept, Pruned,
        ControlFlowFor, Reachables, Agree, Choose;
    var g := ControlFlowFor(f);
    PrunedKeepsControlFlow(f, Decisions(facts));
    if c.Running? {
      var b := c.block;
      RecordedDecisions(f, g, incoming, outgoing, materialize, facts, b);
      EntryIsBeforeAll(f, g, incoming, outgoing, b);
      BlockAgrees(m, AccessesOf(f, b), At(outgoing, b), c.state, d.state);
      ChoiceAgrees(m, f, g, incoming, outgoing, b,
                   ExecuteAll(m, AccessesOf(f, b), Decide(AccessesOf(f, b), At(outgoing, b)), c.state),
                   ExecuteAll(m, AccessesOf(Pruned(f, Decisions(facts)), b), [], d.state));
    }
  }

  lemma EntryIsBeforeAll(f: Function, g: CF.Graph, incoming: Facts, outgoing: Facts, b: BlockId)
    requires IsLiveness(f, g, incoming, outgoing) && b in Reachables(g)
    ensures At(incoming, b) == BeforeAll(AccessesOf(f, b), At(outgoing, b))
  {
    assert Solved(f, g, incoming, outgoing, b);
  }

  /** The pruned program and the original, started in the same state, take the same blocks and
      see the same values in every access that is kept, after any number of blocks. */
  lemma {:induction false} PruningPreservesMeaning(m: Machine, f: Function, incoming: Facts, outgoing: Facts,
      materialize: bool,
                                                   facts: seq<BlockFacts>, st: State, n: nat)
    requires IsLiveness(f, ControlFlowFor(f), incoming, outgoing)
    requires FactsDescribe(f, ControlFlowFor(f), incoming, outgoing, materialize, facts)
    requires f.entry in CF.IdSet(ControlFlowFor(f))
    ensures InStep(ControlFlowFor(f), incoming,
                   Run(m, f, Decisions(facts), Running(f.entry, st), n),
                   Run(m, Pruned(f, Decisions(facts)), map[], Running(f.entry, st), n))
  {
    hide IsLiveness, FactsDescribe, InStep, Step, CF.IdSet, Pruned, Decisions;
    if n == 0 {
      RunsStartInStep(f, incoming, st);
    } else {
      PruningPreservesMeaning(m, f, incoming, outgoing, materialize, facts, st, n - 1);
      StepAgrees(m, f, incoming, outgoing, materialize, facts,
                 Run(m, f, Decisions(facts), Running(f.entry, st), n - 1),
                 Run(m, Pruned(f, Decisions(facts)), map[], Running(f.entry, st), n - 1));
    }
  }

  lemma RunsStartInStep(f: Function, incoming: Facts, st: State)
    requires f.entry in CF.IdSet(ControlFlowFor(f))
    ensures InStep(ControlFlowFor(f), incoming, Running(f.entry, st), Running(f.entry, st))
  {
    hide CF.Edges, CF.IdSet;
    ReachesSelf(CF.Edges(ControlFlowFor(f)), f.entry);
  }

  /** Nothing observable is ever erased. */
  lemma ObservableIsRetained(a: Access, liveAfter: Storages)
    requires Observable(a)
    ensures Retained(a, liveAfter)
  {
  }

  // ---------------------------------------------------------------------------
  // One pass is enough

  lemma {:induction false} KeptNeedsTheSame(accesses: seq<Access>, exit: Storages, less: Storages)
    requires less <= exit
    ensures BeforeAll(Kept(accesses, Decide(accesses, exit)), less) == BeforeAll(accesses, less)
  {
    if accesses != [] {
      var a, rest := accesses[0], accesses[1..];
      var marks := Decide(accesses, exit);
      assert Rest(marks) == Decide(rest, exit) && Mark(marks, 0) == Retained(a, BeforeAll(rest, exit));
      KeptNeedsTheSame(rest, exit, less);
      BeforeAllMonotone(rest, less, exit);
      var tail := Kept(rest, Decide(rest, exit));
      if Retained(a, BeforeAll(rest, exit)) {
        assert Kept(accesses, marks) == [a] + tail;
        assert ([a] + tail)[1..] == tail;
      } else {
        assert Kept(accesses, marks) == tail;
      }
    }
  }

  /** Every path demands the same of the pruned function. */
  lemma {:induction false} PrunedDemandsTheSame(f: Function, incoming: Facts, outgoing: Facts, materialize: bool,
                                                facts: seq<BlockFacts>, p: seq<BlockId>)
    requires IsLiveness(f, ControlFlowFor(f), incoming, outgoing)
    requires FactsDescribe(f, ControlFlowFor(f), incoming, outgoing, materialize, facts)
    requires IsPath(Successors(ControlFlowFor(f)), p) && p[0] in Reachables(ControlFlowFor(f))
    ensures Along(Pruned(f, Decisions(facts)), p) == Along(f, p)
    decreases |p|
  {
    var g := ControlFlowFor(f);
    var b := p[0];
    PrunedKeepsControlFlow(f, Decisions(facts));
    RecordedDecisions(f, g, incoming, outgoing, materialize, facts, b);
    if |p| == 1 {
      KeptNeedsTheSame(AccessesOf(f, b), At(outgoing, b), {});
    } else {
      PathTailDemands(f, g, incoming, outgoing, p);
      PrunedDemandsTheSame(f, incoming, outgoing, materialize, facts, p[1..]);
      KeptNeedsTheSame(AccessesOf(f, b), At(outgoing, b), Along(f, p[1..]));
    }
  }

  lemma LivenessHoldsPath(f: Function, g: CF.Graph, incoming: Facts, outgoing: Facts, p: seq<BlockId>)
    requires IsLiveness(f, g, incoming, outgoing)
    requires IsPath(Successors(g), p) && p[0] in Reachables(g)
    ensures Along(f, p) <= At(incoming, p[0])
  {
    hide Solved, Reachables, Successors, Along;
    SolutionHoldsPath(f, g, incoming, outgoing, p);
  }

  lemma PathTailDemands(f: Function, g: CF.Graph, incoming: Facts, outgoing: Facts, p: seq<BlockId>)
    requires IsLiveness(f, g, incoming, outgoing)
    requires IsPath(Successors(g), p) && p[0] in Reachables(g) && |p| > 1
    ensures IsPath(Successors(g), p[1..]) && p[1] in Reachables(g)
    ensures Along(f, p[1..]) <= At(outgoing, p[0])
  {
    hide IsLiveness, Reachables, Successors, CF.Edges, Along, At;
    SliceIsPath(Successors(g), p, 1, |p| - 1);
    assert p[1..] == p[1..|p| - 1 + 1];
    assert Edge(Successors(g), p[0], p[1]);
    SuccessorEdge(g, p[0], p[1]);
    LiveFlowsOn(f, g, incoming, outgoing, p[0], p[1]);
    LivenessHoldsPath(f, g, incoming, outgoing, p[1..]);
  }

  /** The pruned function has the same live sets. */
  lemma PrunedLiveSets(f: Function, incoming: Facts, outgoing: Facts, materialize: bool, facts: seq<BlockFacts>,
                       incoming': Facts, outgoing': Facts)
    requires IsLiveness(f, ControlFlowFor(f), incoming, outgoing)
    requires FactsDescribe(f, ControlFlowFor(f), incoming, outgoing, materialize, facts)
    requires IsLiveness(Pruned(f, Decisions(facts)), ControlFlowFor(f), incoming', outgoing')
    ensures incoming == incoming' && outgoing == outgoing'
  {
    hide IsLiveness, FactsDescribe, LiveIn, Decisions, Reachables, Pruned, ControlFlowFor;
    var g := ControlFlowFor(f);
    var h := Pruned(f, Decisions(facts));
    forall b, x | b in Reachables(g)
      ensures LiveIn(f, g, b, x) <==> LiveIn(h, g, b, x)
    {
      PrunedLiveIn(f, incoming, outgoing, materialize, facts, b, x);
    }
    SameLiveSets(f, h, g, incoming, outgoing, incoming', outgoing');
  }

  lemma SameLiveSets(f: Function, h: Function, g: CF.Graph, incoming: Facts, outgoing: Facts, incoming': Facts,
      outgoing': Facts)
    requires IsLiveness(f, g, incoming, outgoing) && IsLiveness(h, g, incoming', outgoing')
    requires forall b, x :: b in Reachables(g) ==> (LiveIn(f, g, b, x) <==> LiveIn(h, g, b, x))
    ensures incoming == incoming' && outgoing == outgoing'
  {
    hide LiveIn, Reachables, Solved;
    forall b | b in Reachables(g)
      ensures incoming[b] == incoming'[b]
    {
      assert forall x :: x in incoming[b] <==> LiveIn(f, g, b, x);
      assert forall x :: x in incoming'[b] <==> LiveIn(h, g, b, x);
    }
    assert incoming == incoming';
    forall b | b in Reachables(g)
      ensures outgoing[b] == outgoing'[b]
    {
      SameExits(f, h, g, incoming, outgoing, outgoing', b);
    }
    assert outgoing == outgoing';
  }

  lemma SameExits(f: Function, h: Function, g: CF.Graph, incoming: Facts, outgoing: Facts, outgoing': Facts, b: BlockId)
    requires b in outgoing && b in outgoing'
    requires Solved(f, g, incoming, outgoing, b) && Solved(h, g, incoming, outgoing', b)
    ensures outgoing[b] == outgoing'[b]
  {
    hide LiveInSuccessor, BeforeAll, AccessesOf;
    assert At(outgoing, b) == outgoing[b] && At(outgoing', b) == outgoing'[b];
  }

  lemma PrunedLiveIn(f: Function, incoming: Facts, outgoing: Facts, materialize: bool, facts: seq<BlockFacts>,
      b: BlockId, x: Identity)
    requires IsLiveness(f, ControlFlowFor(f), incoming, outgoing)
    requires FactsDescribe(f, ControlFlowFor(f), incoming, outgoing, materialize, facts)
    requires b in Reachables(ControlFlowFor(f))
    ensures LiveIn(f, ControlFlowFor(f), b, x) <==> LiveIn(Pruned(f, Decisions(facts)), ControlFlowFor(f), b, x)
  {
    var g := ControlFlowFor(f);
    var h := Pruned(f, Decisions(facts));
    hide IsLiveness, FactsDescribe, Decisions, CF.Reachable, Pruned, Along, Successors, ControlFlowFor;
    if LiveIn(f, g, b, x) {
      var p :| IsPath(Successors(g), p) && p[0] == b && x in Along(f, p);
      PrunedDemandsTheSame(f, incoming, outgoing, materialize, facts, p);
      assert x in Along(h, p);
    }
    if LiveIn(h, g, b, x) {
      var p :| IsPath(Successors(g), p) && p[0] == b && x in Along(h, p);
      PrunedDemandsTheSame(f, incoming, outgoing, materialize, facts, p);
      assert x in Along(f, p);
    }
  }

  lemma {:induction false} KeptIsAllRetained(accesses: seq<Access>, exit: Storages, i: nat)
    requires i < |Kept(accesses, Decide(accesses, exit))|
    ensures
      var kept := Kept(accesses, Decide(accesses, exit));
      Retained(kept[i], BeforeAll(kept[i + 1..], exit))
  {
    var a, rest := accesses[0], accesses[1..];
    var marks := Decide(accesses, exit);
    assert Rest(marks) == Decide(rest, exit) && Mark(marks, 0) == Retained(a, BeforeAll(rest, exit));
    var tail := Kept(rest, Decide(rest, exit));
    KeptNeedsTheSame(rest, exit, exit);
    if Retained(a, BeforeAll(rest, exit)) {
      assert Kept(accesses, marks) == [a] + tail;
      if i == 0 {
        assert ([a] + tail)[1..] == tail;
      } else {
        KeptIsAllRetained(rest, exit, i - 1);
        assert ([a] + tail)[i + 1..] == tail[i - 1 + 1..];
      }
    } else {
      assert Kept(accesses, marks) == tail;
      KeptIsAllRetained(rest, exit, i);
    }
  }

  /** Analysing the pruned function again finds nothing more to erase: dead producer chains of
      any length disappear in a single pass. */
  lemma OnePassIsEnough(f: Function, incoming: Facts, outgoing: Facts, materialize: bool, facts: seq<BlockFacts>,
                        incoming': Facts, outgoing': Facts, b: BlockId, i: nat)
    requires IsLiveness(f, ControlFlowFor(f), incoming, outgoing)
    requires FactsDescribe(f, ControlFlowFor(f), incoming, outgoing, materialize, facts)
    requires IsLiveness(Pruned(f, Decisions(facts)), ControlFlowFor(f), incoming', outgoing')
    requires b in Reachables(ControlFlowFor(f)) && i < |AccessesOf(Pruned(f, Decisions(facts)), b)|
    ensures
      var accesses := AccessesOf(Pruned(f, Decisions(facts)), b);
      Retained(accesses[i], BeforeAll(accesses[i + 1..], At(outgoing', b)))
  {
    PrunedLiveSets(f, incoming, outgoing, materialize, facts, incoming', outgoing');
    PrunedKeepsControlFlow(f, Decisions(facts));
    RecordedDecisions(f, ControlFlowFor(f), incoming, outgoing, materialize, facts, b);
    hide IsLiveness, FactsDescribe, Decisions, CF.Reachable, Pruned, AccessesOf, ControlFlowFor, BeforeAll, Kept,
        Decide, Retained;
    KeptIsAllRetained(AccessesOf(f, b), At(outgoing, b), i);
  }
}
