/** What the parity check says about executions (Talac/Fuzzing/CorePrepParity.cpp): modules between
    which it finds no difference take the same steps, block by block, on every machine. */
module CorePrepBehaviour {
  import opened Graphs
  import opened PreorderNumbering
  import opened SymbolRenaming
  import opened CorePrepModel
  import opened CorePrepParity

  // ---------------------------------------------------------------------------
  // Executions

  /** What a symbol is known by: a generated one by its identity alone. */
  datatype Key = Generated(id: nat) | Source(symbol: SymbolName)

  function KeyOf(s: SymbolName): Key {
    if IsGenerated(s) then Generated(s.id) else Source(s)
  }

  type Store = map<Key, int>

  /** An instruction as it is seen: its shape, its inputs, what it captures and how, and the place of
      the function a closure is made of. */
  datatype Event = Event(shape: nat, inputs: seq<int>, captured: seq<(nat, int)>, target: nat)

  datatype State = State(store: Store, history: seq<Event>)

  /** The result of an instruction may depend on everything that happened before. */
  datatype Machine = Machine(compute: (seq<Event>, Event) -> int, isTrue: int -> bool)

  datatype Config =
    | Running(block: BlockId, state: State)
    | Returned(value: int, history: seq<Event>)
    | Stuck(history: seq<Event>)

  function Read(store: Store, s: SymbolName): int {
    if KeyOf(s) in store then store[KeyOf(s)] else 0
  }

  function Input(store: Store, a: Atom): int {
    match a
    case Constant(payload) => payload
    case Variable(s) => Read(store, s)
  }

  function Inputs(store: Store, s: seq<Atom>): (r: seq<int>)
    ensures |r| == |s|
  {
    seq(|s|, i requires 0 <= i < |s| => Input(store, s[i]))
  }

  function Captured(store: Store, s: seq<Capture>): (r: seq<(nat, int)>)
    ensures |r| == |s|
  {
    seq(|s|, i requires 0 <= i < |s| => (s[i].mode, Input(store, s[i].value)))
  }

  /** The place of the first function with the symbol, or the number of functions. */
  function PlaceOf(functions: seq<Function>, s: SymbolName): nat {
    if functions == [] || KeyOf(functions[0].symbol) == KeyOf(s) then 0 else 1 + PlaceOf(functions[1..], s)
  }

  function EventOf(x: Module, store: Store, i: Instruction): Event {
    Event(i.shape, Inputs(store, i.operands), Captured(store, i.captures), PlaceOf(x.functions, i.closureFunction))
  }

  function Execute(m: Machine, x: Module, i: Instruction, st: State): State {
    var event := EventOf(x, st.store, i);
    State(st.store[KeyOf(i.destination) := m.compute(st.history, event)], st.history + [event])
  }

  function ExecuteAll(m: Machine, x: Module, s: seq<Instruction>, st: State): State {
    if s == [] then st else ExecuteAll(m, x, s[1..], Execute(m, x, s[0], st))
  }

  function GoTo(f: Function, b: BlockId, st: State): Config {
    if b in Ids(f) then Running(b, st) else Stuck(st.history)
  }

  function Leave(m: Machine, f: Function, t: Terminator, st: State): Config {
    match t.kind
    case Jump => GoTo(f, t.trueTarget, st)
    case Branch => GoTo(f, if m.isTrue(Input(st.store, t.value)) then t.trueTarget else t.falseTarget, st)
    case Return => Returned(Input(st.store, t.value), st.history)
    case Unreachable => Stuck(st.history)
  }

  /** One block. */
  function Step(m: Machine, x: Module, f: Function, c: Config): Config {
    if c.Running? && c.block in Ids(f) then
      var b := RecordOf(f, c.block);
      Leave(m, f, b.terminator, ExecuteAll(m, x, b.instructions, c.state))
    else c
  }

  function Run(m: Machine, x: Module, f: Function, c: Config, n: nat): Config {
    if n == 0 then c else Step(m, x, f, Run(m, x, f, c, n - 1))
  }

  /** The parameters hold the arguments. */
  function Given(parameters: seq<Parameter>, arguments: seq<int>): Store {
    if parameters == [] || arguments == [] then map[]
    else Given(parameters[1..], arguments[1..])[KeyOf(parameters[0].symbol) := arguments[0]]
  }

  function Start(f: Function, arguments: seq<int>): Config {
    GoTo(f, f.entry, State(Given(f.parameters, arguments), []))
  }

  /** What can be seen of an execution: what was executed so far, and how it ended if it did. */
  datatype Observation = Observation(history: seq<Event>, running: bool, returned: seq<int>)

  function Observe(c: Config): Observation {
    match c
    case Running(_, st) => Observation(st.history, true, [])
    case Returned(v, history) => Observation(history, false, [v])
    case Stuck(history) => Observation(history, false, [])
  }

  // ---------------------------------------------------------------------------
  // Corresponding symbols

  /** A one-to-one correspondence tells symbols apart alike. */
  lemma KeysCorrespond(sigma: map<nat, nat>, a: SymbolName, b: SymbolName, c: SymbolName, d: SymbolName)
    requires OneToOne(sigma) && SameSymbol(sigma, a, b) && SameSymbol(sigma, c, d)
    ensures KeyOf(a) == KeyOf(c) <==> KeyOf(b) == KeyOf(d)
  {
  }

  ghost predicate StoresMatch(sigma: map<nat, nat>, s: Store, t: Store) {
    forall a, b :: SameSymbol(sigma, a, b) ==> Read(s, a) == Read(t, b)
  }

  lemma StoresStayMatched(sigma: map<nat, nat>, s: Store, t: Store, a: SymbolName, b: SymbolName, v: int)
    requires OneToOne(sigma) && StoresMatch(sigma, s, t) && SameSymbol(sigma, a, b)
    ensures StoresMatch(sigma, s[KeyOf(a) := v], t[KeyOf(b) := v])
  {
    var s', t' := s[KeyOf(a) := v], t[KeyOf(b) := v];
    forall c, d | SameSymbol(sigma, c, d)
      ensures Read(s', c) == Read(t', d)
    {
      KeysCorrespond(sigma, a, b, c, d);
      assert Read(s, c) == Read(t, d);
    }
  }

  lemma {:induction false} PlacesCorrespond(sigma: map<nat, nat>, s: seq<Function>, t: seq<Function>, a: SymbolName,
      b: SymbolName)
    requires OneToOne(sigma) && |s| == |t| && SameSymbol(sigma, a, b)
    requires forall i :: 0 <= i < |s| ==> SameSymbol(sigma, s[i].symbol, t[i].symbol)
    ensures PlaceOf(s, a) == PlaceOf(t, b)
  {
    hide SameSymbol, OneToOne;
    if s != [] {
      KeysCorrespond(sigma, s[0].symbol, t[0].symbol, a, b);
      PlacesCorrespond(sigma, s[1..], t[1..], a, b);
    }
  }

  // ---------------------------------------------------------------------------
  // Corresponding instructions

  ghost predicate AtomsMatch(sigma: map<nat, nat>, a: Atom, b: Atom) {
    if a.Constant? then a == b else b.Variable? && SameSymbol(sigma, a.symbol, b.symbol)
  }

  ghost predicate CapturesMatch(sigma: map<nat, nat>, c: Capture, d: Capture) {
    c.mode == d.mode && AtomsMatch(sigma, c.value, d.value) && SameSymbol(sigma, c.symbol, d.symbol)
  }

  ghost predicate InstructionsMatch(sigma: map<nat, nat>, x: Instruction, y: Instruction) {
    && x.shape == y.shape && |x.operands| == |y.operands| && |x.captures| == |y.captures|
    && (forall i :: 0 <= i < |x.operands| ==> AtomsMatch(sigma, x.operands[i], y.operands[i]))
    && (forall i :: 0 <= i < |x.captures| ==> CapturesMatch(sigma, x.captures[i], y.captures[i]))
    && SameSymbol(sigma, x.closureFunction, y.closureFunction) && SameSymbol(sigma, x.destination, y.destination)
  }

  lemma AtomsAlikeMatch(sigma: map<nat, nat>, a: Atom, b: Atom)
    ensures Alike(AtomPlaces, AtomChanged, sigma, a, b) <==> AtomsMatch(sigma, a, b)
  {
    hide SameSymbol;
    if a.Variable? && b.Variable? {
      OneRelated(sigma, a.symbol, b.symbol);
    }
  }

  lemma CapturesAlikeMatch(sigma: map<nat, nat>, c: Capture, d: Capture)
    ensures Alike(CapturePlaces, CaptureChanged, sigma, c, d) <==> CapturesMatch(sigma, c, d)
  {
    AtomsLawful();
    hide SameSymbol, Lawful, AtomPlaces, AtomChanged, Related;
    AtomsAlikeMatch(sigma, c.value, d.value);
    OneRelated(sigma, c.symbol, d.symbol);
    if AtomChanged(Blank(), c.value) == AtomChanged(Blank(), d.value) {
      SameCount(AtomPlaces, AtomChanged, c.value, d.value);
      RelatedSplit(sigma, AtomPlaces(c.value), [c.symbol], AtomPlaces(d.value), [d.symbol]);
    }
  }

  lemma TwoRelated(sigma: map<nat, nat>, s: SymbolName, u: SymbolName, t: SymbolName, v: SymbolName)
    ensures Related(sigma, [s, u], [t, v]) <==> SameSymbol(sigma, s, t) && SameSymbol(sigma, u, v)
  {
    hide SameSymbol;
    if Related(sigma, [s, u], [t, v]) {
      assert SameSymbol(sigma, [s, u][0], [t, v][0]) && SameSymbol(sigma, [s, u][1], [t, v][1]);
    }
  }

  lemma InstructionPartsAlike(sigma: map<nat, nat>, x: Instruction, y: Instruction)
    ensures Alike(InstructionPlaces, InstructionChanged, sigma, x, y) <==>
      && x.shape == y.shape
      && Each(Blank(), AtomChanged, x.operands) == Each(Blank(), AtomChanged, y.operands)
      && Related(sigma, Flat(AtomPlaces, x.operands), Flat(AtomPlaces, y.operands))
      && Each(Blank(), CaptureChanged, x.captures) == Each(Blank(), CaptureChanged, y.captures)
      && Related(sigma, Flat(CapturePlaces, x.captures), Flat(CapturePlaces, y.captures))
      && SameSymbol(sigma, x.closureFunction, y.closureFunction) && SameSymbol(sigma, x.destination, y.destination)
  {
    AtomsLawful();
    CapturesLawful();
    hide SameSymbol, Lawful, AtomPlaces, AtomChanged, CapturePlaces, CaptureChanged, Flat, Each, Related;
    if Each(Blank(), AtomChanged, x.operands) == Each(Blank(), AtomChanged, y.operands)
        && Each(Blank(), CaptureChanged, x.captures) == Each(Blank(), CaptureChanged, y.captures) {
      FlatCount(AtomPlaces, AtomChanged, x.operands, y.operands);
      FlatCount(CapturePlaces, CaptureChanged, x.captures, y.captures);
      var u, v := [x.closureFunction, x.destination], [y.closureFunction, y.destination];
      var p, q := Flat(CapturePlaces, x.captures), Flat(CapturePlaces, y.captures);
      RelatedSplit(sigma, Flat(AtomPlaces, x.operands), p + u, Flat(AtomPlaces, y.operands), q + v);
      RelatedSplit(sigma, p, u, q, v);
      TwoRelated(sigma, x.closureFunction, x.destination, y.closureFunction, y.destination);
    }
  }

  lemma InstructionsAlikeMatch(sigma: map<nat, nat>, x: Instruction, y: Instruction)
    ensures Alike(InstructionPlaces, InstructionChanged, sigma, x, y) <==> InstructionsMatch(sigma, x, y)
  {
    AtomsLawful();
    CapturesLawful();
    hide SameSymbol, Lawful, AtomPlaces, AtomChanged, CapturePlaces, CaptureChanged, AtomsMatch, CapturesMatch, Flat,
        Each, Related, InstructionPlaces, InstructionChanged, Alike;
    InstructionPartsAlike(sigma, x, y);
    ListsAlike(AtomPlaces, AtomChanged, sigma, x.operands, y.operands);
    ListsAlike(CapturePlaces, CaptureChanged, sigma, x.captures, y.captures);
    if |x.operands| == |y.operands| && |x.captures| == |y.captures| {
      forall i | 0 <= i < |x.operands|
        ensures Alike(AtomPlaces, AtomChanged, sigma, x.operands[i], y.operands[i])
          <==> AtomsMatch(sigma, x.operands[i], y.operands[i])
      {
        AtomsAlikeMatch(sigma, x.operands[i], y.operands[i]);
      }
      forall i | 0 <= i < |x.captures|
        ensures Alike(CapturePlaces, CaptureChanged, sigma, x.captures[i], y.captures[i])
          <==> CapturesMatch(sigma, x.captures[i], y.captures[i])
      {
        CapturesAlikeMatch(sigma, x.captures[i], y.captures[i]);
      }
    }
  }

  ghost predicate ListsMatch(sigma: map<nat, nat>, s: seq<Instruction>, t: seq<Instruction>) {
    |s| == |t| && forall i :: 0 <= i < |s| ==> InstructionsMatch(sigma, s[i], t[i])
  }

  /** The same kind and value; a target that the kind does not use is plain data. */
  ghost predicate TerminatorsMatch(sigma: map<nat, nat>, s: Terminator, t: Terminator) {
    && s.kind == t.kind && AtomsMatch(sigma, s.value, t.value)
    && (s.kind == Return || s.kind == Unreachable ==> s.trueTarget == t.trueTarget)
    && (s.kind != Branch ==> s.falseTarget == t.falseTarget)
  }

  /** Blocks are alike exactly when their instructions, values and unused targets are, field by field. */
  lemma BlocksAlikeMatch(sigma: map<nat, nat>, b: Block, c: Block)
    ensures BlocksAlike(sigma, b, c) <==>
      ListsMatch(sigma, b.instructions, c.instructions) && TerminatorsMatch(sigma, b.terminator, c.terminator)
  {
    AtomsLawful();
    InstructionsLawful();
    hide SameSymbol, Lawful, AtomPlaces, AtomChanged, InstructionPlaces, InstructionChanged, AtomsMatch,
        InstructionsMatch, Flat, Each, Related, Alike, BlockPlaces, BlockChanged;
    BlockPartsAlike(sigma, b, c);
    AtomsAlikeMatch(sigma, b.terminator.value, c.terminator.value);
    AlikeIs(AtomPlaces, AtomChanged, sigma, b.terminator.value, c.terminator.value);
    ListsAlike(InstructionPlaces, InstructionChanged, sigma, b.instructions, c.instructions);
    if |b.instructions| == |c.instructions| {
      forall i | 0 <= i < |b.instructions|
        ensures Alike(InstructionPlaces, InstructionChanged, sigma, b.instructions[i], c.instructions[i])
          <==> InstructionsMatch(sigma, b.instructions[i], c.instructions[i])
      {
        InstructionsAlikeMatch(sigma, b.instructions[i], c.instructions[i]);
      }
    }
  }

  lemma AlikeIs<T>(places: T -> Places, changed: (Change, T) -> T, sigma: map<nat, nat>, x: T, y: T)
    ensures Alike(places, changed, sigma, x, y) <==>
      changed(Blank(), x) == changed(Blank(), y) && Related(sigma, places(x), places(y))
  {
  }

  lemma BlockPartsAlike(sigma: map<nat, nat>, b: Block, c: Block)
    ensures BlocksAlike(sigma, b, c) <==>
      && Each(Blank(), InstructionChanged, b.instructions) == Each(Blank(), InstructionChanged, c.instructions)
      && Related(sigma, Flat(InstructionPlaces, b.instructions), Flat(InstructionPlaces, c.instructions))
      && AtomChanged(Blank(), b.terminator.value) == AtomChanged(Blank(), c.terminator.value)
      && Related(sigma, AtomPlaces(b.terminator.value), AtomPlaces(c.terminator.value))
      && b.terminator.kind == c.terminator.kind
      && (b.terminator.kind == Return || b.terminator.kind == Unreachable ==>
            b.terminator.trueTarget == c.terminator.trueTarget)
      && (b.terminator.kind != Branch ==> b.terminator.falseTarget == c.terminator.falseTarget)
  {
    InstructionsLawful();
    hide SameSymbol, Lawful, AtomPlaces, AtomChanged, InstructionPlaces, InstructionChanged, Flat, Each, Related;
    var u, v := Core(b), Core(c);
    CoreTerminators(b, c);
    if Each(Blank(), InstructionChanged, b.instructions) == Each(Blank(), InstructionChanged, c.instructions) {
      FlatCount(InstructionPlaces, InstructionChanged, b.instructions, c.instructions);
      RelatedSplit(sigma, Flat(InstructionPlaces, b.instructions), AtomPlaces(b.terminator.value),
                   Flat(InstructionPlaces, c.instructions), AtomPlaces(c.terminator.value));
    }
  }

  lemma CoreTerminators(b: Block, c: Block)
    ensures BlockChanged(Blank(), Core(b)) == BlockChanged(Blank(), Core(c)) <==>
      && Each(Blank(), InstructionChanged, b.instructions) == Each(Blank(), InstructionChanged, c.instructions)
      && AtomChanged(Blank(), b.terminator.value) == AtomChanged(Blank(), c.terminator.value)
      && b.terminator.kind == c.terminator.kind
      && (b.terminator.kind == Return || b.terminator.kind == Unreachable ==>
            b.terminator.trueTarget == c.terminator.trueTarget)
      && (b.terminator.kind != Branch ==> b.terminator.falseTarget == c.terminator.falseTarget)
    ensures Core(b).terminator.value == b.terminator.value && Core(b).instructions == b.instructions
    ensures Core(c).terminator.value == c.terminator.value && Core(c).instructions == c.instructions
  {
    hide Each, AtomChanged, InstructionChanged;
    var x, y := BlockChanged(Blank(), Core(b)), BlockChanged(Blank(), Core(c));
    assert x.instructions == Each(Blank(), InstructionChanged, b.instructions);
    assert y.instructions == Each(Blank(), InstructionChanged, c.instructions);
    assert x.terminator.kind == b.terminator.kind && y.terminator.kind == c.terminator.kind;
    assert x.terminator.value == AtomChanged(Blank(), b.terminator.value);
    assert y.terminator.value == AtomChanged(Blank(), c.terminator.value);
  }

  // ---------------------------------------------------------------------------
  // Corresponding steps

  ghost predicate StatesMatch(sigma: map<nat, nat>, s: State, t: State) {
    StoresMatch(sigma, s.store, t.store) && s.history == t.history
  }

  ghost predicate InLockstep(sigma: map<nat, nat>, phi: map<BlockId, BlockId>, c: Config, d: Config) {
    match c
    case Running(b, s) => b in phi && d.Running? && d.block == phi[b] && StatesMatch(sigma, s, d.state)
    case _ => c == d
  }

  ghost predicate SymbolsMatch(sigma: map<nat, nat>, x: Module, y: Module) {
    |x.functions| == |y.functions|
    && forall i :: 0 <= i < |x.functions| ==> SameSymbol(sigma, x.functions[i].symbol, y.functions[i].symbol)
  }

  lemma InputsMatch(sigma: map<nat, nat>, s: Store, t: Store, a: Atom, b: Atom)
    requires StoresMatch(sigma, s, t) && AtomsMatch(sigma, a, b)
    ensures Input(s, a) == Input(t, b)
  {
    hide SameSymbol, Read;
  }

  lemma EventsMatch(sigma: map<nat, nat>, x: Module, y: Module, s: Store, t: Store, i: Instruction, j: Instruction)
    requires OneToOne(sigma) && SymbolsMatch(sigma, x, y) && StoresMatch(sigma, s, t) && InstructionsMatch(sigma, i, j)
    ensures EventOf(x, s, i) == EventOf(y, t, j)
  {
    PlacesCorrespond(sigma, x.functions, y.functions, i.closureFunction, j.closureFunction);
    hide SameSymbol, Input, AtomsMatch, StoresMatch, OneToOne, PlaceOf;
    forall k | 0 <= k < |i.operands|
      ensures Input(s, i.operands[k]) == Input(t, j.operands[k])
    {
      InputsMatch(sigma, s, t, i.operands[k], j.operands[k]);
    }
    forall k | 0 <= k < |i.captures|
      ensures i.captures[k].mode == j.captures[k].mode && Input(s, i.captures[k].value) == Input(t, j.captures[k].value)
    {
      assert CapturesMatch(sigma, i.captures[k], j.captures[k]);
      InputsMatch(sigma, s, t, i.captures[k].value, j.captures[k].value);
    }
    assert Inputs(s, i.operands) == Inputs(t, j.operands);
    assert Captured(s, i.captures) == Captured(t, j.captures);
  }

  lemma {:induction false} InstructionsKeepMatch(sigma: map<nat, nat>, m: Machine, x: Module, y: Module,
      p: seq<Instruction>,
                                                 q: seq<Instruction>, s: State, t: State)
    requires OneToOne(sigma) && SymbolsMatch(sigma, x, y) && ListsMatch(sigma, p, q) && StatesMatch(sigma, s, t)
    ensures StatesMatch(sigma, ExecuteAll(m, x, p, s), ExecuteAll(m, y, q, t))
    decreases |p|
  {
    hide OneToOne, SymbolsMatch, StoresMatch, EventOf;
    if p != [] {
      assert InstructionsMatch(sigma, p[0], q[0]);
      EventsMatch(sigma, x, y, s.store, t.store, p[0], q[0]);
      var v := m.compute(s.history, EventOf(x, s.store, p[0]));
      StoresStayMatched(sigma, s.store, t.store, p[0].destination, q[0].destination, v);
      hide InstructionsMatch;
      InstructionsKeepMatch(sigma, m, x, y, p[1..], q[1..], Execute(m, x, p[0], s), Execute(m, y, q[0], t));
    }
  }

  lemma GoesInLockstep(sigma: map<nat, nat>, f: Function, g: Function, phi: map<BlockId, BlockId>, b: BlockId,
      c: BlockId, s: State, t: State)
    requires Corresponds(ExitMap(f), ExitMap(g), phi, b, c) && StatesMatch(sigma, s, t)
    ensures InLockstep(sigma, phi, GoTo(f, b, s), GoTo(g, c, t))
  {
    hide StoresMatch;
    assert b in ExitMap(f) <==> b in Ids(f);
    assert c in ExitMap(g) <==> c in Ids(g);
  }

  /** What two alike functions hold at corresponding blocks. */
  lemma BodiesAt(sigma: map<nat, nat>, f: Function, g: Function, phi: map<BlockId, BlockId>, b: BlockId)
    requires BodiesAlike(sigma, f, g, phi) && b in phi
    ensures b in Ids(f) && phi[b] in Ids(g) && BlocksAlike(sigma, RecordOf(f, b), RecordOf(g, phi[b]))
    ensures AllCorrespond(ExitMap(f), ExitMap(g), phi, Successors(RecordOf(f, b).terminator),
      Successors(RecordOf(g, phi[b]).terminator))
  {
    hide BlocksAlike, RecordOf, AllCorrespond, Successors;
    assert Targets(ExitMap(f), b) == Successors(RecordOf(f, b).terminator);
    assert Targets(ExitMap(g), phi[b]) == Successors(RecordOf(g, phi[b]).terminator);
  }

  lemma LeavesInLockstep(sigma: map<nat, nat>, m: Machine, f: Function, g: Function, phi: map<BlockId, BlockId>,
                         u: Terminator, v: Terminator, s: State, t: State)
    requires u.kind == v.kind && AtomsMatch(sigma, u.value, v.value) && StatesMatch(sigma, s, t)
    requires AllCorrespond(ExitMap(f), ExitMap(g), phi, Successors(u), Successors(v))
    ensures InLockstep(sigma, phi, Leave(m, f, u, s), Leave(m, g, v, t))
  {
    HistoriesMatch(sigma, s, t);
    InputsMatch(sigma, s.store, t.store, u.value, v.value);
    hide StatesMatch, ExitMap, Corresponds, GoTo, AtomsMatch, Input;
    match u.kind
    case Jump => GoesInLockstep(sigma, f, g, phi, Successors(u)[0], Successors(v)[0], s, t);
    case Branch =>
      GoesInLockstep(sigma, f, g, phi, Successors(u)[0], Successors(v)[0], s, t);
      GoesInLockstep(sigma, f, g, phi, Successors(u)[1], Successors(v)[1], s, t);
    case Return =>
    case Unreachable =>
  }

  lemma HistoriesMatch(sigma: map<nat, nat>, s: State, t: State)
    requires StatesMatch(sigma, s, t)
    ensures s.history == t.history
  {
  }

  lemma StepsInLockstep(sigma: map<nat, nat>, m: Machine, x: Module, y: Module, f: Function, g: Function,
      phi: map<BlockId, BlockId>,
                        c: Config, d: Config)
    requires OneToOne(sigma) && SymbolsMatch(sigma, x, y) && BodiesAlike(sigma, f, g, phi)
      && InLockstep(sigma, phi, c, d)
    ensures InLockstep(sigma, phi, Step(m, x, f, c), Step(m, y, g, d))
  {
    hide OneToOne, SymbolsMatch, StatesMatch, RecordOf, Leave, ExecuteAll;
    if c.Running? {
      var b := c.block;
      BodiesAt(sigma, f, g, phi, b);
      hide BodiesAlike;
      var u, v := RecordOf(f, b), RecordOf(g, phi[b]);
      BlocksAlikeMatch(sigma, u, v);
      hide BlocksAlike, ListsMatch, AtomsMatch, AllCorrespond;
      var s, t := ExecuteAll(m, x, u.instructions, c.state), ExecuteAll(m, y, v.instructions, d.state);
      InstructionsKeepMatch(sigma, m, x, y, u.instructions, v.instructions, c.state, d.state);
      LeavesInLockstep(sigma, m, f, g, phi, u.terminator, v.terminator, s, t);
    }
  }

  lemma {:induction false} GivenMatch(sigma: map<nat, nat>, s: seq<Parameter>, t: seq<Parameter>, arguments: seq<int>)
    requires OneToOne(sigma) && ParametersAlike(sigma, s, t)
    ensures StoresMatch(sigma, Given(s, arguments), Given(t, arguments))
    decreases |s|
  {
    hide OneToOne, SameSymbol;
    if s != [] && arguments != [] {
      assert Alike(ParameterPlaces, ParameterChanged, sigma, s[0], t[0]);
      assert SameSymbol(sigma, ParameterPlaces(s[0])[0], ParameterPlaces(t[0])[0]);
      hide Alike;
      GivenMatch(sigma, s[1..], t[1..], arguments[1..]);
      StoresStayMatched(sigma, Given(s[1..], arguments[1..]), Given(t[1..], arguments[1..]), s[0].symbol,
          t[0].symbol, arguments[0]);
    }
  }

  /** Functions that are alike take the same steps, for any arguments and any number of blocks. */
  lemma {:induction false} FunctionsRunAlike(sigma: map<nat, nat>, m: Machine, x: Module, y: Module, f: Function,
      g: Function,
                                             phi: map<BlockId, BlockId>, arguments: seq<int>, n: nat)
    requires OneToOne(sigma) && SymbolsMatch(sigma, x, y) && ParametersAlike(sigma, f.parameters, g.parameters)
    requires BodiesAlike(sigma, f, g, phi)
    ensures InLockstep(sigma, phi, Run(m, x, f, Start(f, arguments), n), Run(m, y, g, Start(g, arguments), n))
  {
    hide OneToOne, SymbolsMatch, ParametersAlike, Step, InLockstep;
    if n == 0 {
      GivenMatch(sigma, f.parameters, g.parameters, arguments);
      assert Corresponds(ExitMap(f), ExitMap(g), phi, f.entry, g.entry);
      hide BodiesAlike, GoTo, StoresMatch, Corresponds;
      GoesInLockstep(sigma, f, g, phi, f.entry, g.entry, State(Given(f.parameters, arguments), []),
          State(Given(g.parameters, arguments), []));
    } else {
      hide BodiesAlike, Start;
      FunctionsRunAlike(sigma, m, x, y, f, g, phi, arguments, n - 1);
      StepsInLockstep(sigma, m, x, y, f, g, phi, Run(m, x, f, Start(f, arguments), n - 1),
          Run(m, y, g, Start(g, arguments), n - 1));
    }
  }

  lemma LockstepLooksAlike(sigma: map<nat, nat>, phi: map<BlockId, BlockId>, c: Config, d: Config)
    requires InLockstep(sigma, phi, c, d)
    ensures Observe(c) == Observe(d)
  {
    hide StoresMatch;
  }

  /** Equivalent modules cannot be told apart by running them. */
  lemma EquivalentModulesRunAlike(x: Module, y: Module, i: nat, m: Machine, arguments: seq<int>, n: nat)
    requires Equivalent(x, y) && i < |x.functions|
    ensures i < |y.functions|
    ensures Observe(Run(m, x, x.functions[i], Start(x.functions[i], arguments), n))
         == Observe(Run(m, y, y.functions[i], Start(y.functions[i], arguments), n))
  {
    hide OneToOne, ParametersAlike, BodiesAlike, Run, Start, Observe, SameSymbol, FirstKindsAgree;
    var sigma :| OneToOne(sigma) && EquivalentUnder(sigma, x, y);
    assert SymbolsMatch(sigma, x, y) by {
      assert forall k :: 0 <= k < |x.functions| ==> FunctionsAlike(sigma, x.functions[k], y.functions[k]);
    }
    var f, g := x.functions[i], y.functions[i];
    assert FunctionsAlike(sigma, f, g);
    var phi :| BodiesAlike(sigma, f, g, phi);
    FunctionsRunAlike(sigma, m, x, y, f, g, phi, arguments, n);
    LockstepLooksAlike(sigma, phi, Run(m, x, f, Start(f, arguments), n), Run(m, y, g, Start(g, arguments), n));
  }

  /** Two lowerings without a difference behave alike. */
  lemma NoDifferenceRunsAlike(x: Module, y: Module, i: nat, m: Machine, arguments: seq<int>, n: nat)
    requires Numbered(x) && Canonicalize(x) == Canonicalize(y) && i < |x.functions|
    ensures i < |y.functions|
    ensures Observe(Run(m, x, x.functions[i], Start(x.functions[i], arguments), n))
         == Observe(Run(m, y, y.functions[i], Start(y.functions[i], arguments), n))
  {
    hide Canonicalize, Equivalent, Run, Start, Observe;
    NoDifferenceIffEquivalent(x, y);
    EquivalentModulesRunAlike(x, y, i, m, arguments, n);
  }

  /** Canonicalization keeps what every function does. */
  lemma CanonicalFormRunsAlike(x: Module, i: nat, m: Machine, arguments: seq<int>, n: nat)
    requires Numbered(x) && i < |x.functions|
    ensures i < |Canonicalize(x).functions|
    ensures Observe(Run(m, x, x.functions[i], Start(x.functions[i], arguments), n))
         == Observe(Run(m, Canonicalize(x), Canonicalize(x).functions[i],
             Start(Canonicalize(x).functions[i], arguments), n))
  {
    hide Canonicalize, Equivalent, Run, Start, Observe;
    CanonicalFormIsCanonical(x);
    EquivalentModulesRunAlike(x, Canonicalize(x), i, m, arguments, n);
  }
}
