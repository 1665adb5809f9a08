/** The prepared modules of the parity check: functions of blocks of instructions, the places in
    them that hold symbols, in the order the renamer visits them, and changing every symbol. */
module CorePrepModel {
  import opened Graphs
  import opened SymbolRenaming

  datatype Atom = Constant(payload: nat) | Variable(symbol: SymbolName)

  datatype Capture = Capture(mode: nat, value: Atom, symbol: SymbolName)

  /** Kind, operation, types and whatever else holds no symbol is one opaque shape. */
  datatype Instruction = Instruction(
    shape: nat,
    operands: seq<Atom>,
    captures: seq<Capture>,
    closureFunction: SymbolName,
    destination: SymbolName)

  datatype TerminatorKind = Jump | Branch | Return | Unreachable

  datatype Terminator = Terminator(kind: TerminatorKind, value: Atom, trueTarget: BlockId, falseTarget: BlockId)

  datatype Block = Block(id: BlockId, instructions: seq<Instruction>, terminator: Terminator)

  datatype Parameter = Parameter(symbol: SymbolName, shape: nat)

  datatype Function = Function(symbol: SymbolName, parameters: seq<Parameter>, shape: nat, entry: BlockId,
      blocks: seq<Block>)

  datatype Module = Module(header: nat, functions: seq<Function>)

  // ---------------------------------------------------------------------------
  // Places and changes

  type Change = SymbolName -> SymbolName

  type Places = seq<SymbolName>

  function Flat<T>(places: T -> Places, s: seq<T>): Places {
    if s == [] then [] else places(s[0]) + Flat(places, s[1..])
  }

  function Each<T>(m: Change, changed: (Change, T) -> T, s: seq<T>): (r: seq<T>)
    ensures |r| == |s|
  {
    if s == [] then [] else [changed(m, s[0])] + Each(m, changed, s[1..])
  }

  function AllChanged(m: Change, list: Places): (r: Places)
    ensures |r| == |list|
  {
    seq(|list|, i requires 0 <= i < |list| => m(list[i]))
  }

  function AtomPlaces(a: Atom): Places {
    if a.Variable? then [a.symbol] else []
  }

  function AtomChanged(m: Change, a: Atom): Atom {
    if a.Variable? then Variable(m(a.symbol)) else a
  }

  function CapturePlaces(c: Capture): Places {
    AtomPlaces(c.value) + [c.symbol]
  }

  function CaptureChanged(m: Change, c: Capture): Capture {
    Capture(c.mode, AtomChanged(m, c.value), m(c.symbol))
  }

  function InstructionPlaces(i: Instruction): Places {
    Flat(AtomPlaces, i.operands) + (Flat(CapturePlaces, i.captures) + [i.closureFunction, i.destination])
  }

  function InstructionChanged(m: Change, i: Instruction): Instruction {
    Instruction(i.shape, Each(m, AtomChanged, i.operands), Each(m, CaptureChanged, i.captures), m(i.closureFunction),
        m(i.destination))
  }

  function BlockPlaces(b: Block): Places {
    Flat(InstructionPlaces, b.instructions) + AtomPlaces(b.terminator.value)
  }

  function BlockChanged(m: Change, b: Block): Block {
    Block(b.id, Each(m, InstructionChanged, b.instructions), b.terminator.(value := AtomChanged(m, b.terminator.value)))
  }

  function ParameterPlaces(p: Parameter): Places {
    [p.symbol]
  }

  function ParameterChanged(m: Change, p: Parameter): Parameter {
    Parameter(m(p.symbol), p.shape)
  }

  function FunctionPlaces(f: Function): Places {
    [f.symbol] + (Flat(ParameterPlaces, f.parameters) + Flat(BlockPlaces, f.blocks))
  }

  function FunctionChanged(m: Change, f: Function): Function {
    Function(m(f.symbol), Each(m, ParameterChanged, f.parameters), f.shape, f.entry, Each(m, BlockChanged, f.blocks))
  }

  function ModulePlaces(x: Module): Places {
    Flat(FunctionPlaces, x.functions)
  }

  function ModuleChanged(m: Change, x: Module): Module {
    Module(x.header, Each(m, FunctionChanged, x.functions))
  }

  const NO_SYMBOL := SymbolName(0, "")

  function Blank(): Change {
    s => NO_SYMBOL
  }

  // ---------------------------------------------------------------------------
  // Laws

  /** Changing a value changes the symbols at its places and nothing else, and a value is its
      places and the rest. */
  ghost predicate Lawful<T(!new)>(places: T -> Places, changed: (Change, T) -> T) {
    && (forall m, x :: places(changed(m, x)) == AllChanged(m, places(x)))
    && (forall m, x :: changed(Blank(), changed(m, x)) == changed(Blank(), x))
    && (forall x, y :: changed(Blank(), x) == changed(Blank(), y) && places(x) == places(y) ==> x == y)
  }

  lemma SameCount<T(!new)>(places: T -> Places, changed: (Change, T) -> T, x: T, y: T)
    requires Lawful(places, changed) && changed(Blank(), x) == changed(Blank(), y)
    ensures |places(x)| == |places(y)|
  {
    assert places(changed(Blank(), x)) == AllChanged(Blank(), places(x));
    assert places(changed(Blank(), y)) == AllChanged(Blank(), places(y));
  }

  lemma AllChangedSplit(m: Change, a: Places, b: Places)
    ensures AllChanged(m, a + b) == AllChanged(m, a) + AllChanged(m, b)
  {
  }

  lemma {:induction false} FlatChanged<T(!new)>(places: T -> Places, changed: (Change, T) -> T, m: Change, s: seq<T>)
    requires Lawful(places, changed)
    ensures Flat(places, Each(m, changed, s)) == AllChanged(m, Flat(places, s))
    ensures Each(Blank(), changed, Each(m, changed, s)) == Each(Blank(), changed, s)
  {
    if s != [] {
      var r := Each(m, changed, s);
      assert r[0] == changed(m, s[0]) && r[1..] == Each(m, changed, s[1..]);
      FlatChanged(places, changed, m, s[1..]);
      AllChangedSplit(m, places(s[0]), Flat(places, s[1..]));
    }
  }

  lemma SplitEqual(a: Places, b: Places, c: Places, d: Places)
    requires a + b == c + d && |a| == |c|
    ensures a == c && b == d
  {
    assert a == (a + b)[..|a|] && c == (c + d)[..|c|];
    assert b == (a + b)[|a|..] && d == (c + d)[|c|..];
  }

  lemma {:induction false} FlatDetermines<T(!new)>(places: T -> Places, changed: (Change, T) -> T, s: seq<T>, t: seq<T>)
    requires Lawful(places, changed)
    requires Each(Blank(), changed, s) == Each(Blank(), changed, t) && Flat(places, s) == Flat(places, t)
    ensures s == t
  {
    assert |Each(Blank(), changed, s)| == |Each(Blank(), changed, t)|;
    if s != [] {
      EachParts(changed, s);
      EachParts(changed, t);
      SameCount(places, changed, s[0], t[0]);
      SplitEqual(places(s[0]), Flat(places, s[1..]), places(t[0]), Flat(places, t[1..]));
      FlatDetermines(places, changed, s[1..], t[1..]);
      assert s == [s[0]] + s[1..] && t == [t[0]] + t[1..];
    }
  }

  lemma EachParts<T>(changed: (Change, T) -> T, s: seq<T>)
    requires s != []
    ensures Each(Blank(), changed, s)[0] == changed(Blank(), s[0])
    ensures Each(Blank(), changed, s)[1..] == Each(Blank(), changed, s[1..])
  {
  }

  lemma {:induction false} FlatCount<T(!new)>(places: T -> Places, changed: (Change, T) -> T, s: seq<T>, t: seq<T>)
    requires Lawful(places, changed) && Each(Blank(), changed, s) == Each(Blank(), changed, t)
    ensures |Flat(places, s)| == |Flat(places, t)|
  {
    FlatChanged(places, changed, Blank(), s);
    FlatChanged(places, changed, Blank(), t);
    assert |Flat(places, Each(Blank(), changed, s))| == |AllChanged(Blank(), Flat(places, s))|;
    assert |Flat(places, Each(Blank(), changed, t))| == |AllChanged(Blank(), Flat(places, t))|;
  }

  lemma AtomsLawful()
    ensures Lawful(AtomPlaces, AtomChanged)
  {
    forall m, x: Atom
      ensures AtomPlaces(AtomChanged(m, x)) == AllChanged(m, AtomPlaces(x))
    {
    }
  }

  lemma CapturesLawful()
    ensures Lawful(CapturePlaces, CaptureChanged)
  {
    AtomsLawful();
    forall m, x: Capture
      ensures CapturePlaces(CaptureChanged(m, x)) == AllChanged(m, CapturePlaces(x))
    {
      AllChangedSplit(m, AtomPlaces(x.value), [x.symbol]);
    }
    forall x: Capture, y: Capture | CaptureChanged(Blank(), x) == CaptureChanged(Blank(), y)
        && CapturePlaces(x) == CapturePlaces(y)
      ensures x == y
    {
      SameCount(AtomPlaces, AtomChanged, x.value, y.value);
      SplitEqual(AtomPlaces(x.value), [x.symbol], AtomPlaces(y.value), [y.symbol]);
    }
  }

  lemma InstructionPlacesChanged(m: Change, x: Instruction)
    ensures InstructionPlaces(InstructionChanged(m, x)) == AllChanged(m, InstructionPlaces(x))
    ensures InstructionChanged(Blank(), InstructionChanged(m, x)) == InstructionChanged(Blank(), x)
  {
    AtomsLawful();
    CapturesLawful();
    hide Lawful;
    FlatChanged(AtomPlaces, AtomChanged, m, x.operands);
    FlatChanged(CapturePlaces, CaptureChanged, m, x.captures);
    var tail := [x.closureFunction, x.destination];
    AllChangedSplit(m, Flat(CapturePlaces, x.captures), tail);
    AllChangedSplit(m, Flat(AtomPlaces, x.operands), Flat(CapturePlaces, x.captures) + tail);
    assert AllChanged(m, tail) == [m(x.closureFunction), m(x.destination)];
  }

  lemma InstructionIsItsPlaces(x: Instruction, y: Instruction)
    requires InstructionChanged(Blank(), x) == InstructionChanged(Blank(), y)
      && InstructionPlaces(x) == InstructionPlaces(y)
    ensures x == y
  {
    AtomsLawful();
    CapturesLawful();
    hide Lawful;
    FlatCount(AtomPlaces, AtomChanged, x.operands, y.operands);
    FlatCount(CapturePlaces, CaptureChanged, x.captures, y.captures);
    var u, v := [x.closureFunction, x.destination], [y.closureFunction, y.destination];
    SplitEqual(Flat(AtomPlaces, x.operands), Flat(CapturePlaces, x.captures) + u, Flat(AtomPlaces, y.operands),
        Flat(CapturePlaces, y.captures) + v);
    SplitEqual(Flat(CapturePlaces, x.captures), u, Flat(CapturePlaces, y.captures), v);
    FlatDetermines(AtomPlaces, AtomChanged, x.operands, y.operands);
    FlatDetermines(CapturePlaces, CaptureChanged, x.captures, y.captures);
    assert u[0] == v[0] && u[1] == v[1];
  }

  lemma InstructionsLawful()
    ensures Lawful(InstructionPlaces, InstructionChanged)
  {
    hide InstructionPlaces, InstructionChanged, AllChanged;
    forall m, x: Instruction
      ensures InstructionPlaces(InstructionChanged(m, x)) == AllChanged(m, InstructionPlaces(x))
      ensures InstructionChanged(Blank(), InstructionChanged(m, x)) == InstructionChanged(Blank(), x)
    {
      InstructionPlacesChanged(m, x);
    }
    forall x: Instruction, y: Instruction |
      InstructionChanged(Blank(), x) == InstructionChanged(Blank(), y) && InstructionPlaces(x) == InstructionPlaces(y)
      ensures x == y
    {
      InstructionIsItsPlaces(x, y);
    }
  }

  lemma BlockPlacesChanged(m: Change, x: Block)
    ensures BlockPlaces(BlockChanged(m, x)) == AllChanged(m, BlockPlaces(x))
    ensures BlockChanged(Blank(), BlockChanged(m, x)) == BlockChanged(Blank(), x)
  {
    AtomsLawful();
    InstructionsLawful();
    AllChangedSplit(m, Flat(InstructionPlaces, x.instructions), AtomPlaces(x.terminator.value));
    FlatChanged(InstructionPlaces, InstructionChanged, m, x.instructions);
  }

  lemma BlockIsItsPlaces(x: Block, y: Block)
    requires BlockChanged(Blank(), x) == BlockChanged(Blank(), y) && BlockPlaces(x) == BlockPlaces(y)
    ensures x == y
  {
    AtomsLawful();
    InstructionsLawful();
    FlatCount(InstructionPlaces, InstructionChanged, x.instructions, y.instructions);
    SplitEqual(Flat(InstructionPlaces, x.instructions), AtomPlaces(x.terminator.value),
               Flat(InstructionPlaces, y.instructions), AtomPlaces(y.terminator.value));
    FlatDetermines(InstructionPlaces, InstructionChanged, x.instructions, y.instructions);
    assert AtomChanged(Blank(), x.terminator.value) == AtomChanged(Blank(), y.terminator.value);
    assert x.terminator.kind == BlockChanged(Blank(), x).terminator.kind;
  }

  lemma BlocksLawful()
    ensures Lawful(BlockPlaces, BlockChanged)
  {
    hide BlockPlaces, BlockChanged, AllChanged;
    forall m, x: Block
      ensures BlockPlaces(BlockChanged(m, x)) == AllChanged(m, BlockPlaces(x))
      ensures BlockChanged(Blank(), BlockChanged(m, x)) == BlockChanged(Blank(), x)
    {
      BlockPlacesChanged(m, x);
    }
    forall x: Block, y: Block | BlockChanged(Blank(), x) == BlockChanged(Blank(), y) && BlockPlaces(x) == BlockPlaces(y)
      ensures x == y
    {
      BlockIsItsPlaces(x, y);
    }
  }

  lemma ParametersLawful()
    ensures Lawful(ParameterPlaces, ParameterChanged)
  {
    forall m, x: Parameter
      ensures ParameterPlaces(ParameterChanged(m, x)) == AllChanged(m, ParameterPlaces(x))
    {
    }
    forall x: Parameter, y: Parameter |
      ParameterChanged(Blank(), x) == ParameterChanged(Blank(), y) && ParameterPlaces(x) == ParameterPlaces(y)
      ensures x == y
    {
      assert ParameterPlaces(x)[0] == ParameterPlaces(y)[0];
    }
  }

  lemma FunctionPlacesChanged(m: Change, x: Function)
    ensures FunctionPlaces(FunctionChanged(m, x)) == AllChanged(m, FunctionPlaces(x))
    ensures FunctionChanged(Blank(), FunctionChanged(m, x)) == FunctionChanged(Blank(), x)
  {
    ParametersLawful();
    BlocksLawful();
    hide Lawful;
    FlatChanged(ParameterPlaces, ParameterChanged, m, x.parameters);
    FlatChanged(BlockPlaces, BlockChanged, m, x.blocks);
    AllChangedSplit(m, Flat(ParameterPlaces, x.parameters), Flat(BlockPlaces, x.blocks));
    AllChangedSplit(m, [x.symbol], Flat(ParameterPlaces, x.parameters) + Flat(BlockPlaces, x.blocks));
    assert AllChanged(m, [x.symbol]) == [m(x.symbol)];
  }

  lemma FunctionIsItsPlaces(x: Function, y: Function)
    requires FunctionChanged(Blank(), x) == FunctionChanged(Blank(), y) && FunctionPlaces(x) == FunctionPlaces(y)
    ensures x == y
  {
    ParametersLawful();
    BlocksLawful();
    hide Lawful;
    FlatCount(ParameterPlaces, ParameterChanged, x.parameters, y.parameters);
    SplitEqual([x.symbol], Flat(ParameterPlaces, x.parameters) + Flat(BlockPlaces, x.blocks),
               [y.symbol], Flat(ParameterPlaces, y.parameters) + Flat(BlockPlaces, y.blocks));
    SplitEqual(Flat(ParameterPlaces, x.parameters), Flat(BlockPlaces, x.blocks), Flat(ParameterPlaces, y.parameters),
        Flat(BlockPlaces, y.blocks));
    FlatDetermines(ParameterPlaces, ParameterChanged, x.parameters, y.parameters);
    FlatDetermines(BlockPlaces, BlockChanged, x.blocks, y.blocks);
  }

  lemma FunctionsLawful()
    ensures Lawful(FunctionPlaces, FunctionChanged)
  {
    hide FunctionPlaces, FunctionChanged, AllChanged;
    forall m, x: Function
      ensures FunctionPlaces(FunctionChanged(m, x)) == AllChanged(m, FunctionPlaces(x))
      ensures FunctionChanged(Blank(), FunctionChanged(m, x)) == FunctionChanged(Blank(), x)
    {
      FunctionPlacesChanged(m, x);
    }
    forall x: Function, y: Function | FunctionChanged(Blank(), x) == FunctionChanged(Blank(), y)
        && FunctionPlaces(x) == FunctionPlaces(y)
      ensures x == y
    {
      FunctionIsItsPlaces(x, y);
    }
  }

  lemma ModulesLawful()
    ensures Lawful(ModulePlaces, ModuleChanged)
  {
    FunctionsLawful();
    hide Lawful, FunctionPlaces, FunctionChanged;
    forall m, x: Module
      ensures ModulePlaces(ModuleChanged(m, x)) == AllChanged(m, ModulePlaces(x))
      ensures ModuleChanged(Blank(), ModuleChanged(m, x)) == ModuleChanged(Blank(), x)
    {
      FlatChanged(FunctionPlaces, FunctionChanged, m, x.functions);
    }
    forall x: Module, y: Module | ModuleChanged(Blank(), x) == ModuleChanged(Blank(), y)
        && ModulePlaces(x) == ModulePlaces(y)
      ensures x == y
    {
      FlatDetermines(FunctionPlaces, FunctionChanged, x.functions, y.functions);
    }
    ModulesAreLawful();
  }

  lemma ModulesAreLawful()
    requires forall m, x: Module :: ModulePlaces(ModuleChanged(m, x)) == AllChanged(m, ModulePlaces(x))
    requires forall m, x: Module :: ModuleChanged(Blank(), ModuleChanged(m, x)) == ModuleChanged(Blank(), x)
    requires forall x: Module, y: Module ::
      ModuleChanged(Blank(), x) == ModuleChanged(Blank(), y) && ModulePlaces(x) == ModulePlaces(y) ==> x == y
    ensures Lawful(ModulePlaces, ModuleChanged)
  {
    hide ModulePlaces, ModuleChanged, AllChanged;
  }

  // ---------------------------------------------------------------------------
  // Values that differ in symbols only

  /** Equal but for their symbols, and the symbols at the same places correspond. */
  ghost predicate Alike<T>(places: T -> Places, changed: (Change, T) -> T, sigma: map<nat, nat>, x: T, y: T) {
    changed(Blank(), x) == changed(Blank(), y) && Related(sigma, places(x), places(y))
  }

  lemma RelatedSplit(sigma: map<nat, nat>, a: Places, b: Places, c: Places, d: Places)
    requires |a| == |c|
    ensures Related(sigma, a + b, c + d) <==> Related(sigma, a, c) && Related(sigma, b, d)
  {
    if Related(sigma, a + b, c + d) {
      forall i | 0 <= i < |a|
        ensures SameSymbol(sigma, a[i], c[i])
      {
        assert (a + b)[i] == a[i] && (c + d)[i] == c[i];
      }
      forall i | 0 <= i < |b|
        ensures SameSymbol(sigma, b[i], d[i])
      {
        assert (a + b)[|a| + i] == b[i] && (c + d)[|c| + i] == d[i];
      }
    }
  }

  /** Lists are alike exactly when their elements are. */
  lemma {:induction false} ListsAlike<T(!new)>(places: T -> Places, changed: (Change, T) -> T, sigma: map<nat, nat>,
      s: seq<T>, t: seq<T>)
    requires Lawful(places, changed)
    ensures
      Each(Blank(), changed, s) == Each(Blank(), changed, t) && Related(sigma, Flat(places, s), Flat(places, t)) <==>
        |s| == |t| && forall i :: 0 <= i < |s| ==> Alike(places, changed, sigma, s[i], t[i])
  {
    hide SameSymbol;
    if |s| != |t| {
      assert |Each(Blank(), changed, s)| != |Each(Blank(), changed, t)|;
    } else if s != [] {
      ListsAlike(places, changed, sigma, s[1..], t[1..]);
      EachParts(changed, s);
      EachParts(changed, t);
      assert Each(Blank(), changed, s) == [changed(Blank(), s[0])] + Each(Blank(), changed, s[1..]);
      assert Each(Blank(), changed, t) == [changed(Blank(), t[0])] + Each(Blank(), changed, t[1..]);
      if changed(Blank(), s[0]) == changed(Blank(), t[0]) {
        SameCount(places, changed, s[0], t[0]);
        RelatedSplit(sigma, places(s[0]), Flat(places, s[1..]), places(t[0]), Flat(places, t[1..]));
      }
      assert forall i :: 0 < i < |s| ==> s[i] == s[1..][i - 1] && t[i] == t[1..][i - 1];
      if forall i :: 0 <= i < |s| ==> Alike(places, changed, sigma, s[i], t[i]) {
        assert Alike(places, changed, sigma, s[0], t[0]);
        assert forall i :: 0 <= i < |s[1..]| ==> Alike(places, changed, sigma, s[1..][i], t[1..][i]);
      }
    }
  }
}
