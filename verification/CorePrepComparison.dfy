/** The parity check as it runs (Talac/Fuzzing/CorePrepParity.cpp): block by block and symbol by
    symbol through both modules, and then the first difference. */
module CorePrepComparison {
  import opened Graphs
  import opened Wrappers
  import opened SymbolRenaming
  import opened CorePrepModel
  import opened CorePrepParity

  // ---------------------------------------------------------------------------
  // One table of names grows through all places

  /** Going through the places of x extends the table, and y is x under the extended table. */
  ghost predicate Renames<T>(places: T -> Places, changed: (Change, T) -> T, before: Names, after: Names, x: T, y: T) {
    after == ExtendAll(before, places(x)) && y == changed(Rename(after), x)
  }

  ghost predicate RenamesAll<T>(places: T -> Places, changed: (Change, T) -> T, before: Names, after: Names,
      s: seq<T>, t: seq<T>) {
    after == ExtendAll(before, Flat(places, s)) && t == Each(Rename(after), changed, s)
  }

  ghost predicate Grew(before: Names, after: Names) {
    forall id :: id in before ==> id in after && after[id] == before[id]
  }

  lemma {:induction false} ExtendAllJoins(names: Names, a: Places, b: Places)
    ensures ExtendAll(names, a + b) == ExtendAll(ExtendAll(names, a), b)
    decreases |b|
  {
    if b == [] {
      assert a + b == a;
    } else {
      var k := |b| - 1;
      ExtendAllJoins(names, a, b[..k]);
      assert (a + b)[..|a + b| - 1] == a + b[..k];
    }
  }

  lemma ExtendOne(names: Names, s: SymbolName)
    ensures ExtendAll(names, [s]) == Extend(names, s)
  {
    assert [s][..0] == [];
    assert ExtendAll(names, []) == names;
  }

  /** What the table names already keeps its name. */
  lemma RenameStays<T(!new)>(places: T -> Places, changed: (Change, T) -> T, names: Names, later: Names, x: T)
    requires Lawful(places, changed) && Covers(names, places(x)) && Grew(names, later)
    ensures changed(Rename(later), x) == changed(Rename(names), x)
  {
    var m, n := Rename(names), Rename(later);
    assert AllChanged(m, places(x)) == AllChanged(n, places(x));
    assert changed(Blank(), changed(m, x)) == changed(Blank(), changed(n, x));
  }

  lemma FlatFirst<T>(places: T -> Places, s: seq<T>)
    requires s != []
    ensures Flat(places, s) == places(s[0]) + Flat(places, s[1..])
  {
  }

  lemma CoversSplit(names: Names, a: Places, b: Places)
    requires Covers(names, a + b)
    ensures Covers(names, a) && Covers(names, b)
  {
    assert forall i :: 0 <= i < |a| ==> (a + b)[i] == a[i];
    assert forall i :: 0 <= i < |b| ==> (a + b)[|a| + i] == b[i];
  }

  lemma {:induction false} EachStays<T(!new)>(places: T -> Places, changed: (Change, T) -> T, names: Names,
      later: Names, s: seq<T>)
    requires Lawful(places, changed) && Covers(names, Flat(places, s)) && Grew(names, later)
    ensures Each(Rename(later), changed, s) == Each(Rename(names), changed, s)
  {
    hide Lawful, Covers, Grew, Rename;
    if s != [] {
      FlatFirst(places, s);
      CoversSplit(names, places(s[0]), Flat(places, s[1..]));
      RenameStays(places, changed, names, later, s[0]);
      EachStays(places, changed, names, later, s[1..]);
    }
  }

  lemma {:induction false} FlatJoins<T>(places: T -> Places, s: seq<T>, x: T)
    ensures Flat(places, s + [x]) == Flat(places, s) + places(x)
  {
    if s == [] {
      assert [] + [x] == [x] && [x][1..] == [];
    } else {
      FlatJoins(places, s[1..], x);
      assert (s + [x])[0] == s[0] && (s + [x])[1..] == s[1..] + [x];
    }
  }

  lemma {:induction false} EachJoins<T>(m: Change, changed: (Change, T) -> T, s: seq<T>, x: T)
    ensures Each(m, changed, s + [x]) == Each(m, changed, s) + [changed(m, x)]
  {
    if s == [] {
      assert [] + [x] == [x] && [x][1..] == [];
    } else {
      EachJoins(m, changed, s[1..], x);
      assert (s + [x])[0] == s[0] && (s + [x])[1..] == s[1..] + [x];
    }
  }

  lemma Named(before: Names, list: Places)
    ensures Covers(ExtendAll(before, list), list) && Grew(before, ExtendAll(before, list))
  {
    ExtendAllCovers(before, list);
  }

  lemma RenamesNone<T>(places: T -> Places, changed: (Change, T) -> T, names: Names, s: seq<T>)
    ensures RenamesAll(places, changed, names, names, s[..0], [])
  {
  }

  /** One more element. */
  lemma RenamesOneMore<T(!new)>(places: T -> Places, changed: (Change, T) -> T, before: Names, mid: Names, after: Names,
                                s: seq<T>, i: nat, r: seq<T>, y: T)
    requires Lawful(places, changed) && i < |s|
    requires RenamesAll(places, changed, before, mid, s[..i], r) && Renames(places, changed, mid, after, s[i], y)
    ensures RenamesAll(places, changed, before, after, s[..i + 1], r + [y])
  {
    hide Lawful, Covers, Grew, Rename;
    assert s[..i + 1] == s[..i] + [s[i]];
    FlatJoins(places, s[..i], s[i]);
    EachJoins(Rename(after), changed, s[..i], s[i]);
    ExtendAllJoins(before, Flat(places, s[..i]), places(s[i]));
    Named(before, Flat(places, s[..i]));
    Named(mid, places(s[i]));
    EachStays(places, changed, mid, after, s[..i]);
  }

  /** A part that was renamed stays so while later parts are. */
  lemma PartStays<T(!new)>(places: T -> Places, changed: (Change, T) -> T, before: Names, mid: Names, later: Names,
      x: T, y: T)
    requires Lawful(places, changed) && Renames(places, changed, before, mid, x, y) && Grew(mid, later)
    ensures y == changed(Rename(later), x)
  {
    hide Lawful, Covers, Grew, Rename;
    Named(before, places(x));
    RenameStays(places, changed, mid, later, x);
  }

  lemma ListStays<T(!new)>(places: T -> Places, changed: (Change, T) -> T, before: Names, mid: Names, later: Names,
      s: seq<T>, t: seq<T>)
    requires Lawful(places, changed) && RenamesAll(places, changed, before, mid, s, t) && Grew(mid, later)
    ensures t == Each(Rename(later), changed, s)
  {
    hide Lawful, Covers, Grew, Rename;
    Named(before, Flat(places, s));
    EachStays(places, changed, mid, later, s);
  }

  lemma SymbolStays(before: Names, later: Names, s: SymbolName)
    requires Grew(Extend(before, s), later)
    ensures Renamed(Extend(before, s), s) == Renamed(later, s)
  {
  }

  lemma GrowsOn(a: Names, b: Names, c: Names)
    requires Grew(a, b) && Grew(b, c)
    ensures Grew(a, c)
  {
  }

  // ---------------------------------------------------------------------------
  // The walk

  method RenameSymbol(renamer: Renamer, s: SymbolName) returns (r: SymbolName)
    modifies renamer
    ensures renamer.names == ExtendAll(old(renamer.names), [s]) && r == Renamed(renamer.names, s)
    ensures Grew(old(renamer.names), renamer.names)
  {
    Named(renamer.names, [s]);
    ExtendOne(renamer.names, s);
    r := renamer.Apply(s);
  }

  method RenameAtom(renamer: Renamer, a: Atom) returns (r: Atom)
    modifies renamer
    ensures Renames(AtomPlaces, AtomChanged, old(renamer.names), renamer.names, a, r)
    ensures Grew(old(renamer.names), renamer.names)
  {
    if a.Constant? {
      return a;
    }
    var s := RenameSymbol(renamer, a.symbol);
    r := Variable(s);
  }

  method RenameOperands(renamer: Renamer, s: seq<Atom>) returns (r: seq<Atom>)
    modifies renamer
    ensures RenamesAll(AtomPlaces, AtomChanged, old(renamer.names), renamer.names, s, r)
    ensures Grew(old(renamer.names), renamer.names)
  {
    hide Renames, RenamesAll, Lawful;
    ghost var before := renamer.names;
    AtomsLawful();
    r := [];
    RenamesNone(AtomPlaces, AtomChanged, before, s);
    for i := 0 to |s|
      invariant RenamesAll(AtomPlaces, AtomChanged, before, renamer.names, s[..i], r) && Grew(before, renamer.names)
    {
      ghost var mid := renamer.names;
      var a := RenameAtom(renamer, s[i]);
      RenamesOneMore(AtomPlaces, AtomChanged, before, mid, renamer.names, s, i, r, a);
      r := r + [a];
    }
    assert s[..|s|] == s;
  }

  method RenameCapture(renamer: Renamer, c: Capture) returns (r: Capture)
    modifies renamer
    ensures Renames(CapturePlaces, CaptureChanged, old(renamer.names), renamer.names, c, r)
    ensures Grew(old(renamer.names), renamer.names)
  {
    ghost var before := renamer.names;
    AtomsLawful();
    hide Lawful, Grew, AtomPlaces, AtomChanged, Extend, ExtendAll;
    var value := RenameAtom(renamer, c.value);
    ghost var mid := renamer.names;
    var symbol := RenameSymbol(renamer, c.symbol);
    PartStays(AtomPlaces, AtomChanged, before, mid, renamer.names, c.value, value);
    ExtendAllJoins(before, AtomPlaces(c.value), [c.symbol]);
    GrowsOn(before, mid, renamer.names);
    r := Capture(c.mode, value, symbol);
  }

  method RenameCaptures(renamer: Renamer, s: seq<Capture>) returns (r: seq<Capture>)
    modifies renamer
    ensures RenamesAll(CapturePlaces, CaptureChanged, old(renamer.names), renamer.names, s, r)
    ensures Grew(old(renamer.names), renamer.names)
  {
    hide Renames, RenamesAll, Lawful;
    ghost var before := renamer.names;
    CapturesLawful();
    r := [];
    RenamesNone(CapturePlaces, CaptureChanged, before, s);
    for i := 0 to |s|
      invariant RenamesAll(CapturePlaces, CaptureChanged, before, renamer.names, s[..i], r)
        && Grew(before, renamer.names)
    {
      ghost var mid := renamer.names;
      var c := RenameCapture(renamer, s[i]);
      RenamesOneMore(CapturePlaces, CaptureChanged, before, mid, renamer.names, s, i, r, c);
      r := r + [c];
    }
    assert s[..|s|] == s;
  }

  /** Operands are read before the destination is written, and named first. */
  method RenameInstruction(renamer: Renamer, x: Instruction) returns (r: Instruction)
    modifies renamer
    ensures Renames(InstructionPlaces, InstructionChanged, old(renamer.names), renamer.names, x, r)
    ensures Grew(old(renamer.names), renamer.names)
  {
    ghost var n0 := renamer.names;
    AtomsLawful();
    CapturesLawful();
    hide Lawful, Grew, AtomPlaces, AtomChanged, CapturePlaces, CaptureChanged, Extend, ExtendAll, Flat, Each, Renamed;
    var operands := RenameOperands(renamer, x.operands);
    ghost var n1 := renamer.names;
    var captures := RenameCaptures(renamer, x.captures);
    ghost var n2 := renamer.names;
    var closureFunction := RenameSymbol(renamer, x.closureFunction);
    ghost var n3 := renamer.names;
    var destination := RenameSymbol(renamer, x.destination);
    ghost var n4 := renamer.names;
    GrowsOn(n2, n3, n4);
    GrowsOn(n1, n2, n4);
    GrowsOn(n0, n1, n4);
    ListStays(AtomPlaces, AtomChanged, n0, n1, n4, x.operands, operands);
    ListStays(CapturePlaces, CaptureChanged, n1, n2, n4, x.captures, captures);
    EarlierStays(n2, n3, n4, x.closureFunction);
    var p, q := Flat(AtomPlaces, x.operands), Flat(CapturePlaces, x.captures);
    ghost var tail := [x.closureFunction, x.destination];
    assert tail == [x.closureFunction] + [x.destination];
    ExtendAllJoins(n2, [x.closureFunction], [x.destination]);
    ExtendAllJoins(n1, q, tail);
    ExtendAllJoins(n0, p, q + tail);
    r := Instruction(x.shape, operands, captures, closureFunction, destination);
  }

  lemma EarlierStays(before: Names, mid: Names, later: Names, s: SymbolName)
    requires mid == ExtendAll(before, [s]) && Grew(mid, later)
    ensures Renamed(mid, s) == Renamed(later, s)
  {
    ExtendOne(before, s);
    SymbolStays(before, later, s);
  }

  method RenameInstructions(renamer: Renamer, s: seq<Instruction>) returns (r: seq<Instruction>)
    modifies renamer
    ensures RenamesAll(InstructionPlaces, InstructionChanged, old(renamer.names), renamer.names, s, r)
    ensures Grew(old(renamer.names), renamer.names)
  {
    hide Renames, RenamesAll, Lawful;
    ghost var before := renamer.names;
    InstructionsLawful();
    r := [];
    RenamesNone(InstructionPlaces, InstructionChanged, before, s);
    for i := 0 to |s|
      invariant RenamesAll(InstructionPlaces, InstructionChanged, before, renamer.names, s[..i], r)
        && Grew(before, renamer.names)
    {
      ghost var mid := renamer.names;
      var x := RenameInstruction(renamer, s[i]);
      RenamesOneMore(InstructionPlaces, InstructionChanged, before, mid, renamer.names, s, i, r, x);
      r := r + [x];
    }
    assert s[..|s|] == s;
  }

  method RenameBlock(renamer: Renamer, b: Block) returns (r: Block)
    modifies renamer
    ensures Renames(BlockPlaces, BlockChanged, old(renamer.names), renamer.names, b, r)
    ensures Grew(old(renamer.names), renamer.names)
  {
    ghost var before := renamer.names;
    InstructionsLawful();
    hide Lawful, Grew, AtomPlaces, AtomChanged, InstructionPlaces, InstructionChanged, Extend, ExtendAll, Flat, Each;
    var instructions := RenameInstructions(renamer, b.instructions);
    ghost var mid := renamer.names;
    var value := RenameAtom(renamer, b.terminator.value);
    ListStays(InstructionPlaces, InstructionChanged, before, mid, renamer.names, b.instructions, instructions);
    ExtendAllJoins(before, Flat(InstructionPlaces, b.instructions), AtomPlaces(b.terminator.value));
    GrowsOn(before, mid, renamer.names);
    r := Block(b.id, instructions, b.terminator.(value := value));
  }

  method RenameBlocks(renamer: Renamer, s: seq<Block>) returns (r: seq<Block>)
    modifies renamer
    ensures RenamesAll(BlockPlaces, BlockChanged, old(renamer.names), renamer.names, s, r)
    ensures Grew(old(renamer.names), renamer.names)
  {
    hide Renames, RenamesAll, Lawful;
    ghost var before := renamer.names;
    BlocksLawful();
    r := [];
    RenamesNone(BlockPlaces, BlockChanged, before, s);
    for i := 0 to |s|
      invariant RenamesAll(BlockPlaces, BlockChanged, before, renamer.names, s[..i], r) && Grew(before, renamer.names)
    {
      ghost var mid := renamer.names;
      var x := RenameBlock(renamer, s[i]);
      RenamesOneMore(BlockPlaces, BlockChanged, before, mid, renamer.names, s, i, r, x);
      r := r + [x];
    }
    assert s[..|s|] == s;
  }

  method RenameParameters(renamer: Renamer, s: seq<Parameter>) returns (r: seq<Parameter>)
    modifies renamer
    ensures RenamesAll(ParameterPlaces, ParameterChanged, old(renamer.names), renamer.names, s, r)
    ensures Grew(old(renamer.names), renamer.names)
  {
    hide RenamesAll, Lawful;
    ghost var before := renamer.names;
    ParametersLawful();
    r := [];
    RenamesNone(ParameterPlaces, ParameterChanged, before, s);
    for i := 0 to |s|
      invariant RenamesAll(ParameterPlaces, ParameterChanged, before, renamer.names, s[..i], r)
        && Grew(before, renamer.names)
    {
      ghost var mid := renamer.names;
      var symbol := RenameSymbol(renamer, s[i].symbol);
      var x := Parameter(symbol, s[i].shape);
      RenamesOneMore(ParameterPlaces, ParameterChanged, before, mid, renamer.names, s, i, r, x);
      r := r + [x];
    }
    assert s[..|s|] == s;
  }

  method RenameFunction(renamer: Renamer, f: Function) returns (r: Function)
    modifies renamer
    ensures Renames(FunctionPlaces, FunctionChanged, old(renamer.names), renamer.names, f, r)
    ensures Grew(old(renamer.names), renamer.names)
  {
    ghost var n0 := renamer.names;
    ParametersLawful();
    BlocksLawful();
    hide Lawful, Grew, ParameterPlaces, ParameterChanged, BlockPlaces, BlockChanged, Extend, ExtendAll, Flat, Each,
        Renamed;
    var symbol := RenameSymbol(renamer, f.symbol);
    ghost var n1 := renamer.names;
    var parameters := RenameParameters(renamer, f.parameters);
    ghost var n2 := renamer.names;
    var blocks := RenameBlocks(renamer, f.blocks);
    ghost var n3 := renamer.names;
    GrowsOn(n1, n2, n3);
    GrowsOn(n0, n1, n3);
    EarlierStays(n0, n1, n3, f.symbol);
    ListStays(ParameterPlaces, ParameterChanged, n1, n2, n3, f.parameters, parameters);
    ExtendAllJoins(n1, Flat(ParameterPlaces, f.parameters), Flat(BlockPlaces, f.blocks));
    ExtendAllJoins(n0, [f.symbol], Flat(ParameterPlaces, f.parameters) + Flat(BlockPlaces, f.blocks));
    r := Function(symbol, parameters, f.shape, f.entry, blocks);
  }

  /** One renamer goes through all functions, each after its blocks were put in order. */
  method CanonicalizeModule(x: Module) returns (r: Module)
    ensures r == Canonicalize(x)
  {
    hide Renames, RenamesAll, Lawful, CanonicalFunction, Grew, FunctionPlaces, FunctionChanged;
    FunctionsLawful();
    var renamer := new Renamer();
    ghost var ordered := WithCanonicalBlocks(x).functions;
    var functions: seq<Function> := [];
    RenamesNone(FunctionPlaces, FunctionChanged, map[], ordered);
    for i := 0 to |x.functions|
      invariant fresh(renamer)
      invariant RenamesAll(FunctionPlaces, FunctionChanged, map[], renamer.names, ordered[..i], functions)
    {
      var f := CanonicalizeBlocks(x.functions[i]);
      ghost var mid := renamer.names;
      var renamed := RenameFunction(renamer, f);
      RenamesOneMore(FunctionPlaces, FunctionChanged, map[], mid, renamer.names, ordered, i, functions, renamed);
      functions := functions + [renamed];
    }
    assert ordered[..|ordered|] == ordered;
    AllRenamed(x, renamer.names, functions);
    r := Module(x.header, functions);
  }

  lemma AllRenamed(x: Module, names: Names, functions: seq<Function>)
    requires RenamesAll(FunctionPlaces, FunctionChanged, map[], names, WithCanonicalBlocks(x).functions, functions)
    ensures Canonicalize(x) == Module(x.header, functions)
  {
    hide FunctionPlaces, FunctionChanged, CanonicalFunction, ExtendAll;
  }

  // ---------------------------------------------------------------------------
  // The comparison

  datatype Difference = HeaderDiffers | FunctionCountDiffers | FunctionDiffers(index: nat) | ModulesDiffer

  /** What is reported: the first of header, number of functions and functions that differs. */
  function FirstDifference(left: Module, right: Module): Option<Difference> {
    if left.header != right.header then Some(HeaderDiffers)
    else if |left.functions| != |right.functions| then Some(FunctionCountDiffers)
    else FirstFunction(left.functions, right.functions, 0)
  }

  function FirstFunction(left: seq<Function>, right: seq<Function>, i: nat): Option<Difference>
    requires |left| == |right| && i <= |left|
    decreases |left| - i
  {
    if i == |left| then None else if left[i] != right[i] then Some(FunctionDiffers(i))
        else FirstFunction(left, right, i + 1)
  }

  lemma {:induction false} FirstFunctionIs(left: seq<Function>, right: seq<Function>, i: nat)
    requires |left| == |right| && i <= |left|
    ensures
      var d := FirstFunction(left, right, i);
      && (d == None <==> left[i..] == right[i..])
      && (d.Some? ==> d.value.FunctionDiffers?)
      && (d.Some? ==> i <= d.value.index < |left| && left[i..d.value.index] == right[i..d.value.index])
      && (d.Some? ==> left[d.value.index] != right[d.value.index])
    decreases |left| - i
  {
    if i < |left| {
      assert left[i..] == [left[i]] + left[i + 1..] && right[i..] == [right[i]] + right[i + 1..];
      assert left[i] != right[i] ==> left[i..][0] != right[i..][0];
      if left[i] == right[i] {
        FirstFunctionIs(left, right, i + 1);
        assert left[i + 1..] == left[i..][1..] && right[i + 1..] == right[i..][1..];
        var d := FirstFunction(left, right, i + 1);
        if d.Some? {
          assert left[i..d.value.index] == [left[i]] + left[i + 1..d.value.index];
          assert right[i..d.value.index] == [right[i]] + right[i + 1..d.value.index];
        }
      }
    }
  }

  /** Nothing is reported exactly for equal modules; otherwise the first difference is. */
  lemma FirstDifferenceIs(left: Module, right: Module)
    ensures
      var d := FirstDifference(left, right);
      && (d == None <==> left == right)
      && (d == Some(HeaderDiffers) <==> left.header != right.header)
      && (d == Some(FunctionCountDiffers) <==> left.header == right.header && |left.functions| != |right.functions|)
      && (forall i: nat :: d == Some(FunctionDiffers(i)) ==>
            && left.header == right.header && i < |left.functions| == |right.functions|
            && left.functions[..i] == right.functions[..i] && left.functions[i] != right.functions[i])
      && d != Some(ModulesDiffer)
  {
    if |left.functions| == |right.functions| {
      FirstFunctionIs(left.functions, right.functions, 0);
      assert left.functions[0..] == left.functions && right.functions[0..] == right.functions;
    }
  }

  method CompareCorePrep(frontend: Module, native: Module) returns (difference: Option<Difference>)
    ensures difference == FirstDifference(Canonicalize(frontend), Canonicalize(native))
  {
    hide Canonicalize;
    var left := CanonicalizeModule(frontend);
    var right := CanonicalizeModule(native);
    FirstDifferenceIs(left, right);
    if left == right {
      return None;
    }
    if left.header != right.header {
      return Some(HeaderDiffers);
    }
    if |left.functions| != |right.functions| {
      return Some(FunctionCountDiffers);
    }
    for i := 0 to |left.functions|
      invariant FirstFunction(left.functions, right.functions, 0) == FirstFunction(left.functions, right.functions, i)
    {
      if left.functions[i] != right.functions[i] {
        return Some(FunctionDiffers(i));
      }
    }
    assert false;
  }

  /** Nothing is reported exactly for equivalent modules. */
  lemma NothingReportedIffEquivalent(frontend: Module, native: Module)
    requires Numbered(frontend)
    ensures FirstDifference(Canonicalize(frontend), Canonicalize(native)) == None <==> Equivalent(frontend, native)
  {
    hide Canonicalize, Equivalent, FirstDifference;
    FirstDifferenceIs(Canonicalize(frontend), Canonicalize(native));
    NoDifferenceIffEquivalent(frontend, native);
  }
}
