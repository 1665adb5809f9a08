/** The parity check of two lowerings (Talac/Fuzzing/CorePrepParity.cpp): both modules are brought
    to a canonical form and compared, which finds no difference exactly when they are the same
    but for block identities, unreachable blocks and the names of generated symbols. */
module CorePrepParity {
  import opened Graphs
  import opened Wrappers
  import opened PreorderNumbering
  import opened SymbolRenaming
  import opened CorePrepModel

  // ---------------------------------------------------------------------------
  // Canonical blocks

  function Ids(f: Function): seq<BlockId> {
    seq(|f.blocks|, i requires 0 <= i < |f.blocks| => f.blocks[i].id)
  }

  /** The first record of an identity. */
  function RecordOf(f: Function, b: BlockId): Block
    requires b in Ids(f)
  {
    f.blocks[FirstIndex(Ids(f), b)]
  }

  function Successors(t: Terminator): seq<BlockId> {
    match t.kind
    case Jump => [t.trueTarget]
    case Branch => [t.trueTarget, t.falseTarget]
    case Return => []
    case Unreachable => []
  }

  function ExitMap(f: Function): EdgeMap {
    map b | b in Ids(f) :: Successors(RecordOf(f, b).terminator)
  }

  function Order(f: Function): seq<BlockId> {
    Numbering(ExitMap(f), f.entry)
  }

  function Retargeted(order: seq<BlockId>, t: Terminator): Terminator {
    match t.kind
    case Jump => t.(trueTarget := Target(order, t.trueTarget))
    case Branch => t.(trueTarget := Target(order, t.trueTarget), falseTarget := Target(order, t.falseTarget))
    case Return => t
    case Unreachable => t
  }

  function Renumbered(order: seq<BlockId>, i: nat, b: Block): Block {
    Block(i, b.instructions, Retargeted(order, b.terminator))
  }

  lemma OrderIsKnown(f: Function)
    ensures Distinct(Order(f)) && forall b :: b in Order(f) ==> b in Ids(f)
    ensures f.entry in Ids(f) <==> Order(f) != []
  {
    NumberedIffReached(ExitMap(f), f.entry);
    EntryIsFirst(ExitMap(f), f.entry);
    hide Walk, Reaches;
    forall b | b in Order(f)
      ensures b in Ids(f)
    {
      assert b in ExitMap(f);
    }
  }

  function CanonicalBlocks(f: Function): seq<Block> {
    OrderIsKnown(f);
    seq(|Order(f)|, i requires 0 <= i < |Order(f)| => Renumbered(Order(f), i, RecordOf(f, Order(f)[i])))
  }

  function CanonicalFunction(f: Function): Function {
    f.(entry := 0, blocks := CanonicalBlocks(f))
  }

  /** Reorder the reachable blocks in place and number them from zero. */
  method CanonicalizeBlocks(f: Function) returns (r: Function)
    ensures r == CanonicalFunction(f)
  {
    hide Walk, Numbering, FirstIndex;
    var order, renumbered := NumberBlocks(ExitMap(f), f.entry);
    OrderIsKnown(f);
    var blocks: seq<Block> := [];
    for i := 0 to |order|
      invariant |blocks| == i
      invariant forall k :: 0 <= k < i ==> blocks[k] == CanonicalBlocks(f)[k]
    {
      assert order[i] in order;
      var block := RecordOf(f, order[i]);
      var t := block.terminator;
      if t.kind == Branch {
        t := t.(falseTarget := FindTarget(order, renumbered, t.falseTarget));
      }
      if t.kind == Branch || t.kind == Jump {
        t := t.(trueTarget := FindTarget(order, renumbered, t.trueTarget));
      }
      blocks := blocks + [Block(i, block.instructions, t)];
    }
    assert blocks == CanonicalBlocks(f);
    r := f.(entry := 0, blocks := blocks);
  }

  /** The number of a target; a dangling one stays apart from every block. */
  function FindTarget(ghost order: seq<BlockId>, renumbered: map<BlockId, nat>, t: BlockId): (r: nat)
    requires Distinct(order) && renumbered.Keys == Elements(order)
    requires forall i :: 0 <= i < |order| ==> order[i] in renumbered && renumbered[order[i]] == i
    ensures r == Target(order, t)
  {
    assert t in renumbered <==> t in order;
    if t in renumbered then renumbered[t] else DANGLING
  }

  // ---------------------------------------------------------------------------
  // The canonical form of a module

  function Rename(names: Names): Change {
    s => Renamed(names, s)
  }

  function WithCanonicalBlocks(x: Module): Module {
    Module(x.header, seq(|x.functions|, i requires 0 <= i < |x.functions| => CanonicalFunction(x.functions[i])))
  }

  function Canonicalize(x: Module): Module {
    var blocks := WithCanonicalBlocks(x);
    ModuleChanged(Rename(NamesOf(ModulePlaces(blocks))), blocks)
  }

  // ---------------------------------------------------------------------------
  // Equivalence

  /** A block without its identity and the targets it uses. */
  function Core(b: Block): Block {
    var t := b.terminator;
    Block(0, b.instructions, match t.kind
      case Jump => t.(trueTarget := 0)
      case Branch => t.(trueTarget := 0, falseTarget := 0)
      case Return => t
      case Unreachable => t)
  }

  ghost predicate BlocksAlike(sigma: map<nat, nat>, b: Block, c: Block) {
    Alike(BlockPlaces, BlockChanged, sigma, Core(b), Core(c))
  }

  ghost predicate ParametersAlike(sigma: map<nat, nat>, s: seq<Parameter>, t: seq<Parameter>) {
    |s| == |t| && forall i :: 0 <= i < |s| ==> Alike(ParameterPlaces, ParameterChanged, sigma, s[i], t[i])
  }

  /** A bijection of the reachable blocks that keeps the entry and every edge in its role, and
      pairs blocks that are the same but for symbols. */
  ghost predicate BodiesAlike(sigma: map<nat, nat>, f: Function, g: Function, phi: map<BlockId, BlockId>) {
    && Isomorphism(ExitMap(f), f.entry, ExitMap(g), g.entry, phi)
    && (forall b :: b in phi ==>
          b in Ids(f) && phi[b] in Ids(g) && BlocksAlike(sigma, RecordOf(f, b), RecordOf(g, phi[b])))
  }

  ghost predicate FunctionsAlike(sigma: map<nat, nat>, f: Function, g: Function) {
    && SameSymbol(sigma, f.symbol, g.symbol)
    && ParametersAlike(sigma, f.parameters, g.parameters)
    && f.shape == g.shape
    && exists phi :: BodiesAlike(sigma, f, g, phi)
  }

  /** The symbols of the code that can run, in the order in which they are named. */
  function RunningPlaces(x: Module): Places {
    ModulePlaces(WithCanonicalBlocks(x))
  }

  /** Under one correspondence, the modules are the same but for blocks and symbols. */
  ghost predicate EquivalentUnder(sigma: map<nat, nat>, x: Module, y: Module) {
    && x.header == y.header && |x.functions| == |y.functions|
    && forall i :: 0 <= i < |x.functions| ==> FunctionsAlike(sigma, x.functions[i], y.functions[i])
  }

  /** The same module but for a one-to-one change of generated symbols that keeps the kind of each
      where it is used first, an isomorphism of the blocks of each function, and unreachable blocks. */
  ghost predicate Equivalent(x: Module, y: Module) {
    && FirstKindsAgree(RunningPlaces(x), RunningPlaces(y))
    && exists sigma :: OneToOne(sigma) && EquivalentUnder(sigma, x, y)
  }

  /** The same with the kind of each generated symbol kept wherever it is used. */
  ghost predicate EquivalentKeepingKinds(x: Module, y: Module) {
    KindsAgree(RunningPlaces(x), RunningPlaces(y)) && exists sigma :: OneToOne(sigma) && EquivalentUnder(sigma, x, y)
  }

  /** Block numbers fit their type. */
  ghost predicate Numbered(x: Module) {
    forall i :: 0 <= i < |x.functions| ==> |Order(x.functions[i])| <= DANGLING
  }

  // ---------------------------------------------------------------------------
  // Blocks

  lemma CoreKeepsPlaces(order: seq<BlockId>, i: nat, b: Block)
    ensures BlockPlaces(Renumbered(order, i, b)) == BlockPlaces(Core(b)) == BlockPlaces(b)
  {
  }

  lemma RenumberedAlike(sigma: map<nat, nat>, order: seq<BlockId>, order': seq<BlockId>, i: nat, b: Block, c: Block)
    ensures Alike(BlockPlaces, BlockChanged, sigma, Renumbered(order, i, b), Renumbered(order', i, c)) <==>
      BlocksAlike(sigma, b, c) && TargetList(order, Successors(b.terminator))
          == TargetList(order', Successors(c.terminator))
  {
    CoreKeepsPlaces(order, i, b);
    CoreKeepsPlaces(order', i, c);
    hide Related, BlockPlaces;
    RenumberedBlanksAlike(order, order', i, b, c);
  }

  lemma RenumberedBlanksAlike(order: seq<BlockId>, order': seq<BlockId>, i: nat, b: Block, c: Block)
    ensures BlockChanged(Blank(), Renumbered(order, i, b)) == BlockChanged(Blank(), Renumbered(order', i, c)) <==>
      BlockChanged(Blank(), Core(b)) == BlockChanged(Blank(), Core(c))
      && TargetList(order, Successors(b.terminator)) == TargetList(order', Successors(c.terminator))
  {
    hide Each, AtomChanged, Target;
    var u, v := TargetList(order, Successors(b.terminator)), TargetList(order', Successors(c.terminator));
    var s, t := BlockChanged(Blank(), Renumbered(order, i, b)).terminator,
        BlockChanged(Blank(), Renumbered(order', i, c)).terminator;
    assert s.kind == b.terminator.kind && t.kind == c.terminator.kind;
    if s.kind == t.kind {
      assert |u| == |v|;
      match s.kind
      case Jump => assert u == [s.trueTarget] && v == [t.trueTarget];
      case Branch => assert u == [s.trueTarget, s.falseTarget] && v == [t.trueTarget, t.falseTarget];
        TwoEqual(s.trueTarget, s.falseTarget, t.trueTarget, t.falseTarget);
      case Return => assert u == [] && v == [];
      case Unreachable => assert u == [] && v == [];
    }
  }

  lemma TwoEqual(a: nat, b: nat, c: nat, d: nat)
    ensures [a, b] == [c, d] <==> a == c && b == d
  {
    if [a, b] == [c, d] {
      assert [a, b][0] == [c, d][0] && [a, b][1] == [c, d][1];
    }
  }

  /** The canonical blocks of two functions correspond one by one. */
  ghost predicate CanonicalAlike(sigma: map<nat, nat>, f: Function, g: Function) {
    && |CanonicalBlocks(f)| == |CanonicalBlocks(g)|
    && forall i :: 0 <= i < |CanonicalBlocks(f)| ==>
         Alike(BlockPlaces, BlockChanged, sigma, CanonicalBlocks(f)[i], CanonicalBlocks(g)[i])
  }

  lemma CanonicalAlikeParts(sigma: map<nat, nat>, f: Function, g: Function)
    ensures CanonicalAlike(sigma, f, g) <==>
      && CanonicalExits(ExitMap(f), Order(f)) == CanonicalExits(ExitMap(g), Order(g))
      && |Order(f)| == |Order(g)|
      && forall i :: 0 <= i < |Order(f)| ==>
           Order(f)[i] in Ids(f) && Order(g)[i] in Ids(g)
               && BlocksAlike(sigma, RecordOf(f, Order(f)[i]), RecordOf(g, Order(g)[i]))
  {
    OrderIsKnown(f);
    OrderIsKnown(g);
    hide Alike, BlocksAlike, Order, Renumbered, TargetList, FirstIndex;
    var s, t := Order(f), Order(g);
    var u, v := CanonicalExits(ExitMap(f), s), CanonicalExits(ExitMap(g), t);
    if |s| == |t| {
      forall i | 0 <= i < |s|
        ensures s[i] in Ids(f) && t[i] in Ids(g)
        ensures Alike(BlockPlaces, BlockChanged, sigma, CanonicalBlocks(f)[i], CanonicalBlocks(g)[i]) <==>
          BlocksAlike(sigma, RecordOf(f, s[i]), RecordOf(g, t[i])) && u[i] == v[i]
      {
        assert s[i] in s && t[i] in t;
        RenumberedAlike(sigma, s, t, i, RecordOf(f, s[i]), RecordOf(g, t[i]));
      }
    }
  }

  /** Canonical blocks correspond exactly when some isomorphism pairs blocks that do. */
  lemma CanonicalAlikeIffBodiesAlike(sigma: map<nat, nat>, f: Function, g: Function)
    requires |Order(f)| <= DANGLING
    ensures CanonicalAlike(sigma, f, g) <==> exists phi :: BodiesAlike(sigma, f, g, phi)
  {
    hide CanonicalAlike, BodiesAlike, CanonicalExits, Isomorphism, ExitMap;
    CanonicalAlikeParts(sigma, f, g);
    if CanonicalAlike(sigma, f, g) {
      AlikeGivesBodies(sigma, f, g);
    }
    if phi :| BodiesAlike(sigma, f, g, phi) {
      BodiesGiveAlike(sigma, f, g, phi);
    }
  }

  lemma AlikeGivesBodies(sigma: map<nat, nat>, f: Function, g: Function)
    requires |Order(f)| <= DANGLING && CanonicalAlike(sigma, f, g)
    ensures |Order(f)| == |Order(g)| && BodiesAlike(sigma, f, g, Pairing(Order(f), Order(g)))
  {
    hide CanonicalAlike, CanonicalExits, Isomorphism, BlocksAlike, Numbering, FirstIndex;
    CanonicalAlikeParts(sigma, f, g);
    EqualExitsPair(ExitMap(f), f.entry, ExitMap(g), g.entry);
    var phi := Pairing(Order(f), Order(g));
    forall b | b in phi
      ensures b in Ids(f) && phi[b] in Ids(g) && BlocksAlike(sigma, RecordOf(f, b), RecordOf(g, phi[b]))
    {
      assert b in Order(f);
      var i := FirstIndex(Order(f), b);
      assert Order(f)[i] == b && phi[b] == Order(g)[i];
    }
  }

  lemma BodiesGiveAlike(sigma: map<nat, nat>, f: Function, g: Function, phi: map<BlockId, BlockId>)
    requires BodiesAlike(sigma, f, g, phi)
    ensures CanonicalAlike(sigma, f, g)
  {
    hide CanonicalAlike, CanonicalExits, BlocksAlike, Numbering, Isomorphism, FirstIndex;
    IsomorphismKeepsNumbering(ExitMap(f), f.entry, ExitMap(g), g.entry, phi);
    IsomorphicExits(ExitMap(f), f.entry, ExitMap(g), g.entry, phi);
    assert Order(g) == Image(phi, Order(f));
    forall i | 0 <= i < |Order(f)|
      ensures Order(f)[i] in Ids(f) && Order(g)[i] in Ids(g)
      ensures BlocksAlike(sigma, RecordOf(f, Order(f)[i]), RecordOf(g, Order(g)[i]))
    {
      assert Order(f)[i] in Order(f);
      assert Order(f)[i] in phi && phi[Order(f)[i]] == Order(g)[i];
    }
    CanonicalAlikeParts(sigma, f, g);
  }

  // ---------------------------------------------------------------------------
  // Functions and modules

  lemma CanonicalFunctionsAlike(sigma: map<nat, nat>, f: Function, g: Function)
    requires |Order(f)| <= DANGLING
    ensures Alike(FunctionPlaces, FunctionChanged, sigma, CanonicalFunction(f), CanonicalFunction(g))
      <==> FunctionsAlike(sigma, f, g)
  {
    CanonicalAlikeIffBodiesAlike(sigma, f, g);
    ParametersLawful();
    BlocksLawful();
    hide Lawful, BodiesAlike, Order, SameSymbol, CanonicalBlocks;
    ListsAlike(ParameterPlaces, ParameterChanged, sigma, f.parameters, g.parameters);
    ListsAlike(BlockPlaces, BlockChanged, sigma, CanonicalBlocks(f), CanonicalBlocks(g));
    PartsAlike(sigma, CanonicalFunction(f), CanonicalFunction(g));
  }

  lemma PartsAlike(sigma: map<nat, nat>, f: Function, g: Function)
    requires f.entry == g.entry
    ensures Alike(FunctionPlaces, FunctionChanged, sigma, f, g) <==>
      && SameSymbol(sigma, f.symbol, g.symbol) && f.shape == g.shape
      && Each(Blank(), ParameterChanged, f.parameters) == Each(Blank(), ParameterChanged, g.parameters)
      && Related(sigma, Flat(ParameterPlaces, f.parameters), Flat(ParameterPlaces, g.parameters))
      && Each(Blank(), BlockChanged, f.blocks) == Each(Blank(), BlockChanged, g.blocks)
      && Related(sigma, Flat(BlockPlaces, f.blocks), Flat(BlockPlaces, g.blocks))
  {
    ParametersLawful();
    hide Lawful, Each, Flat, SameSymbol;
    var p, q := Flat(ParameterPlaces, f.parameters), Flat(ParameterPlaces, g.parameters);
    var u, v := Flat(BlockPlaces, f.blocks), Flat(BlockPlaces, g.blocks);
    if Each(Blank(), ParameterChanged, f.parameters) == Each(Blank(), ParameterChanged, g.parameters) {
      FlatCount(ParameterPlaces, ParameterChanged, f.parameters, g.parameters);
      RelatedSplit(sigma, p, u, q, v);
      RelatedSplit(sigma, [f.symbol], p + u, [g.symbol], q + v);
      OneRelated(sigma, f.symbol, g.symbol);
    }
  }

  lemma OneRelated(sigma: map<nat, nat>, s: SymbolName, t: SymbolName)
    ensures Related(sigma, [s], [t]) <==> SameSymbol(sigma, s, t)
  {
    hide SameSymbol;
    if Related(sigma, [s], [t]) {
      assert SameSymbol(sigma, [s][0], [t][0]);
    }
  }

  lemma ModulesAlike(sigma: map<nat, nat>, x: Module, y: Module)
    requires forall i :: 0 <= i < |x.functions| ==> |Order(x.functions[i])| <= DANGLING
    ensures Alike(ModulePlaces, ModuleChanged, sigma, WithCanonicalBlocks(x), WithCanonicalBlocks(y)) <==>
      && x.header == y.header && |x.functions| == |y.functions|
      && forall i :: 0 <= i < |x.functions| ==> FunctionsAlike(sigma, x.functions[i], y.functions[i])
  {
    FunctionsLawful();
    hide Lawful, FunctionsAlike, FunctionPlaces, FunctionChanged, Order, CanonicalFunction, Flat, Each, Related;
    var s, t := WithCanonicalBlocks(x).functions, WithCanonicalBlocks(y).functions;
    ListsAlike(FunctionPlaces, FunctionChanged, sigma, s, t);
    if |s| == |t| {
      forall i | 0 <= i < |s|
        ensures Alike(FunctionPlaces, FunctionChanged, sigma, s[i], t[i])
          <==> FunctionsAlike(sigma, x.functions[i], y.functions[i])
      {
        CanonicalFunctionsAlike(sigma, x.functions[i], y.functions[i]);
      }
    }
  }

  lemma RenameIsChange(names: Names, list: Places)
    ensures AllChanged(Rename(names), list) == RenamedAll(names, list)
  {
  }

  /** Equal canonical forms: equal but for symbols, and equal renamed symbols. */
  lemma CanonicalFormsEqual(x: Module, y: Module)
    ensures
      var p, q := ModulePlaces(x), ModulePlaces(y);
      ModuleChanged(Rename(NamesOf(p)), x) == ModuleChanged(Rename(NamesOf(q)), y) <==>
        ModuleChanged(Blank(), x) == ModuleChanged(Blank(), y) && RenamedAll(NamesOf(p), p) == RenamedAll(NamesOf(q), q)
  {
    ModulesLawful();
    hide ModulePlaces, ModuleChanged, NamesOf, Rename, RenamedAll, AllChanged, Blank;
    var p, q := ModulePlaces(x), ModulePlaces(y);
    var m, n := Rename(NamesOf(p)), Rename(NamesOf(q));
    RenameIsChange(NamesOf(p), p);
    RenameIsChange(NamesOf(q), q);
    assert ModulePlaces(ModuleChanged(m, x)) == AllChanged(m, p);
    assert ModulePlaces(ModuleChanged(n, y)) == AllChanged(n, q);
    assert ModuleChanged(Blank(), ModuleChanged(m, x)) == ModuleChanged(Blank(), x);
    assert ModuleChanged(Blank(), ModuleChanged(n, y)) == ModuleChanged(Blank(), y);
  }

  /** The check finds no difference exactly when the modules are equivalent. */
  lemma NoDifferenceIffEquivalent(x: Module, y: Module)
    requires Numbered(x)
    ensures Canonicalize(x) == Canonicalize(y) <==> Equivalent(x, y)
  {
    hide Canonicalize, RunningPlaces, OneToOne, FirstKindsAgree, EquivalentUnder;
    if Canonicalize(x) == Canonicalize(y) {
      EqualIsEquivalent(x, y);
    }
    if Equivalent(x, y) {
      var sigma :| OneToOne(sigma) && EquivalentUnder(sigma, x, y);
      EquivalentIsEqual(x, y, sigma);
    }
  }

  lemma EqualIsEquivalent(x: Module, y: Module)
    requires Numbered(x) && Canonicalize(x) == Canonicalize(y)
    ensures FirstKindsAgree(RunningPlaces(x), RunningPlaces(y))
    ensures exists sigma :: OneToOne(sigma) && EquivalentUnder(sigma, x, y)
  {
    hide WithCanonicalBlocks, ModulePlaces, ModuleChanged, NamesOf, RenamedAll, OneToOne, Related, FirstKindsAgree,
        Order, FunctionsAlike;
    var u, v := WithCanonicalBlocks(x), WithCanonicalBlocks(y);
    CanonicalFormsEqual(u, v);
    RenamingDecidesCorrespondence(ModulePlaces(u), ModulePlaces(v));
    var sigma :| OneToOne(sigma) && Related(sigma, ModulePlaces(u), ModulePlaces(v));
    ModulesAlike(sigma, x, y);
    assert EquivalentUnder(sigma, x, y);
  }

  lemma EquivalentIsEqual(x: Module, y: Module, sigma: map<nat, nat>)
    requires Numbered(x) && OneToOne(sigma) && EquivalentUnder(sigma, x, y)
    requires FirstKindsAgree(RunningPlaces(x), RunningPlaces(y))
    ensures Canonicalize(x) == Canonicalize(y)
  {
    hide WithCanonicalBlocks, ModulePlaces, ModuleChanged, NamesOf, RenamedAll, OneToOne, Related, FirstKindsAgree,
        Order, FunctionsAlike;
    var u, v := WithCanonicalBlocks(x), WithCanonicalBlocks(y);
    ModulesAlike(sigma, x, y);
    CanonicalFormsEqual(u, v);
    RenamingDecidesCorrespondence(ModulePlaces(u), ModulePlaces(v));
  }

  /** Where one generated identity always has one kind, the check also decides equivalence that keeps
      the kind of every use. */
  lemma NoDifferenceIffKindsKept(x: Module, y: Module)
    requires Numbered(x) && WellSpelled(RunningPlaces(x)) && WellSpelled(RunningPlaces(y))
    ensures Canonicalize(x) == Canonicalize(y) <==> EquivalentKeepingKinds(x, y)
  {
    hide Canonicalize, RunningPlaces, OneToOne, FirstKindsAgree, KindsAgree, EquivalentUnder, WellSpelled;
    NoDifferenceIffEquivalent(x, y);
    if sigma :| OneToOne(sigma) && EquivalentUnder(sigma, x, y) {
      PlacesRelated(x, y, sigma);
      FirstKindsAreAllKinds(sigma, RunningPlaces(x), RunningPlaces(y));
    }
  }

  lemma PlacesRelated(x: Module, y: Module, sigma: map<nat, nat>)
    requires Numbered(x) && EquivalentUnder(sigma, x, y)
    ensures Related(sigma, RunningPlaces(x), RunningPlaces(y))
  {
    hide WithCanonicalBlocks, ModulePlaces, ModuleChanged, Related, Order, FunctionsAlike;
    ModulesAlike(sigma, x, y);
  }

  // ---------------------------------------------------------------------------
  // The canonical form is equivalent to the module and canonical itself

  /** Each reachable block goes to its number. */
  function Renumbering(order: seq<BlockId>): (phi: map<BlockId, BlockId>)
    ensures phi.Keys == Elements(order)
  {
    map b | b in order :: FirstIndex(order, b)
  }

  lemma CanonicalExitMap(f: Function, b: BlockId)
    requires b in Order(f)
    ensures FirstIndex(Order(f), b) in Ids(CanonicalFunction(f))
    ensures RecordOf(CanonicalFunction(f), FirstIndex(Order(f), b)) == CanonicalBlocks(f)[FirstIndex(Order(f), b)]
  {
    hide Order;
    var i := FirstIndex(Order(f), b);
    var ids := Ids(CanonicalFunction(f));
    assert |ids| == |CanonicalBlocks(f)| == |Order(f)|;
    assert forall k :: 0 <= k < |ids| ==> ids[k] == k;
    assert ids[i] == i;
    assert FirstIndex(ids, i) == i;
  }

  lemma CanonicalIds(f: Function, t: BlockId)
    ensures t in Ids(CanonicalFunction(f)) <==> t < |Order(f)|
  {
    hide Order;
    var ids := Ids(CanonicalFunction(f));
    assert |ids| == |CanonicalBlocks(f)| == |Order(f)|;
    assert forall k :: 0 <= k < |ids| ==> ids[k] == k;
    if t < |Order(f)| {
      assert ids[t] == t;
    }
  }

  lemma TargetCorresponds(f: Function, t: BlockId)
    requires |Order(f)| <= DANGLING && (t in Ids(f) <==> t in Order(f))
    ensures Corresponds(ExitMap(f), ExitMap(CanonicalFunction(f)), Renumbering(Order(f)), t, Target(Order(f), t))
  {
    hide Order, CanonicalFunction;
    CanonicalIds(f, Target(Order(f), t));
  }

  lemma ExitsCorrespond(f: Function, b: BlockId)
    requires |Order(f)| <= DANGLING && b in Order(f)
    ensures
      var e, c, phi := ExitMap(f), ExitMap(CanonicalFunction(f)), Renumbering(Order(f));
      b in e && AllCorrespond(e, c, phi, Targets(e, b), Targets(c, phi[b]))
  {
    OrderIsKnown(f);
    ExitsAre(f, b);
    hide Order, Corresponds, Renumbering, CanonicalFunction, ExitMap;
    var e, c, phi := ExitMap(f), ExitMap(CanonicalFunction(f)), Renumbering(Order(f));
    var s := Targets(e, b);
    forall k | 0 <= k < |s|
      ensures Corresponds(e, c, phi, s[k], Target(Order(f), s[k]))
    {
      KnownIsNumbered(f, b, s[k]);
      TargetCorresponds(f, s[k]);
    }
  }

  lemma ExitsAre(f: Function, b: BlockId)
    requires b in Order(f)
    ensures b in ExitMap(f) && b in Renumbering(Order(f))
    ensures Targets(ExitMap(CanonicalFunction(f)), Renumbering(Order(f))[b])
      == TargetList(Order(f), Targets(ExitMap(f), b))
  {
    OrderIsKnown(f);
    CanonicalExitMap(f, b);
    hide Order, FirstIndex, CanonicalFunction, Retargeted;
    var i := Renumbering(Order(f))[b];
    assert Targets(ExitMap(f), b) == Successors(RecordOf(f, b).terminator);
    assert Targets(ExitMap(CanonicalFunction(f)), i) == Successors(Retargeted(Order(f), RecordOf(f, b).terminator));
    RetargetedSuccessors(Order(f), RecordOf(f, b).terminator);
  }

  lemma RetargetedSuccessors(order: seq<BlockId>, t: Terminator)
    ensures Successors(Retargeted(order, t)) == TargetList(order, Successors(t))
  {
    hide Target;
  }

  lemma KnownIsNumbered(f: Function, b: BlockId, t: BlockId)
    requires b in Order(f) && t in Targets(ExitMap(f), b)
    ensures t in Ids(f) <==> t in Order(f)
  {
    hide Walk;
    TargetIsNumbered(ExitMap(f), f.entry, b, t);
    assert t in ExitMap(f) <==> t in Ids(f);
  }

  lemma RenumberingIsInjective(order: seq<BlockId>)
    ensures Injective(Renumbering(order))
  {
    var phi := Renumbering(order);
    forall a, b | a in phi && b in phi && phi[a] == phi[b]
      ensures a == b
    {
      assert order[phi[a]] == a && order[phi[b]] == b;
    }
  }

  /** Renumbering is an isomorphism onto the canonical blocks. */
  lemma RenumberingIsIsomorphism(f: Function)
    requires |Order(f)| <= DANGLING
    ensures Isomorphism(ExitMap(f), f.entry, ExitMap(CanonicalFunction(f)), 0, Renumbering(Order(f)))
  {
    var e, c, phi := ExitMap(f), ExitMap(CanonicalFunction(f)), Renumbering(Order(f));
    OrderIsKnown(f);
    RenumberingIsInjective(Order(f));
    EntryCorresponds(f);
    hide Numbering, FirstIndex, CanonicalFunction, Injective;
    forall b | b in phi
      ensures b in e && AllCorrespond(e, c, phi, Targets(e, b), Targets(c, phi[b]))
    {
      assert b in Order(f);
      ExitsCorrespond(f, b);
    }
    NumberingIsImage(e, f.entry, c, 0, phi);
    ImageIsValues(phi, Order(f));
  }

  lemma ImageIsValues(phi: map<BlockId, BlockId>, order: seq<BlockId>)
    requires phi.Keys == Elements(order) && forall x :: x in order ==> x in phi
    ensures phi.Values == Elements(Image(phi, order))
  {
    forall y
      ensures y in phi.Values <==> y in Image(phi, order)
    {
      ImageHolds(phi, order, y);
    }
  }

  lemma NumberingIsImage(e: EdgeMap, a: BlockId, c: EdgeMap, b: BlockId, phi: map<BlockId, BlockId>)
    requires Injective(phi) && Corresponds(e, c, phi, a, b)
    requires forall x :: x in phi ==> x in e && AllCorrespond(e, c, phi, Targets(e, x), Targets(c, phi[x]))
    ensures (forall x :: x in Numbering(e, a) ==> x in phi) && Numbering(c, b) == Image(phi, Numbering(e, a))
  {
    WalksInStep(e, c, phi, [a], [], [b], []);
  }

  lemma ImageHolds(phi: map<BlockId, BlockId>, order: seq<BlockId>, y: BlockId)
    requires phi.Keys == Elements(order)
    ensures y in phi.Values <==> y in Image(phi, order)
  {
    if y in phi.Values {
      var x :| x in phi && phi[x] == y;
      assert x in order;
      var i :| 0 <= i < |order| && order[i] == x;
      assert Image(phi, order)[i] == y;
    }
    if y in Image(phi, order) {
      var i :| 0 <= i < |order| && Image(phi, order)[i] == y;
      assert order[i] in Elements(order);
    }
  }

  lemma EntryCorresponds(f: Function)
    requires |Order(f)| <= DANGLING
    ensures Corresponds(ExitMap(f), ExitMap(CanonicalFunction(f)), Renumbering(Order(f)), f.entry, 0)
  {
    OrderIsKnown(f);
    EntryIsFirst(ExitMap(f), f.entry);
    CanonicalIds(f, 0);
    hide Numbering, CanonicalFunction;
  }

  /** The symbols before and after the renaming correspond. */
  function Renaming(names: Names): map<nat, nat> {
    map id | id in names :: names[id].id
  }

  lemma RenamedCorrespond(list: Places)
    ensures OneToOne(Renaming(NamesOf(list))) && Related(Renaming(NamesOf(list)), list, RenamedAll(NamesOf(list), list))
  {
    NamesAreCanonical(list);
    hide NamesOf;
    var names := NamesOf(list);
    forall i | 0 <= i < |list|
      ensures SameSymbol(Renaming(names), list[i], Renamed(names, list[i]))
    {
      RenamedIsGenerated(list, i);
    }
  }

  lemma RenamedKeepsFirstKinds(list: Places)
    ensures FirstKindsAgree(list, RenamedAll(NamesOf(list), list))
  {
    hide NamesOf;
    forall i: nat | IsFirst(list, i)
      ensures WithoutDigits(list[i].spelling) == WithoutDigits(RenamedAll(NamesOf(list), list)[i].spelling)
    {
      NamedAtFirst(list, i);
      KindIsKind(list[i].spelling);
    }
  }

  lemma {:induction false} KindIsKind(spelling: string)
    ensures WithoutDigits(WithoutDigits(spelling)) == WithoutDigits(spelling)
  {
    if spelling != "" && '0' <= spelling[|spelling| - 1] <= '9' {
      KindIsKind(spelling[..|spelling| - 1]);
    }
  }

  lemma RenamedIsWellSpelled(list: Places)
    ensures WellSpelled(RenamedAll(NamesOf(list), list))
  {
    NamesAreCanonical(list);
    hide NamesOf;
    var names, r := NamesOf(list), RenamedAll(NamesOf(list), list);
    forall i, j | 0 <= i < |r| && 0 <= j < |r| && IsGenerated(r[i]) && IsGenerated(r[j]) && r[i].id == r[j].id
      ensures WithoutDigits(r[i].spelling) == WithoutDigits(r[j].spelling)
    {
      RenamedIsGenerated(list, i);
      RenamedIsGenerated(list, j);
      assert r[i] == names[list[i].id] && r[j] == names[list[j].id];
    }
  }

  lemma {:induction false} EachAt<T>(m: Change, changed: (Change, T) -> T, s: seq<T>, i: nat)
    requires i < |s|
    ensures Each(m, changed, s)[i] == changed(m, s[i])
  {
    if i > 0 {
      EachAt(m, changed, s[1..], i - 1);
    }
  }

  lemma ChangedKeepsExits(m: Change, f: Function)
    ensures Ids(FunctionChanged(m, f)) == Ids(f) && ExitMap(FunctionChanged(m, f)) == ExitMap(f)
    ensures Order(FunctionChanged(m, f)) == Order(f)
  {
    hide Numbering, InstructionChanged, AtomChanged;
    var g := FunctionChanged(m, f);
    forall i | 0 <= i < |f.blocks|
      ensures g.blocks[i] == BlockChanged(m, f.blocks[i])
    {
      EachAt(m, BlockChanged, f.blocks, i);
    }
    assert Ids(g) == Ids(f);
    assert ExitMap(g) == ExitMap(f);
  }

  /** A canonical function is numbered as it stands. */
  lemma CanonicalOrder(f: Function)
    requires |Order(f)| <= DANGLING
    ensures Order(CanonicalFunction(f)) == seq(|Order(f)|, i => i)
  {
    var e, c, phi := ExitMap(f), ExitMap(CanonicalFunction(f)), Renumbering(Order(f));
    OrderIsKnown(f);
    RenumberingIsInjective(Order(f));
    EntryCorresponds(f);
    hide Numbering, FirstIndex, CanonicalFunction, Injective;
    forall b | b in phi
      ensures b in e && AllCorrespond(e, c, phi, Targets(e, b), Targets(c, phi[b]))
    {
      assert b in Order(f);
      ExitsCorrespond(f, b);
    }
    NumberingIsImage(e, f.entry, c, 0, phi);
    hide ExitMap, Renumbering;
    NumbersAreImage(Order(f));
  }

  lemma NumbersAreImage(order: seq<BlockId>)
    requires Distinct(order)
    ensures Image(Renumbering(order), order) == seq(|order|, i => i)
  {
    hide FirstIndex;
    forall i | 0 <= i < |order|
      ensures Image(Renumbering(order), order)[i] == i
    {
      FirstOfDistinct(order, i);
    }
  }

  lemma FirstOfDistinct(order: seq<BlockId>, i: nat)
    requires Distinct(order) && i < |order|
    ensures order[i] in order && FirstIndex(order, order[i]) == i
  {
    assert order[i] !in order[..i];
    FirstIndexIs(order, i);
  }

  lemma TargetStays(n: nat, t: BlockId)
    requires n <= DANGLING && (t < n || t == DANGLING)
    ensures Target(seq(n, i => i), t) == t
  {
    var order := seq(n, i => i);
    if t < n {
      assert order[t] == t;
    }
  }

  /** A block with canonical targets stays the same at its own number. */
  lemma BlockIsFixed(order: seq<BlockId>, i: nat, b: Block, m: Change)
    requires |order| <= DANGLING
    ensures
      var c := BlockChanged(m, Renumbered(order, i, b));
      Renumbered(seq(|order|, k => k), i, c) == c
  {
    hide Each, AtomChanged;
    TargetStays(|order|, Target(order, b.terminator.trueTarget));
    TargetStays(|order|, Target(order, b.terminator.falseTarget));
    hide Target;
  }

  /** Canonical blocks stay as they are, whatever their symbols become. */
  lemma CanonicalIsFixed(f: Function, m: Change)
    requires |Order(f)| <= DANGLING
    ensures
      var c := FunctionChanged(m, CanonicalFunction(f));
      CanonicalFunction(c) == c && |Order(c)| == |Order(f)|
  {
    var g := CanonicalFunction(f);
    var c := FunctionChanged(m, g);
    CanonicalOrder(f);
    ChangedKeepsExits(m, g);
    OrderIsKnown(f);
    hide Order, Numbering, BlockChanged, Renumbered, FirstIndex;
    assert |CanonicalBlocks(c)| == |c.blocks| == |Order(f)|;
    forall i | 0 <= i < |c.blocks|
      ensures CanonicalBlocks(c)[i] == c.blocks[i]
    {
      EachAt(m, BlockChanged, g.blocks, i);
      FixedAt(f, m, i);
    }
    assert CanonicalBlocks(c) == c.blocks;
  }

  lemma FixedAt(f: Function, m: Change, i: nat)
    requires |Order(f)| <= DANGLING && i < |Order(f)|
    ensures
      var c := FunctionChanged(m, CanonicalFunction(f));
      i < |c.blocks| && i < |CanonicalBlocks(c)| && CanonicalBlocks(c)[i] == c.blocks[i]
  {
    var g := CanonicalFunction(f);
    var c := FunctionChanged(m, g);
    CanonicalOrder(f);
    ChangedKeepsExits(m, g);
    OrderIsKnown(f);
    hide Order, Numbering, InstructionChanged, AtomChanged, Retargeted, FirstIndex;
    forall k | 0 <= k < |c.blocks|
      ensures c.blocks[k] == BlockChanged(m, g.blocks[k]) && c.blocks[k].id == k
    {
      EachAt(m, BlockChanged, g.blocks, k);
    }
    NumberedInPlace(c, i);
    assert Order(f)[i] in Order(f);
    BlockIsFixed(Order(f), i, RecordOf(f, Order(f)[i]), m);
    hide BlockChanged, Renumbered;
    assert Order(c)[i] == i;
  }

  lemma NumberedInPlace(c: Function, i: nat)
    requires i < |c.blocks| && forall k :: 0 <= k < |c.blocks| ==> c.blocks[k].id == k
    ensures i in Ids(c) && RecordOf(c, i) == c.blocks[i]
  {
    var ids := Ids(c);
    assert ids[i] == i;
    assert ids[FirstIndex(ids, i)] == i;
  }

  /** The canonical form is well spelled, equivalent to the module, and its own canonical form. */
  lemma CanonicalFormIsCanonical(x: Module)
    requires Numbered(x)
    ensures Numbered(Canonicalize(x)) && WellSpelled(RunningPlaces(Canonicalize(x))) && Equivalent(x, Canonicalize(x))
    ensures Canonicalize(Canonicalize(x)) == Canonicalize(x)
  {
    var u, c := WithCanonicalBlocks(x), Canonicalize(x);
    var p := ModulePlaces(u);
    CanonicalModuleIsFixed(x);
    RenamedCorrespond(p);
    RenamedIsWellSpelled(p);
    RenamedKeepsFirstKinds(p);
    ModulesLawful();
    RenameIsChange(NamesOf(p), p);
    hide ModulePlaces, ModuleChanged, NamesOf, RenamedAll, AllChanged, Rename, OneToOne, Related, WellSpelled,
        WithCanonicalBlocks, Order,
         EquivalentUnder, Blank, FirstKindsAgree;
    assert ModulePlaces(c) == AllChanged(Rename(NamesOf(p)), p);
    ModulesAlikeUnder(x, c, Renaming(NamesOf(p)));
    NoDifferenceIffEquivalent(x, c);
  }

  lemma ModulesAlikeUnder(x: Module, y: Module, sigma: map<nat, nat>)
    requires forall i :: 0 <= i < |x.functions| ==> |Order(x.functions[i])| <= DANGLING
    requires Alike(ModulePlaces, ModuleChanged, sigma, WithCanonicalBlocks(x), WithCanonicalBlocks(y))
    ensures EquivalentUnder(sigma, x, y)
  {
    hide ModulePlaces, ModuleChanged, WithCanonicalBlocks, Order, FunctionsAlike, Related;
    ModulesAlike(sigma, x, y);
  }

  lemma CanonicalModuleIsFixed(x: Module)
    requires forall i :: 0 <= i < |x.functions| ==> |Order(x.functions[i])| <= DANGLING
    ensures
      var c := Canonicalize(x);
      && WithCanonicalBlocks(c) == c
      && forall i :: 0 <= i < |c.functions| ==> |Order(c.functions[i])| <= DANGLING
  {
    hide Order, FunctionChanged, CanonicalFunction, NamesOf, ModulePlaces, Rename;
    var u, c := WithCanonicalBlocks(x), Canonicalize(x);
    var m := Rename(NamesOf(ModulePlaces(u)));
    forall i | 0 <= i < |x.functions|
      ensures CanonicalFunction(c.functions[i]) == c.functions[i] && |Order(c.functions[i])| <= DANGLING
    {
      EachAt(m, FunctionChanged, u.functions, i);
      CanonicalIsFixed(x.functions[i], m);
    }
    assert WithCanonicalBlocks(c).functions == c.functions;
  }
}
