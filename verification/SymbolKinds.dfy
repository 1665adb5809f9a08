/** The kind of a generated symbol, told without stripping anything: what stands before its last run
    of decimal digits. And what it is for: renumbering generated symbols leaves no difference. */
module SymbolKinds {
  import opened Graphs
  import opened SymbolRenaming
  import opened CorePrepModel
  import opened CorePrepParity
  import T = TypeIdentity

  predicate IsDigit(c: char) {
    c in {'0', '1', '2', '3', '4', '5', '6', '7', '8', '9'}
  }

  /** Nothing, or something that ends in no digit. */
  predicate EndsInNoDigit(s: string) {
    s == "" || !IsDigit(s[|s| - 1])
  }

  /** The spelling is the kind and then digits alone. */
  predicate IsKindOf(kind: string, spelling: string) {
    && EndsInNoDigit(kind) && |kind| <= |spelling| && spelling[..|kind|] == kind
    && forall i :: |kind| <= i < |spelling| ==> IsDigit(spelling[i])
  }

  /** There is one kind, and it is the one the renamer uses. */
  lemma {:induction false} KindMeaning(spelling: string, kind: string)
    ensures kind == WithoutDigits(spelling) <==> IsKindOf(kind, spelling)
    decreases |spelling|
  {
    if spelling != "" && IsDigit(spelling[|spelling| - 1]) {
      var shorter := spelling[..|spelling| - 1];
      KindMeaning(shorter, kind);
      if IsKindOf(kind, spelling) {
        assert |kind| <= |shorter| && shorter[..|kind|] == kind;
      }
      if IsKindOf(kind, shorter) {
        assert spelling[..|kind|] == kind;
      }
    } else {
      assert spelling[..|spelling|] == spelling;
    }
  }

  lemma DecimalsAreDigits(c: char)
    ensures T.IsDigit(c) ==> IsDigit(c)
  {
  }

  lemma DigitsFollow(kind: string, digits: string)
    requires EndsInNoDigit(kind) && forall i :: 0 <= i < |digits| ==> T.IsDigit(digits[i])
    ensures IsKindOf(kind, kind + digits)
  {
    hide IsDigit, T.IsDigit, EndsInNoDigit;
    var spelling := kind + digits;
    forall i | |kind| <= i < |spelling|
      ensures IsDigit(spelling[i])
    {
      assert spelling[i] == digits[i - |kind|];
      DecimalsAreDigits(digits[i - |kind|]);
    }
  }

  /** A kind with any number written after it has that kind. */
  lemma NumberedKind(kind: string, n: nat)
    requires EndsInNoDigit(kind)
    ensures WithoutDigits(kind + T.Decimal(n)) == kind
  {
    hide IsDigit, T.IsDigit, WithoutDigits, EndsInNoDigit, IsKindOf;
    DigitsFollow(kind, T.Decimal(n));
    KindMeaning(kind + T.Decimal(n), kind);
  }

  /** Whatever numbers follow them, two spellings have the same kind exactly when they are the same
      before the numbers. */
  lemma SameKindIff(k: string, n: nat, l: string, m: nat)
    requires EndsInNoDigit(k) && EndsInNoDigit(l)
    ensures WithoutDigits(k + T.Decimal(n)) == WithoutDigits(l + T.Decimal(m)) <==> k == l
  {
    NumberedKind(k, n);
    NumberedKind(l, m);
  }

  // ---------------------------------------------------------------------------
  // Renumbering

  /** A source symbol stays as it is; a generated one gets the identity the correspondence gives it
      and another number. */
  ghost predicate Renumbers(sigma: map<nat, nat>, s: SymbolName, t: SymbolName) {
    if s.spelling != "" && s.spelling[0] == '$' then
      && s.id in sigma && t.id == sigma[s.id]
      && exists kind: string, n: nat, m: nat ::
           EndsInNoDigit(kind) && s.spelling == kind + T.Decimal(n) && t.spelling == kind + T.Decimal(m)
    else t == s
  }

  lemma RenumberedIsSame(sigma: map<nat, nat>, s: SymbolName, t: SymbolName)
    requires Renumbers(sigma, s, t)
    ensures SameSymbol(sigma, s, t) && WithoutDigits(s.spelling) == WithoutDigits(t.spelling)
  {
    if IsGenerated(s) {
      var kind: string, n: nat, m: nat :|
        EndsInNoDigit(kind) && s.spelling == kind + T.Decimal(n) && t.spelling == kind + T.Decimal(m);
      SameKindIff(kind, n, kind, m);
      assert T.IsDigit(T.Decimal(n)[0]) && kind != "";
      assert s.spelling[0] == kind[0] && t.spelling[0] == kind[0];
    }
  }

  lemma ChangedBlocks(m: Change, f: Function)
    ensures CanonicalFunction(FunctionChanged(m, f)) == FunctionChanged(m, CanonicalFunction(f))
  {
    var c := FunctionChanged(m, f);
    ChangedKeepsExits(m, f);
    OrderIsKnown(f);
    OrderIsKnown(c);
    hide Order, Renumbered, FirstIndex, BlockChanged;
    forall i | 0 <= i < |Order(f)|
      ensures CanonicalBlocks(c)[i] == Each(m, BlockChanged, CanonicalBlocks(f))[i]
    {
      var b := Order(f)[i];
      assert b in Order(f);
      EachAt(m, BlockChanged, CanonicalBlocks(f), i);
      ChangedRecord(m, f, b);
      ChangedRenumbered(m, Order(f), i, RecordOf(f, b));
    }
    assert CanonicalBlocks(c) == Each(m, BlockChanged, CanonicalBlocks(f));
  }

  lemma ChangedRecord(m: Change, f: Function, b: BlockId)
    requires b in Ids(f)
    ensures b in Ids(FunctionChanged(m, f)) && RecordOf(FunctionChanged(m, f), b) == BlockChanged(m, RecordOf(f, b))
  {
    ChangedKeepsExits(m, f);
    hide FirstIndex, BlockChanged;
    EachAt(m, BlockChanged, f.blocks, FirstIndex(Ids(f), b));
  }

  lemma ChangedRenumbered(m: Change, order: seq<BlockId>, i: nat, b: Block)
    ensures Renumbered(order, i, BlockChanged(m, b)) == BlockChanged(m, Renumbered(order, i, b))
  {
    hide Each, AtomChanged;
  }

  lemma ChangedModule(m: Change, x: Module)
    ensures WithCanonicalBlocks(ModuleChanged(m, x)) == ModuleChanged(m, WithCanonicalBlocks(x))
  {
    hide CanonicalFunction, FunctionChanged;
    var y := ModuleChanged(m, x);
    forall i | 0 <= i < |x.functions|
      ensures CanonicalFunction(y.functions[i]) == ModuleChanged(m, WithCanonicalBlocks(x)).functions[i]
    {
      EachAt(m, FunctionChanged, x.functions, i);
      EachAt(m, FunctionChanged, WithCanonicalBlocks(x).functions, i);
      ChangedBlocks(m, x.functions[i]);
    }
    assert WithCanonicalBlocks(y).functions == ModuleChanged(m, WithCanonicalBlocks(x)).functions;
  }

  lemma RenumberedPlaces(sigma: map<nat, nat>, m: Change, list: Places)
    requires forall s :: s in list ==> Renumbers(sigma, s, m(s))
    ensures Related(sigma, list, AllChanged(m, list)) && FirstKindsAgree(list, AllChanged(m, list))
  {
    hide Renumbers, SameSymbol, WithoutDigits;
    forall i | 0 <= i < |list|
      ensures SameSymbol(sigma, list[i], AllChanged(m, list)[i])
      ensures WithoutDigits(list[i].spelling) == WithoutDigits(AllChanged(m, list)[i].spelling)
    {
      assert list[i] in list;
      RenumberedIsSame(sigma, list[i], m(list[i]));
    }
  }

  /** Giving the generated symbols of a module other identities, one to one, and other numbers in
      their spellings leaves no difference. */
  lemma RenumberingLeavesNoDifference(x: Module, sigma: map<nat, nat>, m: Change)
    requires OneToOne(sigma) && forall s :: s in RunningPlaces(x) ==> Renumbers(sigma, s, m(s))
    ensures Canonicalize(ModuleChanged(m, x)) == Canonicalize(x)
  {
    var u, v := WithCanonicalBlocks(x), WithCanonicalBlocks(ModuleChanged(m, x));
    var p := RunningPlaces(x);
    ChangedModule(m, x);
    ModulesLawful();
    hide ModulePlaces, ModuleChanged, NamesOf, RenamedAll, AllChanged, Rename, OneToOne, Related, WithCanonicalBlocks,
        Blank, FirstKindsAgree, Renumbers;
    assert ModulePlaces(v) == AllChanged(m, p);
    assert ModuleChanged(Blank(), v) == ModuleChanged(Blank(), u);
    RenumberedPlaces(sigma, m, p);
    RenamingDecidesCorrespondence(p, AllChanged(m, p));
    CanonicalFormsEqual(u, v);
  }
}
