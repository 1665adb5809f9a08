/** Functions and modules under the judgement of the Core verifier: exactly which issues a module has,
    and what holds everywhere in a module that has none. */
module CoreModuleMeaning {
  import opened Wrappers
  import opened TypeIdentity
  import opened CoreScalars
  import opened WireLiterals
  import opened CoreVerifier
  import opened CoreVerifierMeaning
  import FallThrough

  // ---------------------------------------------------------------------------
  // Functions

  /** Every place in a function; the parameters are defined around its body. */
  function FunctionPlaces(f: Function): set<Place> {
    StatementsPlaces(f.body, ParameterDefinitions(f.parameters), f.returnType, FallThrough.OutsideLoop)
  }

  ghost predicate FunctionParameterFault(k: Surroundings, parameters: seq<Parameter>, i: nat, issue: Issue)
    requires i < |parameters|
  {
    var p := parameters[i];
    || issue in k.rules.typeIssues(1007, p.declared)
    || (p.symbol.id == 0 && issue == Issue(1006, 0))
    || (issue == Issue(1004, p.symbol.id) && exists j :: 0 <= j < i && parameters[j].symbol.id == p.symbol.id)
  }

  /** What is wrong with the head of a function, or with how its body ends. */
  ghost predicate HeadFault(k: Surroundings, f: Function, issue: Issue) {
    || (f.symbol.id == 0 && issue == Issue(1006, 0))
    || issue in k.rules.typeIssues(1003, f.returnType)
    || (exists i :: 0 <= i < |f.parameters| && FunctionParameterFault(k, f.parameters, i, issue))
    || (issue == Issue(1005, 0) && f.returnType != UNIT && !FallThrough.NeverFalls(Shapes(f.body)))
  }

  ghost predicate SeenParameters(before: seq<Parameter>, seen: set<nat>) {
    forall id: nat :: id in seen <==> exists j :: 0 <= j < |before| && before[j].symbol.id == id
  }

  lemma SeenNextParameter(before: seq<Parameter>, seen: set<nat>, p: Parameter)
    requires SeenParameters(before, seen)
    ensures SeenParameters(before + [p], seen + {p.symbol.id})
  {
    var more := before + [p];
    assert more[|before|] == p && forall j :: 0 <= j < |before| ==> more[j] == before[j];
    forall id: nat
      ensures id in seen + {p.symbol.id} <==> exists j :: 0 <= j < |more| && more[j].symbol.id == id
    {
      if j :| 0 <= j < |before| && before[j].symbol.id == id {
        assert more[j].symbol.id == id;
      }
    }
  }

  lemma FunctionParameterMeaning(k: Surroundings, before: seq<Parameter>, p: Parameter, rest: seq<Parameter>,
      seen: set<nat>, r: Report, issue: Issue)
    requires SeenParameters(before, seen)
    ensures
      var typed := CheckedType(ContextOf(k), p.declared, 1007, CheckedSymbol(p.symbol, 1006, r));
      issue in When(p.symbol.id in seen, 1004, p.symbol.id, typed) <==>
        issue in r || FunctionParameterFault(k, before + ([p] + rest), |before|, issue)
  {
    var all := before + ([p] + rest);
    assert all[|before|] == p && forall j :: 0 <= j < |before| ==> all[j] == before[j];
  }

  lemma {:induction false} FunctionParametersMeaning(k: Surroundings, before: seq<Parameter>, rest: seq<Parameter>,
      seen: set<nat>, r: Report, issue: Issue)
    requires SeenParameters(before, seen)
    ensures issue in FunctionParametersReport(ContextOf(k), rest, seen, r) <==>
      issue in r || exists i :: |before| <= i < |before + rest| && FunctionParameterFault(k, before + rest, i, issue)
    decreases |rest|
  {
    hide FunctionParameterFault, SeenParameters, CheckedType, CheckedSymbol;
    if rest != [] {
      var p, later := rest[0], rest[1..];
      var typed := CheckedType(ContextOf(k), p.declared, 1007, CheckedSymbol(p.symbol, 1006, r));
      assert rest == [p] + later && before + rest == before + [p] + later;
      FunctionParameterMeaning(k, before, p, later, seen, r, issue);
      SeenNextParameter(before, seen, p);
      FunctionParametersMeaning(k, before + [p], later, seen + {p.symbol.id},
        When(p.symbol.id in seen, 1004, p.symbol.id, typed), issue);
    }
  }

  /** The issues of a function are the faults of its head and of its places. */
  lemma FunctionMeaning(k: Surroundings, f: Function, issue: Issue)
    ensures issue in FunctionReport(ContextOf(k), f, []) <==>
      HeadFault(k, f, issue) || Among(k, FunctionPlaces(f), issue)
  {
    hide Among, Flattens, FunctionParametersReport, FunctionParameterFault, StatementsReport, StatementsPlaces,
        FallThrough.NeverFalls, WithParameters, ParameterDefinitions;
    var c := ContextOf(k);
    var typed := CheckedType(c, f.returnType, 1003, CheckedSymbol(f.symbol, 1006, []));
    var declared := FunctionParametersReport(c, f.parameters, {}, typed);
    FunctionParametersMeaning(k, [], f.parameters, {}, typed, issue) by {
      assert SeenParameters([], {});
    }
    assert [] + f.parameters == f.parameters;
    NothingFlat();
    FlattensParameters(map[], [], f.parameters);
    assert [] + ParameterDefinitions(f.parameters) == ParameterDefinitions(f.parameters);
    StatementsMeaning(k, f.body, WithParameters(f.parameters, map[]), ParameterDefinitions(f.parameters), f.returnType,
      FallThrough.OutsideLoop, declared, issue);
  }

  lemma NothingFlat()
    ensures Flattens(map[], [])
  {
  }

  // ---------------------------------------------------------------------------
  // Modules

  ghost predicate NameFault(name: seq<Text>, issue: Issue) {
    issue == Issue(1001, 0) && (name == [] || [] in name)
  }

  ghost predicate SourceFault(rules: Rules, files: seq<Text>, i: nat, issue: Issue)
    requires i < |files|
  {
    || (issue == Issue(1060, 0) && !rules.isNormalizedPath(files[i]))
    || (issue == Issue(1061, 0) && exists j :: 0 <= j < i && files[j] == files[i])
  }

  ghost predicate DeclarationFault(x: Module, rules: Rules, i: nat, issue: Issue)
    requires i < |x.functions|
  {
    var f := x.functions[i];
    && issue.symbol == f.symbol.id
    && match issue.code
       case 1062 => f.sourceFile != [] && !rules.isNormalizedPath(f.sourceFile)
       case 1063 => x.sourceFiles != [] && f.sourceFile !in x.sourceFiles
       case 1006 => f.symbol.id == 0
       case 1002 => exists j :: 0 <= j < i && x.functions[j].symbol.id == f.symbol.id
       case _ => false
  }

  function Around(x: Module, rules: Rules): Surroundings {
    Surroundings(rules, x.functions)
  }

  /** Everything that can be wrong with a module, with the function it is reported for. */
  ghost predicate ModuleFault(x: Module, rules: Rules, m: ModuleIssue) {
    || (m.owner == 0 && NameFault(x.name, m.issue))
    || (m.owner == 0 && exists i :: 0 <= i < |x.sourceFiles| && SourceFault(rules, x.sourceFiles, i, m.issue))
    || (exists i :: 0 <= i < |x.functions| && m.owner == x.functions[i].symbol.id && OfFunction(x, rules, i, m.issue))
  }

  ghost predicate OfFunction(x: Module, rules: Rules, i: nat, issue: Issue)
    requires i < |x.functions|
  {
    || DeclarationFault(x, rules, i, issue)
    || HeadFault(Around(x, rules), x.functions[i], issue)
    || Among(Around(x, rules), FunctionPlaces(x.functions[i]), issue)
  }

  lemma OwnedMeaning(owner: nat, r: Report, m: ModuleIssue)
    ensures m in Owned(owner, r) <==> m.owner == owner && m.issue in r
  {
    if m.owner == owner && m.issue in r {
      var i :| 0 <= i < |r| && r[i] == m.issue;
      assert Owned(owner, r)[i] == m;
    }
  }

  lemma NameMeaning(name: seq<Text>, m: ModuleIssue)
    ensures m in NameIssues(name) <==> m.owner == 0 && NameFault(name, m.issue)
  {
    hide Owned;
    var r := When(name == [] || exists i :: 0 <= i < |name| && name[i] == [], 1001, 0, []);
    OwnedMeaning(0, r, m);
    assert [] in name <==> exists i :: 0 <= i < |name| && name[i] == [];
  }

  lemma {:induction false} SourcesMeaning(rules: Rules, before: seq<Text>, rest: seq<Text>, seen: set<Text>,
      m: ModuleIssue)
    requires forall t :: t in seen <==> t in before
    ensures m in SourceIssues(rules, rest, seen) <==>
      m.owner == 0 && exists i :: |before| <= i < |before + rest| && SourceFault(rules, before + rest, i, m.issue)
    decreases |rest|
  {
    hide SourceFault, Owned;
    if rest != [] {
      var first, later := rest[0], rest[1..];
      assert rest == [first] + later && before + rest == before + [first] + later;
      SourceMeaning(rules, before, first, later, seen, m);
      SourcesMeaning(rules, before + [first], later, seen + {first}, m);
    }
  }

  lemma SourceMeaning(rules: Rules, before: seq<Text>, file: Text, later: seq<Text>, seen: set<Text>, m: ModuleIssue)
    requires forall t :: t in seen <==> t in before
    ensures m in Owned(0, When(file in seen, 1061, 0, When(!rules.isNormalizedPath(file), 1060, 0, []))) <==>
      m.owner == 0 && SourceFault(rules, before + ([file] + later), |before|, m.issue)
  {
    var all := before + ([file] + later);
    var r := When(file in seen, 1061, 0, When(!rules.isNormalizedPath(file), 1060, 0, []));
    OwnedMeaning(0, r, m);
    assert all[|before|] == file && forall j :: 0 <= j < |before| ==> all[j] == before[j];
  }

  lemma DeclarationMeaning(x: Module, rules: Rules, i: nat, m: ModuleIssue)
    requires i < |x.functions|
    ensures
      var f := x.functions[i];
      m in Owned(f.symbol.id, DeclarationReport(rules, x.sourceFiles, f, Declared(x.functions[..i]))) <==>
        m.owner == f.symbol.id && DeclarationFault(x, rules, i, m.issue)
  {
    hide Declared;
    var f := x.functions[i];
    OwnedMeaning(f.symbol.id, DeclarationReport(rules, x.sourceFiles, f, Declared(x.functions[..i])), m);
    DeclaredMeaning(x.functions[..i], f.symbol.id);
    assert forall j :: 0 <= j < i ==> x.functions[..i][j] == x.functions[j];
  }

  lemma {:induction false} DeclarationsMeaning(x: Module, rules: Rules, i: nat, m: ModuleIssue)
    requires i <= |x.functions|
    ensures m in DeclarationIssues(rules, x.sourceFiles, x.functions[i..], Declared(x.functions[..i])) <==>
      exists n ::
        i <= n < |x.functions| && m.owner == x.functions[n].symbol.id && DeclarationFault(x, rules, n, m.issue)
    decreases |x.functions| - i
  {
    hide DeclarationFault, Owned, DeclarationReport;
    if i < |x.functions| {
      var f := x.functions[i];
      assert x.functions[i..][0] == f && x.functions[i..][1..] == x.functions[i + 1..];
      assert x.functions[..i + 1][..i] == x.functions[..i];
      DeclarationMeaning(x, rules, i, m);
      DeclarationsMeaning(x, rules, i + 1, m);
    }
  }

  lemma {:induction false} BodiesMeaning(k: Surroundings, functions: seq<Function>, m: ModuleIssue)
    ensures m in FunctionsIssues(ContextOf(k), functions) <==>
      exists i ::
        && 0 <= i < |functions| && m.owner == functions[i].symbol.id
        && (HeadFault(k, functions[i], m.issue) || Among(k, FunctionPlaces(functions[i]), m.issue))
    decreases |functions|
  {
    hide HeadFault, Among, FunctionReport, Owned, FunctionPlaces;
    if functions != [] {
      var f := functions[0];
      OwnedMeaning(f.symbol.id, FunctionReport(ContextOf(k), f, []), m);
      FunctionMeaning(k, f, m.issue);
      BodiesMeaning(k, functions[1..], m);
      assert forall i :: 0 < i < |functions| ==> functions[i] == functions[1..][i - 1];
    }
  }

  /** The issues of a module are exactly its faults. */
  lemma ModuleMeaning(x: Module, rules: Rules, m: ModuleIssue)
    ensures m in ModuleIssues(x, rules) <==> ModuleFault(x, rules, m)
  {
    hide NameIssues, NameFault, SourceIssues, SourceFault, DeclarationIssues, DeclarationFault, FunctionsIssues,
        HeadFault, Among, FunctionPlaces;
    NameMeaning(x.name, m);
    SourcesMeaning(rules, [], x.sourceFiles, {}, m);
    assert [] + x.sourceFiles == x.sourceFiles;
    DeclarationsMeaning(x, rules, 0, m);
    assert x.functions[0..] == x.functions && x.functions[..0] == [];
    BodiesMeaning(Around(x, rules), x.functions, m);
  }

  // ---------------------------------------------------------------------------
  // One code

  /** The checks that look at nothing around them report under codes of their own. */
  ghost predicate OwnCodes(rules: Rules) {
    && (forall code, t, issue :: issue in rules.typeIssues(code, t) ==> issue.code == code || issue.code == 1040)
    && (forall e, issue :: issue in rules.primitiveIssues(e) ==> issue.code in {1026, 1027, 1028, 1050, 1073, 1075})
    && (forall c, issue :: issue in rules.captureModeIssues(c) ==> issue.code in {1043, 1044})
  }

  /** An assignment to id whose nearest definition cannot be assigned to. */
  ghost predicate AssignsImmutable(k: Surroundings, p: Place, id: nat) {
    && p.AtStatement? && p.statement.Assign? && p.statement.destination.id == id
    && exists d :: Refers(k, p.defs, id, d) && !d.mutableBinding
  }

  lemma ImmutableAt(k: Surroundings, p: Place, id: nat)
    requires OwnCodes(k.rules)
    ensures FaultAt(k, p, Issue(1013, id)) <==> AssignsImmutable(k, p, id)
  {
    hide Refers, Unknown, FallThrough.NeverFalls, IsCallableType, Accepts;
  }

  lemma NotImmutable(x: Module, rules: Rules, i: nat, id: nat)
    requires OwnCodes(rules) && i < |x.functions|
    ensures !DeclarationFault(x, rules, i, Issue(1013, id))
    ensures !HeadFault(Around(x, rules), x.functions[i], Issue(1013, id))
  {
    hide FallThrough.NeverFalls;
  }

  /** Issue 1013 is reported exactly for the assignments, at any depth, whose nearest definition
      cannot be assigned to. */
  lemma ImmutableIsReported(x: Module, rules: Rules, owner: nat, id: nat)
    requires OwnCodes(rules)
    ensures ModuleIssue(owner, Issue(1013, id)) in ModuleIssues(x, rules) <==>
      exists i, p ::
        && 0 <= i < |x.functions| && owner == x.functions[i].symbol.id
        && p in FunctionPlaces(x.functions[i]) && AssignsImmutable(Around(x, rules), p, id)
  {
    hide OwnCodes, FunctionPlaces, DeclarationFault, HeadFault, FaultAt, AssignsImmutable, ModuleIssues;
    var k, m := Around(x, rules), ModuleIssue(owner, Issue(1013, id));
    ModuleMeaning(x, rules, m);
    forall i | 0 <= i < |x.functions|
      ensures OfFunction(x, rules, i, m.issue) <==>
        exists p :: p in FunctionPlaces(x.functions[i]) && AssignsImmutable(k, p, id)
    {
      NotImmutable(x, rules, i, id);
      forall p
        ensures FaultAt(k, p, m.issue) <==> AssignsImmutable(k, p, id)
      {
        ImmutableAt(k, p, id);
      }
    }
  }
}
