/** What holds everywhere in a Core module without issues, and only there: symbols refer to something
    of the right type, assignments go to what can be assigned to, calls fit their callees. */
module CoreSoundness {
  import opened Wrappers
  import opened TypeIdentity
  import opened CoreScalars
  import opened WireLiterals
  import opened CoreVerifier
  import opened CoreVerifierMeaning
  import opened CoreModuleMeaning
  import FallThrough

  // ---------------------------------------------------------------------------
  // Modules without issues

  ghost predicate SoundVariable(k: Surroundings, symbol: SymbolName, valueType: Type, defs: Definitions) {
    && symbol.id != 0
    && exists d ::
         && Refers(k, defs, symbol.id, d) && d.declared == valueType
         && (symbol.spelling == [] || d.spelling == [] || symbol.spelling == d.spelling)
  }

  /** The callee takes arguments of these types and gives the result. */
  predicate SoundCall(calleeType: Type, arguments: seq<Expression>, valueType: Type) {
    && calleeType.kind == FUNCTION && |calleeType.components| == |arguments| + 1
    && (forall i :: 0 <= i < |arguments| ==> calleeType.components[i] == arguments[i].valueType)
    && calleeType.components[|arguments|] == valueType
  }

  predicate SoundCapture(rules: Rules, c: Capture) {
    && c.symbol.id != 0 && c.value.Some? && c.declared == c.value.value.valueType
    && rules.typeIssues(1034, c.declared) == [] && rules.captureModeIssues(c) == []
  }

  /** No two captures or parameters of a closure have the same symbol. */
  ghost predicate DistinctLocals(captures: seq<Capture>, parameters: seq<Parameter>) {
    && (forall i, j :: 0 <= i < j < |captures| ==> captures[i].symbol.id != captures[j].symbol.id)
    && (forall i, j ::
          0 <= i < |captures| && 0 <= j < |parameters| ==> captures[i].symbol.id != parameters[j].symbol.id)
    && (forall i, j :: 0 <= i < j < |parameters| ==> parameters[i].symbol.id != parameters[j].symbol.id)
  }

  ghost predicate SoundClosure(rules: Rules, e: Expression)
    requires e.node.Closure?
  {
    var n := e.node;
    && n.closureBody.Body? && rules.typeIssues(1032, n.returnType) == []
    && (forall i :: 0 <= i < |n.captures| ==> SoundCapture(rules, n.captures[i]))
    && (forall i :: 0 <= i < |n.parameters| ==>
          n.parameters[i].symbol.id != 0 && rules.typeIssues(1039, n.parameters[i].declared) == [])
    && DistinctLocals(n.captures, n.parameters)
    && IsCallableType(e.valueType, n.parameters, n.returnType)
    && (n.returnType == UNIT || FallThrough.NeverFalls(Shapes(n.closureBody.statements)))
  }

  ghost predicate SoundNode(k: Surroundings, e: Expression, defs: Definitions) {
    match e.node
    case Variable(symbol) => SoundVariable(k, symbol, e.valueType, defs)
    case Constant(literal) => Accepts(literal, e.valueType)
    case Apply(callee, arguments) => callee.Some? && SoundCall(callee.value.valueType, arguments, e.valueType)
    case Primitive(_, _) => k.rules.primitiveIssues(e) == []
    case Closure(_, _, _, _) => SoundClosure(k.rules, e)
    case Let(symbol, declared, value, body) =>
      && symbol.id != 0 && k.rules.typeIssues(1046, declared) == []
      && value.Some? && body.Some? && declared == value.value.valueType && e.valueType == body.value.valueType
    case Conditional(s) =>
      && |s| == 3 && IsTestable(s[0].valueType) && IsTestable(e.valueType)
      && e.valueType == s[1].valueType && e.valueType == s[2].valueType
  }

  ghost predicate SoundStatement(k: Surroundings, s: Statement, defs: Definitions, result: Type,
      transfers: FallThrough.TransferScope) {
    match s
    case Bind(b) =>
      && b.symbol.id != 0 && Unknown(k, defs, b.symbol.id) && b.declared == b.value.valueType
      && k.rules.typeIssues(1009, b.declared) == []
    case Assign(destination, value) =>
      && destination.id != 0
      && exists d :: Refers(k, defs, destination.id, d) && d.mutableBinding && d.declared == value.valueType
    case Return(value) => value.valueType == result
    case If(condition, _, _) => IsTestable(condition.valueType)
    case Loop(_, condition, _, _) => IsTestable(condition.valueType)
    case Evaluate(_) => true
    case Break => transfers != FallThrough.OutsideLoop
    case Continue => transfers == FallThrough.InLoopBody
  }

  ghost predicate Sound(k: Surroundings, p: Place) {
    match p
    case AtExpression(e, defs) => k.rules.typeIssues(1018, e.valueType) == [] && SoundNode(k, e, defs)
    case AtStatement(s, defs, result, transfers) => SoundStatement(k, s, defs, result, transfers)
  }

  ghost predicate Clean(k: Surroundings, p: Place) {
    forall issue :: !FaultAt(k, p, issue)
  }

  // Every symbol that is known refers to one definition.

  lemma {:induction false} LocalHasNearest(defs: Definitions, id: nat) returns (d: Definition)
    requires Local(defs, id)
    ensures Nearest(defs, id, d)
    decreases |defs|
  {
    var n := |defs| - 1;
    assert defs == defs[..n] + [defs[n]];
    if defs[n].id == id {
      d := defs[n].definition;
    } else {
      OtherStays(defs[..n], defs[n], id);
      d := LocalHasNearest(defs[..n], id);
      NearestStays(defs[..n], defs[n], id, d);
    }
  }

  lemma KnownRefers(k: Surroundings, defs: Definitions, id: nat) returns (d: Definition)
    requires !Unknown(k, defs, id)
    ensures Refers(k, defs, id, d)
  {
    hide Local, Nearest, NamesFunction, IsFunction, Declared;
    if Local(defs, id) {
      d := LocalHasNearest(defs, id);
    } else {
      DeclaredMeaning(k.functions, id);
      d := Declared(k.functions)[id];
    }
  }

  lemma RefersOnce(k: Surroundings, defs: Definitions, id: nat, d: Definition, e: Definition)
    requires Refers(k, defs, id, d) && Refers(k, defs, id, e)
    ensures d == e && !Unknown(k, defs, id)
  {
    hide Local, Nearest, NamesFunction, IsFunction;
    if Local(defs, id) {
      NearestIsOneOf(k, defs, id, d);
      NearestIsOneOf(k, defs, id, e);
      NearestIsOne(defs, id, d, e);
    } else {
      NotNearest(defs, id, d);
      NotNearest(defs, id, e);
      NamesOneFunction(k.functions, id, d, e);
    }
  }

  lemma NotNearest(defs: Definitions, id: nat, d: Definition)
    requires !Local(defs, id)
    ensures !Nearest(defs, id, d)
  {
  }

  lemma NearestIsOneOf(k: Surroundings, defs: Definitions, id: nat, d: Definition)
    requires Local(defs, id) && Refers(k, defs, id, d)
    ensures Nearest(defs, id, d)
  {
  }

  // ---------------------------------------------------------------------------
  // Nothing is wrong exactly where everything is sound

  lemma NothingIn(s: seq<Issue>)
    ensures s == [] <==> forall issue :: issue !in s
  {
    if s != [] {
      assert s[0] in s;
    }
  }

  lemma VariableClean(k: Surroundings, symbol: SymbolName, t: Type, defs: Definitions)
    ensures (forall issue :: !VariableFault(k, symbol, t, defs, issue)) <==> SoundVariable(k, symbol, t, defs)
  {
    hide Refers, Unknown;
    if SoundVariable(k, symbol, t, defs) {
      var d :| Refers(k, defs, symbol.id, d) && d.declared == t
        && (symbol.spelling == [] || d.spelling == [] || symbol.spelling == d.spelling);
      RefersOnce(k, defs, symbol.id, d, d);
      forall e | Refers(k, defs, symbol.id, e)
        ensures e == d
      {
        RefersOnce(k, defs, symbol.id, d, e);
      }
    }
    if forall issue :: !VariableFault(k, symbol, t, defs, issue) {
      assert !VariableFault(k, symbol, t, defs, Issue(1019, symbol.id));
      assert !VariableFault(k, symbol, t, defs, Issue(1020, symbol.id));
      assert !VariableFault(k, symbol, t, defs, Issue(1021, symbol.id));
      assert !VariableFault(k, symbol, t, defs, Issue(1030, symbol.id));
      var d := KnownRefers(k, defs, symbol.id);
    }
  }

  lemma AssignmentClean(k: Surroundings, s: Statement, defs: Definitions, result: Type,
      transfers: FallThrough.TransferScope)
    requires s.Assign?
    ensures (forall issue :: !StatementFault(k, s, defs, result, transfers, issue))
      <==> SoundStatement(k, s, defs, result, transfers)
  {
    hide Refers, Unknown;
    var id := s.destination.id;
    if SoundStatement(k, s, defs, result, transfers) {
      var d :| Refers(k, defs, id, d) && d.mutableBinding && d.declared == s.value.valueType;
      RefersOnce(k, defs, id, d, d);
      forall e | Refers(k, defs, id, e)
        ensures e == d
      {
        RefersOnce(k, defs, id, d, e);
      }
    }
    if forall issue :: !StatementFault(k, s, defs, result, transfers, issue) {
      assert !StatementFault(k, s, defs, result, transfers, Issue(1012, id));
      assert !StatementFault(k, s, defs, result, transfers, Issue(1013, id));
      assert !StatementFault(k, s, defs, result, transfers, Issue(1014, id));
      assert !StatementFault(k, s, defs, result, transfers, Issue(1015, id));
      var d := KnownRefers(k, defs, id);
    }
  }

  lemma CallClean(calleeType: Type, arguments: seq<Expression>, t: Type)
    ensures (forall issue :: !CallFault(calleeType, arguments, t, issue)) <==> SoundCall(calleeType, arguments, t)
  {
    if forall issue :: !CallFault(calleeType, arguments, t, issue) {
      assert !CallFault(calleeType, arguments, t, Issue(1025, 0));
      assert !CallFault(calleeType, arguments, t, Issue(1022, 0));
      assert !CallFault(calleeType, arguments, t, Issue(1023, 0));
      assert !CallFault(calleeType, arguments, t, Issue(1024, 0));
    }
  }

  ghost predicate CleanCapture(k: Surroundings, captures: seq<Capture>, i: nat)
    requires i < |captures|
  {
    forall issue :: !CaptureFault(k, captures, i, issue)
  }

  lemma CapturesClean(k: Surroundings, captures: seq<Capture>)
    ensures (forall i :: 0 <= i < |captures| ==> CleanCapture(k, captures, i)) <==>
      && (forall i :: 0 <= i < |captures| ==> SoundCapture(k.rules, captures[i]))
      && (forall i, j :: 0 <= i < j < |captures| ==> captures[i].symbol.id != captures[j].symbol.id)
  {
    forall i | 0 <= i < |captures|
      ensures CleanCapture(k, captures, i) <==>
        SoundCapture(k.rules, captures[i])
        && forall j :: 0 <= j < i && captures[j].value.Some? ==> captures[j].symbol.id != captures[i].symbol.id
    {
      CaptureClean(k, captures, i);
    }
  }

  lemma CaptureClean(k: Surroundings, captures: seq<Capture>, i: nat)
    requires i < |captures|
    ensures CleanCapture(k, captures, i) <==>
      SoundCapture(k.rules, captures[i])
      && forall j :: 0 <= j < i && captures[j].value.Some? ==> captures[j].symbol.id != captures[i].symbol.id
  {
    var c := captures[i];
    NothingIn(k.rules.typeIssues(1034, c.declared));
    NothingIn(k.rules.captureModeIssues(c));
    if CleanCapture(k, captures, i) {
      assert !CaptureFault(k, captures, i, Issue(1033, c.symbol.id));
      assert !CaptureFault(k, captures, i, Issue(1035, c.symbol.id));
      assert !CaptureFault(k, captures, i, Issue(1036, c.symbol.id));
      assert !CaptureFault(k, captures, i, Issue(1037, c.symbol.id));
      forall issue
        ensures issue !in k.rules.typeIssues(1034, c.declared) && issue !in k.rules.captureModeIssues(c)
      {
        assert !CaptureFault(k, captures, i, issue);
      }
    }
  }

  ghost predicate CleanParameter(k: Surroundings, captures: seq<Capture>, parameters: seq<Parameter>, i: nat)
    requires i < |parameters|
  {
    forall issue :: !ParameterFault(k, captures, parameters, i, issue)
  }

  lemma ParameterClean(k: Surroundings, captures: seq<Capture>, parameters: seq<Parameter>, i: nat)
    requires i < |parameters|
    ensures CleanParameter(k, captures, parameters, i) <==>
      && parameters[i].symbol.id != 0 && k.rules.typeIssues(1039, parameters[i].declared) == []
      && !IsCaptured(captures, parameters[i].symbol.id)
      && forall j :: 0 <= j < i ==> parameters[j].symbol.id != parameters[i].symbol.id
  {
    hide IsCaptured;
    var p := parameters[i];
    NothingIn(k.rules.typeIssues(1039, p.declared));
    if CleanParameter(k, captures, parameters, i) {
      assert !ParameterFault(k, captures, parameters, i, Issue(1038, 0));
      assert !ParameterFault(k, captures, parameters, i, Issue(1037, p.symbol.id));
      forall issue
        ensures issue !in k.rules.typeIssues(1039, p.declared)
      {
        assert !ParameterFault(k, captures, parameters, i, issue);
      }
    }
  }

  lemma ParametersClean(k: Surroundings, captures: seq<Capture>, parameters: seq<Parameter>)
    requires forall i :: 0 <= i < |captures| ==> captures[i].value.Some?
    ensures (forall i :: 0 <= i < |parameters| ==> CleanParameter(k, captures, parameters, i)) <==>
      && (forall i :: 0 <= i < |parameters| ==>
            parameters[i].symbol.id != 0 && k.rules.typeIssues(1039, parameters[i].declared) == [])
      && (forall i, j ::
            0 <= i < |captures| && 0 <= j < |parameters| ==> captures[i].symbol.id != parameters[j].symbol.id)
      && (forall i, j :: 0 <= i < j < |parameters| ==> parameters[i].symbol.id != parameters[j].symbol.id)
  {
    hide CleanParameter;
    forall j | 0 <= j < |parameters|
      ensures CleanParameter(k, captures, parameters, j) <==>
        && parameters[j].symbol.id != 0 && k.rules.typeIssues(1039, parameters[j].declared) == []
        && (forall i :: 0 <= i < |captures| ==> captures[i].symbol.id != parameters[j].symbol.id)
        && forall i :: 0 <= i < j ==> parameters[i].symbol.id != parameters[j].symbol.id
    {
      ParameterClean(k, captures, parameters, j);
    }
  }

  /** The faults of a closure with a body, one by one. */
  lemma ClosurePartsClean(k: Surroundings, e: Expression)
    requires e.node.Closure? && e.node.closureBody.Body?
    ensures (forall issue :: !ClosureFault(k, e, issue)) <==>
      && k.rules.typeIssues(1032, e.node.returnType) == []
      && (forall i :: 0 <= i < |e.node.captures| ==> CleanCapture(k, e.node.captures, i))
      && (forall i :: 0 <= i < |e.node.parameters| ==> CleanParameter(k, e.node.captures, e.node.parameters, i))
      && IsCallableType(e.valueType, e.node.parameters, e.node.returnType)
      && (e.node.returnType == UNIT || FallThrough.NeverFalls(Shapes(e.node.closureBody.statements)))
  {
    hide CaptureFault, ParameterFault, IsCallableType, FallThrough.NeverFalls, Shapes;
    var n := e.node;
    NothingIn(k.rules.typeIssues(1032, n.returnType));
    assert forall i, issue ::
      0 <= i < |n.captures| && CleanCapture(k, n.captures, i) ==> !CaptureFault(k, n.captures, i, issue);
    assert forall i, issue :: 0 <= i < |n.parameters| && CleanParameter(k, n.captures, n.parameters, i) ==>
      !ParameterFault(k, n.captures, n.parameters, i, issue);
    if forall issue :: !ClosureFault(k, e, issue) {
      assert !ClosureFault(k, e, Issue(1041, 0)) && !ClosureFault(k, e, Issue(1042, 0));
      forall issue
        ensures issue !in k.rules.typeIssues(1032, n.returnType)
      {
        assert !ClosureFault(k, e, issue);
      }
      forall i | 0 <= i < |n.captures|
        ensures CleanCapture(k, n.captures, i)
      {
        forall issue
          ensures !CaptureFault(k, n.captures, i, issue)
        {
          assert !ClosureFault(k, e, issue);
        }
      }
      forall i | 0 <= i < |n.parameters|
        ensures CleanParameter(k, n.captures, n.parameters, i)
      {
        forall issue
          ensures !ParameterFault(k, n.captures, n.parameters, i, issue)
        {
          assert !ClosureFault(k, e, issue);
        }
      }
    }
  }

  lemma ClosureClean(k: Surroundings, e: Expression)
    requires e.node.Closure?
    ensures (forall issue :: !ClosureFault(k, e, issue)) <==> SoundClosure(k.rules, e)
  {
    hide CleanCapture, CleanParameter, IsCallableType, FallThrough.NeverFalls, Shapes, SoundCapture, CaptureFault,
        ParameterFault;
    var n := e.node;
    if n.closureBody.Missing? {
      assert ClosureFault(k, e, Issue(1031, 0));
    } else {
      ClosurePartsClean(k, e);
      hide ClosureFault;
      CapturesClean(k, n.captures);
      if forall i :: 0 <= i < |n.captures| ==> SoundCapture(k.rules, n.captures[i]) {
        SoundCapturesHaveValues(k.rules, n.captures);
        ParametersClean(k, n.captures, n.parameters);
      }
    }
  }

  lemma SoundCapturesHaveValues(rules: Rules, captures: seq<Capture>)
    requires forall i :: 0 <= i < |captures| ==> SoundCapture(rules, captures[i])
    ensures forall i :: 0 <= i < |captures| ==> captures[i].value.Some?
  {
  }

  lemma LetClean(k: Surroundings, e: Expression, defs: Definitions)
    requires e.node.Let?
    ensures (forall issue :: !NodeFault(k, e, defs, issue)) <==> SoundNode(k, e, defs)
  {
    var n := e.node;
    NothingIn(k.rules.typeIssues(1046, n.letType));
    if forall issue :: !NodeFault(k, e, defs, issue) {
      assert !NodeFault(k, e, defs, Issue(1045, 0)) && !NodeFault(k, e, defs, Issue(1047, 0));
      assert !NodeFault(k, e, defs, Issue(1048, 0)) && !NodeFault(k, e, defs, Issue(1049, 0));
      forall issue
        ensures issue !in k.rules.typeIssues(1046, n.letType)
      {
        assert !NodeFault(k, e, defs, issue);
      }
    }
  }

  lemma ConditionalClean(e: Expression, k: Surroundings, defs: Definitions)
    requires e.node.Conditional?
    ensures (forall issue :: !ConditionalFault(e, issue)) <==> SoundNode(k, e, defs)
  {
    hide IsTestable;
    if forall issue :: !ConditionalFault(e, issue) {
      assert !ConditionalFault(e, Issue(1071, 0));
      assert !ConditionalFault(e, Issue(1067, 0)) && !ConditionalFault(e, Issue(1068, 0));
      assert !ConditionalFault(e, Issue(1069, 0)) && !ConditionalFault(e, Issue(1070, 0));
    }
  }

  lemma NodeClean(k: Surroundings, e: Expression, defs: Definitions)
    ensures (forall issue :: !NodeFault(k, e, defs, issue)) <==> SoundNode(k, e, defs)
  {
    hide VariableFault, SoundVariable, CallFault, SoundCall, ClosureFault, SoundClosure, ConditionalFault, IsTestable;
    match e.node
    case Variable(symbol) =>
      VariableClean(k, symbol, e.valueType, defs);
      assert forall issue :: NodeFault(k, e, defs, issue) <==> VariableFault(k, symbol, e.valueType, defs, issue);
    case Constant(literal) =>
      assert NodeFault(k, e, defs, Issue(1029, 0)) <==> !Accepts(literal, e.valueType);
    case Apply(callee, arguments) =>
      if callee.None? {
        assert NodeFault(k, e, defs, Issue(1025, 0));
      } else {
        CallClean(callee.value.valueType, arguments, e.valueType);
        assert forall issue ::
          NodeFault(k, e, defs, issue) <==> CallFault(callee.value.valueType, arguments, e.valueType, issue);
      }
    case Primitive(_, _) =>
      NothingIn(k.rules.primitiveIssues(e));
      assert forall issue :: NodeFault(k, e, defs, issue) <==> issue in k.rules.primitiveIssues(e);
    case Closure(_, _, _, _) =>
      ClosureClean(k, e);
      assert forall issue :: NodeFault(k, e, defs, issue) <==> ClosureFault(k, e, issue);
    case Let(_, _, _, _) => LetClean(k, e, defs);
    case Conditional(_) =>
      ConditionalClean(e, k, defs);
      assert forall issue :: NodeFault(k, e, defs, issue) <==> ConditionalFault(e, issue);
  }

  lemma BindClean(k: Surroundings, s: Statement, defs: Definitions, result: Type, transfers: FallThrough.TransferScope)
    requires s.Bind?
    ensures (forall issue :: !StatementFault(k, s, defs, result, transfers, issue))
      <==> SoundStatement(k, s, defs, result, transfers)
  {
    hide Unknown;
    var b := s.binding;
    NothingIn(k.rules.typeIssues(1009, b.declared));
    if forall issue :: !StatementFault(k, s, defs, result, transfers, issue) {
      assert !StatementFault(k, s, defs, result, transfers, Issue(1008, b.symbol.id));
      assert !StatementFault(k, s, defs, result, transfers, Issue(1010, b.symbol.id));
      assert !StatementFault(k, s, defs, result, transfers, Issue(1011, b.symbol.id));
      forall issue
        ensures issue !in k.rules.typeIssues(1009, b.declared)
      {
        assert !StatementFault(k, s, defs, result, transfers, issue);
      }
    }
  }

  lemma StatementClean(k: Surroundings, s: Statement, defs: Definitions, result: Type,
      transfers: FallThrough.TransferScope)
    ensures (forall issue :: !StatementFault(k, s, defs, result, transfers, issue))
      <==> SoundStatement(k, s, defs, result, transfers)
  {
    hide Unknown, Refers, IsTestable;
    match s
    case Bind(_) => BindClean(k, s, defs, result, transfers);
    case Assign(_, _) => AssignmentClean(k, s, defs, result, transfers);
    case Return(value) =>
      assert StatementFault(k, s, defs, result, transfers, Issue(1016, 0)) <==> result != value.valueType;
    case If(condition, _, _) =>
      assert StatementFault(k, s, defs, result, transfers, Issue(1017, 0)) <==> !IsTestable(condition.valueType);
    case Loop(_, condition, _, _) =>
      assert StatementFault(k, s, defs, result, transfers, Issue(1017, 0)) <==> !IsTestable(condition.valueType);
    case Evaluate(_) =>
    case Break =>
      assert StatementFault(k, s, defs, result, transfers, Issue(1064, 0)) <==> transfers == FallThrough.OutsideLoop;
    case Continue =>
      assert StatementFault(k, s, defs, result, transfers, Issue(1065, 0)) <==> transfers == FallThrough.OutsideLoop;
      assert StatementFault(k, s, defs, result, transfers, Issue(1066, 0)) <==> transfers == FallThrough.InForUpdate;
  }

  /** Nothing is wrong at a place exactly when it is sound. */
  lemma PlaceClean(k: Surroundings, p: Place)
    ensures Clean(k, p) <==> Sound(k, p)
  {
    hide NodeFault, SoundNode, StatementFault, SoundStatement;
    match p
    case AtExpression(e, defs) =>
      NothingIn(k.rules.typeIssues(1018, e.valueType));
      NodeClean(k, e, defs);
      if Clean(k, p) {
        forall issue
          ensures issue !in k.rules.typeIssues(1018, e.valueType) && !NodeFault(k, e, defs, issue)
        {
          assert !FaultAt(k, p, issue);
        }
      }
    case AtStatement(s, defs, result, transfers) =>
      StatementClean(k, s, defs, result, transfers);
      assert forall issue :: FaultAt(k, p, issue) <==> StatementFault(k, s, defs, result, transfers, issue);
  }

  // ---------------------------------------------------------------------------
  // The whole module

  ghost predicate SoundHead(x: Module, rules: Rules, i: nat)
    requires i < |x.functions|
  {
    var f := x.functions[i];
    && f.symbol.id != 0
    && (forall j :: 0 <= j < i ==> x.functions[j].symbol.id != f.symbol.id)
    && (f.sourceFile == [] || rules.isNormalizedPath(f.sourceFile))
    && (x.sourceFiles == [] || f.sourceFile in x.sourceFiles)
    && rules.typeIssues(1003, f.returnType) == []
    && (forall n :: 0 <= n < |f.parameters| ==>
          f.parameters[n].symbol.id != 0 && rules.typeIssues(1007, f.parameters[n].declared) == [])
    && (forall n, o :: 0 <= n < o < |f.parameters| ==> f.parameters[n].symbol.id != f.parameters[o].symbol.id)
    && (f.returnType == UNIT || FallThrough.NeverFalls(Shapes(f.body)))
  }

  ghost predicate SoundModule(x: Module, rules: Rules) {
    && x.name != [] && [] !in x.name
    && (forall i :: 0 <= i < |x.sourceFiles| ==> rules.isNormalizedPath(x.sourceFiles[i]))
    && (forall i, j :: 0 <= i < j < |x.sourceFiles| ==> x.sourceFiles[i] != x.sourceFiles[j])
    && (forall i :: 0 <= i < |x.functions| ==> SoundHead(x, rules, i))
    && (forall i, p :: 0 <= i < |x.functions| && p in FunctionPlaces(x.functions[i]) ==> Sound(Around(x, rules), p))
  }

  ghost predicate CleanFunctionParameter(k: Surroundings, parameters: seq<Parameter>, n: nat)
    requires n < |parameters|
  {
    forall issue :: !FunctionParameterFault(k, parameters, n, issue)
  }

  lemma FunctionParameterClean(k: Surroundings, parameters: seq<Parameter>, n: nat)
    requires n < |parameters|
    ensures CleanFunctionParameter(k, parameters, n) <==>
      && parameters[n].symbol.id != 0 && k.rules.typeIssues(1007, parameters[n].declared) == []
      && forall j :: 0 <= j < n ==> parameters[j].symbol.id != parameters[n].symbol.id
  {
    var p := parameters[n];
    NothingIn(k.rules.typeIssues(1007, p.declared));
    if CleanFunctionParameter(k, parameters, n) {
      assert !FunctionParameterFault(k, parameters, n, Issue(1006, 0));
      assert !FunctionParameterFault(k, parameters, n, Issue(1004, p.symbol.id));
      forall issue
        ensures issue !in k.rules.typeIssues(1007, p.declared)
      {
        assert !FunctionParameterFault(k, parameters, n, issue);
      }
    }
  }

  lemma FunctionParametersClean(k: Surroundings, parameters: seq<Parameter>)
    ensures (forall n :: 0 <= n < |parameters| ==> CleanFunctionParameter(k, parameters, n)) <==>
      && (forall n :: 0 <= n < |parameters| ==>
            parameters[n].symbol.id != 0 && k.rules.typeIssues(1007, parameters[n].declared) == [])
      && (forall n, o :: 0 <= n < o < |parameters| ==> parameters[n].symbol.id != parameters[o].symbol.id)
  {
    hide FunctionParameterFault;
    forall n | 0 <= n < |parameters|
      ensures CleanFunctionParameter(k, parameters, n) <==>
        && parameters[n].symbol.id != 0 && k.rules.typeIssues(1007, parameters[n].declared) == []
        && forall j :: 0 <= j < n ==> parameters[j].symbol.id != parameters[n].symbol.id
    {
      FunctionParameterClean(k, parameters, n);
    }
  }

  lemma DeclarationClean(x: Module, rules: Rules, i: nat)
    requires i < |x.functions|
    ensures (forall issue :: !DeclarationFault(x, rules, i, issue)) <==>
      && x.functions[i].symbol.id != 0
      && (forall j :: 0 <= j < i ==> x.functions[j].symbol.id != x.functions[i].symbol.id)
      && (x.functions[i].sourceFile == [] || rules.isNormalizedPath(x.functions[i].sourceFile))
      && (x.sourceFiles == [] || x.functions[i].sourceFile in x.sourceFiles)
  {
    var f := x.functions[i];
    if forall issue :: !DeclarationFault(x, rules, i, issue) {
      assert !DeclarationFault(x, rules, i, Issue(1062, f.symbol.id));
      assert !DeclarationFault(x, rules, i, Issue(1063, f.symbol.id));
      assert !DeclarationFault(x, rules, i, Issue(1006, f.symbol.id));
      assert !DeclarationFault(x, rules, i, Issue(1002, f.symbol.id));
    }
  }

  lemma HeadPartsClean(k: Surroundings, f: Function)
    ensures (forall issue :: !HeadFault(k, f, issue)) <==>
      && f.symbol.id != 0 && k.rules.typeIssues(1003, f.returnType) == []
      && (forall n :: 0 <= n < |f.parameters| ==> CleanFunctionParameter(k, f.parameters, n))
      && (f.returnType == UNIT || FallThrough.NeverFalls(Shapes(f.body)))
  {
    hide FunctionParameterFault, FallThrough.NeverFalls, Shapes;
    NothingIn(k.rules.typeIssues(1003, f.returnType));
    assert forall n, issue :: 0 <= n < |f.parameters| && CleanFunctionParameter(k, f.parameters, n) ==>
      !FunctionParameterFault(k, f.parameters, n, issue);
    if forall issue :: !HeadFault(k, f, issue) {
      assert !HeadFault(k, f, Issue(1005, 0)) && !HeadFault(k, f, Issue(1006, 0));
      forall issue
        ensures issue !in k.rules.typeIssues(1003, f.returnType)
      {
        assert !HeadFault(k, f, issue);
      }
      forall n | 0 <= n < |f.parameters|
        ensures CleanFunctionParameter(k, f.parameters, n)
      {
        forall issue
          ensures !FunctionParameterFault(k, f.parameters, n, issue)
        {
          assert !HeadFault(k, f, issue);
        }
      }
    }
  }

  lemma HeadClean(x: Module, rules: Rules, i: nat)
    requires i < |x.functions|
    ensures SoundHead(x, rules, i) <==>
      && (forall issue :: !DeclarationFault(x, rules, i, issue))
      && (forall issue :: !HeadFault(Around(x, rules), x.functions[i], issue))
  {
    hide DeclarationFault, HeadFault, CleanFunctionParameter, FallThrough.NeverFalls, Shapes;
    DeclarationClean(x, rules, i);
    HeadPartsClean(Around(x, rules), x.functions[i]);
    FunctionParametersClean(Around(x, rules), x.functions[i].parameters);
  }

  lemma FunctionClean(x: Module, rules: Rules, i: nat)
    requires i < |x.functions|
    ensures (forall issue :: !OfFunction(x, rules, i, issue)) <==>
      SoundHead(x, rules, i) && forall p :: p in FunctionPlaces(x.functions[i]) ==> Sound(Around(x, rules), p)
  {
    hide DeclarationFault, HeadFault, SoundHead, FaultAt, Sound, FunctionPlaces;
    var k, places := Around(x, rules), FunctionPlaces(x.functions[i]);
    HeadClean(x, rules, i);
    forall p
      ensures Clean(k, p) <==> Sound(k, p)
    {
      PlaceClean(k, p);
    }
    if forall issue :: !OfFunction(x, rules, i, issue) {
      forall p, issue | p in places
        ensures !FaultAt(k, p, issue)
      {
        assert !OfFunction(x, rules, i, issue);
      }
      forall issue
        ensures !DeclarationFault(x, rules, i, issue) && !HeadFault(k, x.functions[i], issue)
      {
        assert !OfFunction(x, rules, i, issue);
      }
    }
  }

  /** A module is accepted exactly when it is sound: at every place of every function, whatever the
      depth, everything is as it should be. */
  lemma AcceptedIffSound(x: Module, rules: Rules)
    ensures ModuleIssues(x, rules) == [] <==> SoundModule(x, rules)
  {
    hide ModuleIssues, OfFunction, SoundHead, Sound, FunctionPlaces;
    forall m
      ensures m in ModuleIssues(x, rules) <==> ModuleFault(x, rules, m)
    {
      ModuleMeaning(x, rules, m);
    }
    forall i | 0 <= i < |x.functions|
      ensures (forall issue :: !OfFunction(x, rules, i, issue)) <==>
        SoundHead(x, rules, i) && forall p :: p in FunctionPlaces(x.functions[i]) ==> Sound(Around(x, rules), p)
    {
      FunctionClean(x, rules, i);
    }
    if ModuleIssues(x, rules) == [] {
      NoFaultIsSound(x, rules);
    } else {
      assert ModuleIssues(x, rules)[0] in ModuleIssues(x, rules);
      assert ModuleFault(x, rules, ModuleIssues(x, rules)[0]);
    }
  }

  lemma NoFaultIsSound(x: Module, rules: Rules)
    requires forall m :: !ModuleFault(x, rules, m)
    ensures SoundModule(x, rules)
  {
    hide OfFunction, SoundHead, Sound, FunctionPlaces;
    NoSourceFault(x, rules);
    forall i | 0 <= i < |x.functions|
      ensures SoundHead(x, rules, i) && forall p :: p in FunctionPlaces(x.functions[i]) ==> Sound(Around(x, rules), p)
    {
      forall issue
        ensures !OfFunction(x, rules, i, issue)
      {
        assert !ModuleFault(x, rules, ModuleIssue(x.functions[i].symbol.id, issue));
      }
      FunctionClean(x, rules, i);
    }
  }

  lemma NoSourceFault(x: Module, rules: Rules)
    requires forall m :: !ModuleFault(x, rules, m)
    ensures x.name != [] && [] !in x.name
    ensures forall i :: 0 <= i < |x.sourceFiles| ==> rules.isNormalizedPath(x.sourceFiles[i])
    ensures forall i, j :: 0 <= i < j < |x.sourceFiles| ==> x.sourceFiles[i] != x.sourceFiles[j]
  {
    hide OfFunction;
    assert !ModuleFault(x, rules, ModuleIssue(0, Issue(1001, 0)));
    assert !ModuleFault(x, rules, ModuleIssue(0, Issue(1060, 0)));
    assert !ModuleFault(x, rules, ModuleIssue(0, Issue(1061, 0)));
    forall i | 0 <= i < |x.sourceFiles|
      ensures rules.isNormalizedPath(x.sourceFiles[i])
      ensures forall j :: 0 <= j < i ==> x.sourceFiles[j] != x.sourceFiles[i]
    {
      assert !SourceFault(rules, x.sourceFiles, i, Issue(1060, 0));
      assert !SourceFault(rules, x.sourceFiles, i, Issue(1061, 0));
    }
  }

  /** In an accepted module every assignment, at any depth, goes to its nearest definition, which can
      be assigned to and has the type of the value. */
  lemma AssignmentsAreSound(x: Module, rules: Rules, i: nat, p: Place)
    requires ModuleIssues(x, rules) == [] && i < |x.functions| && p in FunctionPlaces(x.functions[i])
    requires p.AtStatement? && p.statement.Assign?
    ensures exists d ::
      && Refers(Around(x, rules), p.defs, p.statement.destination.id, d)
      && d.mutableBinding && d.declared == p.statement.value.valueType
  {
    hide ModuleIssues, FunctionPlaces, SoundHead, Refers;
    AcceptedIffSound(x, rules);
    assert Sound(Around(x, rules), p);
  }
}
