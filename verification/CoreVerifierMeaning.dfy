/** What the issues of the Core verifier mean (Talac/Core/Verifier.cpp): a judgement over the places
    of a program, each with the definitions that surround it, stated without any report. */
module CoreVerifierMeaning {
  import opened Wrappers
  import opened TypeIdentity
  import opened CoreScalars
  import opened WireLiterals
  import opened CoreVerifier
  import FallThrough

  // ---------------------------------------------------------------------------
  // Definitions around a place

  /** A symbol with the definition it gets, in the order of the text: the innermost is last. */
  datatype Introduction = Introduction(id: nat, definition: Definition)

  type Definitions = seq<Introduction>

  /** The checks and the functions of a module. */
  datatype Surroundings = Surroundings(rules: Rules, functions: seq<Function>)

  /** The last definition of id is d. */
  ghost predicate Nearest(defs: Definitions, id: nat, d: Definition) {
    exists i :: 0 <= i < |defs| && defs[i] == Introduction(id, d) && forall j :: i < j < |defs| ==> defs[j].id != id
  }

  ghost predicate Local(defs: Definitions, id: nat) {
    exists i :: 0 <= i < |defs| && defs[i].id == id
  }

  ghost predicate IsFunction(functions: seq<Function>, id: nat) {
    exists k :: 0 <= k < |functions| && functions[k].symbol.id == id
  }

  /** The type of a callable: its parameter types and then its result. */
  predicate IsCallableType(t: Type, parameters: seq<Parameter>, result: Type) {
    && t.kind == FUNCTION && t.name == [] && t.arguments == [] && t.variable == NO_SYMBOL
    && |t.components| == |parameters| + 1 && t.components[|parameters|] == result
    && forall i :: 0 <= i < |parameters| ==> t.components[i] == parameters[i].declared
  }

  /** The first function with the symbol; a function cannot be assigned to. */
  ghost predicate NamesFunction(functions: seq<Function>, id: nat, d: Definition) {
    exists k ::
      && 0 <= k < |functions| && functions[k].symbol.id == id
      && (forall j :: 0 <= j < k ==> functions[j].symbol.id != id)
      && IsCallableType(d.declared, functions[k].parameters, functions[k].returnType)
      && !d.mutableBinding && d.spelling == functions[k].symbol.spelling
  }

  /** What a symbol stands for: its nearest definition, or else a function. */
  ghost predicate Refers(k: Surroundings, defs: Definitions, id: nat, d: Definition) {
    Nearest(defs, id, d) || (!Local(defs, id) && NamesFunction(k.functions, id, d))
  }

  ghost predicate Unknown(k: Surroundings, defs: Definitions, id: nat) {
    !Local(defs, id) && !IsFunction(k.functions, id)
  }

  // ---------------------------------------------------------------------------
  // Places

  datatype Place =
    | AtExpression(expression: Expression, defs: Definitions)
    | AtStatement(statement: Statement, defs: Definitions, result: Type, transfers: FallThrough.TransferScope)

  /** A parameter and a let cannot be assigned to; what a closure captures can. */
  function ParameterDefinitions(parameters: seq<Parameter>): Definitions {
    if parameters == [] then []
    else
      var p := parameters[|parameters| - 1];
      ParameterDefinitions(parameters[..|parameters| - 1])
      + [Introduction(p.symbol.id, Definition(p.declared, false, p.symbol.spelling))]
  }

  function CaptureDefinitions(captures: seq<Capture>): Definitions {
    if captures == [] then []
    else
      var c := captures[|captures| - 1];
      CaptureDefinitions(captures[..|captures| - 1])
      + if c.value.None? then [] else [Introduction(c.symbol.id, Definition(c.declared, true, c.symbol.spelling))]
  }

  function LetDefinition(symbol: SymbolName, declared: Type): Introduction {
    Introduction(symbol.id, Definition(declared, false, symbol.spelling))
  }

  /** Only a binding defines something for the statements after it. */
  function Introduced(s: Statement): Definitions {
    match s
    case Bind(b) => [Introduction(b.symbol.id, Definition(b.declared, b.mutableBinding, b.symbol.spelling))]
    case _ => []
  }

  /** Every expression and statement inside an expression, with the definitions that surround it. */
  function ExpressionPlaces(e: Expression, defs: Definitions): set<Place>
    decreases e, 1
  {
    {AtExpression(e, defs)} + NodePlaces(e, defs)
  }

  function NodePlaces(e: Expression, defs: Definitions): set<Place>
    decreases e, 0
  {
    match e.node
    case Variable(_) => {}
    case Constant(_) => {}
    case Apply(callee, arguments) =>
      if callee.None? then {} else ExpressionPlaces(callee.value, defs) + OperandsPlaces(arguments, defs)
    case Primitive(_, operands) => OperandsPlaces(operands, defs)
    case Closure(captures, parameters, returnType, body) =>
      if body.Missing? then {}
      else
        CapturesPlaces(captures, defs)
        + StatementsPlaces(body.statements, defs + CaptureDefinitions(captures) + ParameterDefinitions(parameters),
            returnType, FallThrough.OutsideLoop)
    case Let(symbol, declared, value, body) =>
      if value.None? || body.None? then {}
      else ExpressionPlaces(value.value, defs) + ExpressionPlaces(body.value, defs + [LetDefinition(symbol, declared)])
    case Conditional(choices) => if |choices| != 3 then {} else OperandsPlaces(choices, defs)
  }

  function OperandsPlaces(s: seq<Expression>, defs: Definitions): set<Place>
    decreases s
  {
    if s == [] then {} else ExpressionPlaces(s[0], defs) + OperandsPlaces(s[1..], defs)
  }

  function CapturesPlaces(captures: seq<Capture>, defs: Definitions): set<Place>
    decreases captures
  {
    if captures == [] then {} else CapturePlaces(captures[0], defs) + CapturesPlaces(captures[1..], defs)
  }

  function CapturePlaces(capture: Capture, defs: Definitions): set<Place>
    decreases capture
  {
    if capture.value.None? then {} else ExpressionPlaces(capture.value.value, defs)
  }

  function StatementsPlaces(s: seq<Statement>, defs: Definitions, result: Type,
      transfers: FallThrough.TransferScope): set<Place>
    decreases s
  {
    if s == [] then {}
    else
      StatementPlaces(s[0], defs, result, transfers)
      + StatementsPlaces(s[1..], defs + Introduced(s[0]), result, transfers)
  }

  function StatementPlaces(s: Statement, defs: Definitions, result: Type,
      transfers: FallThrough.TransferScope): set<Place>
    decreases s, 1
  {
    {AtStatement(s, defs, result, transfers)} + InnerPlaces(s, defs, result, transfers)
  }

  function InnerPlaces(s: Statement, defs: Definitions, result: Type, transfers: FallThrough.TransferScope): set<Place>
    decreases s, 0
  {
    match s
    case Bind(b) => ExpressionPlaces(b.value, defs)
    case Assign(_, value) => ExpressionPlaces(value, defs)
    case Return(value) => ExpressionPlaces(value, defs)
    case Evaluate(value) => ExpressionPlaces(value, defs)
    case If(condition, whenTrue, whenFalse) =>
      ExpressionPlaces(condition, defs)
      + (StatementsPlaces(whenTrue, defs, result, transfers) + StatementsPlaces(whenFalse, defs, result, transfers))
    case Loop(kind, condition, body, update) =>
      ExpressionPlaces(condition, defs)
      + (StatementsPlaces(body, defs, result, FallThrough.InLoopBody)
         + if kind.For? then StatementsPlaces(update, defs, result, FallThrough.InForUpdate) else {})
    case Break => {}
    case Continue => {}
  }

  // ---------------------------------------------------------------------------
  // What is wrong at a place

  /** A truth value or a number. */
  predicate IsTestable(t: Type) {
    t.kind == 1 || 3 <= t.kind <= 16
  }

  ghost predicate VariableFault(k: Surroundings, symbol: SymbolName, valueType: Type, defs: Definitions, issue: Issue) {
    && issue.symbol == symbol.id
    && match issue.code
       case 1019 => symbol.id == 0
       case 1020 => Unknown(k, defs, symbol.id)
       case 1021 => exists d :: Refers(k, defs, symbol.id, d) && d.declared != valueType
       case 1030 =>
         exists d ::
           Refers(k, defs, symbol.id, d) && symbol.spelling != [] && d.spelling != [] && symbol.spelling != d.spelling
       case _ => false
  }

  predicate CallFault(calleeType: Type, arguments: seq<Expression>, valueType: Type, issue: Issue) {
    && issue.symbol == 0
    && if calleeType.kind != FUNCTION || calleeType.components == [] then issue.code == 1025
       else
         var count := |calleeType.components| - 1;
         match issue.code
         case 1022 => |arguments| != count
         case 1023 =>
           exists i :: 0 <= i < count && i < |arguments| && calleeType.components[i] != arguments[i].valueType
         case 1024 => calleeType.components[count] != valueType
         case _ => false
  }

  ghost predicate CaptureFault(k: Surroundings, captures: seq<Capture>, i: nat, issue: Issue)
    requires i < |captures|
  {
    var c := captures[i];
    || issue in k.rules.typeIssues(1034, c.declared)
    || issue in k.rules.captureModeIssues(c)
    || (&& issue.symbol == c.symbol.id
        && match issue.code
           case 1033 => c.symbol.id == 0
           case 1035 => c.value.None?
           case 1036 => c.value.Some? && c.declared != c.value.value.valueType
           case 1037 =>
             c.value.Some? && exists j :: 0 <= j < i && captures[j].value.Some? && captures[j].symbol.id == c.symbol.id
           case _ => false)
  }

  /** Some capture with a value has the symbol. */
  ghost predicate IsCaptured(captures: seq<Capture>, id: nat) {
    exists j :: 0 <= j < |captures| && captures[j].value.Some? && captures[j].symbol.id == id
  }

  ghost predicate ParameterFault(k: Surroundings, captures: seq<Capture>, parameters: seq<Parameter>, i: nat,
      issue: Issue)
    requires i < |parameters|
  {
    var p := parameters[i];
    || issue in k.rules.typeIssues(1039, p.declared)
    || (p.symbol.id == 0 && issue == Issue(1038, 0))
    || (issue == Issue(1037, p.symbol.id)
        && (IsCaptured(captures, p.symbol.id) || exists j :: 0 <= j < i && parameters[j].symbol.id == p.symbol.id))
  }

  ghost predicate ClosureFault(k: Surroundings, e: Expression, issue: Issue)
    requires e.node.Closure?
  {
    var n := e.node;
    if n.closureBody.Missing? then issue == Issue(1031, 0)
    else
      || issue in k.rules.typeIssues(1032, n.returnType)
      || (exists i :: 0 <= i < |n.captures| && CaptureFault(k, n.captures, i, issue))
      || (exists i :: 0 <= i < |n.parameters| && ParameterFault(k, n.captures, n.parameters, i, issue))
      || (issue == Issue(1041, 0) && !IsCallableType(e.valueType, n.parameters, n.returnType))
      || (issue == Issue(1042, 0) && n.returnType != UNIT && !FallThrough.NeverFalls(Shapes(n.closureBody.statements)))
  }

  predicate LetFault(e: Expression, issue: Issue)
    requires e.node.Let?
  {
    var n := e.node;
    match issue.code
    case 1045 => n.letSymbol.id == 0 && issue.symbol == 0
    case 1047 => (n.letValue.None? || n.letBody.None?) && issue.symbol == 0
    case 1048 => n.letValue.Some? && n.letBody.Some? && n.letType != n.letValue.value.valueType && issue.symbol == 0
    case 1049 => n.letValue.Some? && n.letBody.Some? && e.valueType != n.letBody.value.valueType && issue.symbol == 0
    case _ => false
  }

  predicate ConditionalFault(e: Expression, issue: Issue)
    requires e.node.Conditional?
  {
    var s := e.node.choices;
    && issue.symbol == 0
    && if |s| != 3 then issue.code == 1071
       else
         match issue.code
         case 1067 => !IsTestable(s[0].valueType)
         case 1068 => e.valueType != s[1].valueType
         case 1069 => e.valueType != s[2].valueType
         case 1070 => !IsTestable(e.valueType)
         case _ => false
  }

  ghost predicate NodeFault(k: Surroundings, e: Expression, defs: Definitions, issue: Issue) {
    match e.node
    case Variable(symbol) => VariableFault(k, symbol, e.valueType, defs, issue)
    case Constant(literal) => !Accepts(literal, e.valueType) && issue == Issue(1029, 0)
    case Apply(callee, arguments) =>
      if callee.None? then issue == Issue(1025, 0) else CallFault(callee.value.valueType, arguments, e.valueType, issue)
    case Primitive(_, _) => issue in k.rules.primitiveIssues(e)
    case Closure(_, _, _, _) => ClosureFault(k, e, issue)
    case Let(_, declared, _, _) => issue in k.rules.typeIssues(1046, declared) || LetFault(e, issue)
    case Conditional(_) => ConditionalFault(e, issue)
  }

  ghost predicate StatementFault(k: Surroundings, s: Statement, defs: Definitions, result: Type,
      transfers: FallThrough.TransferScope, issue: Issue) {
    match s
    case Bind(b) =>
      || issue in k.rules.typeIssues(1009, b.declared)
      || (&& issue.symbol == b.symbol.id
          && match issue.code
             case 1008 => b.symbol.id == 0
             case 1010 => !Unknown(k, defs, b.symbol.id)
             case 1011 => b.declared != b.value.valueType
             case _ => false)
    case Assign(destination, value) =>
      && issue.symbol == destination.id
      && (match issue.code
          case 1012 => Unknown(k, defs, destination.id)
          case 1013 => exists d :: Refers(k, defs, destination.id, d) && !d.mutableBinding
          case 1014 =>
            exists d :: Refers(k, defs, destination.id, d) && d.mutableBinding && d.declared != value.valueType
          case 1015 => destination.id == 0
          case _ => false)
    case Return(value) => result != value.valueType && issue == Issue(1016, 0)
    case If(condition, _, _) => !IsTestable(condition.valueType) && issue == Issue(1017, 0)
    case Loop(_, condition, _, _) => !IsTestable(condition.valueType) && issue == Issue(1017, 0)
    case Evaluate(_) => false
    case Break => transfers == FallThrough.OutsideLoop && issue == Issue(1064, 0)
    case Continue =>
      || (transfers == FallThrough.OutsideLoop && issue == Issue(1065, 0))
      || (transfers == FallThrough.InForUpdate && issue == Issue(1066, 0))
  }

  ghost predicate FaultAt(k: Surroundings, p: Place, issue: Issue) {
    match p
    case AtExpression(e, defs) => issue in k.rules.typeIssues(1018, e.valueType) || NodeFault(k, e, defs, issue)
    case AtStatement(s, defs, result, transfers) => StatementFault(k, s, defs, result, transfers, issue)
  }

  ghost predicate Among(k: Surroundings, places: set<Place>, issue: Issue) {
    exists p :: p in places && FaultAt(k, p, issue)
  }

  lemma AmongBoth(k: Surroundings, a: set<Place>, b: set<Place>, issue: Issue)
    ensures Among(k, a + b, issue) <==> Among(k, a, issue) || Among(k, b, issue)
  {
    hide FaultAt;
    if p :| p in a && FaultAt(k, p, issue) {
      assert p in a + b;
    }
    if p :| p in b && FaultAt(k, p, issue) {
      assert p in a + b;
    }
  }

  lemma AmongOne(k: Surroundings, p: Place, issue: Issue)
    ensures Among(k, {p}, issue) <==> FaultAt(k, p, issue)
    ensures !Among(k, {}, issue)
  {
    hide FaultAt;
    if FaultAt(k, p, issue) {
      assert p in {p};
    }
  }

  // ---------------------------------------------------------------------------
  // Scopes

  /** A flat scope holds the nearest definition of every symbol. */
  ghost predicate Flattens(scope: Scope, defs: Definitions) {
    forall id: nat :: (id in scope <==> Local(defs, id)) && (id in scope ==> Nearest(defs, id, scope[id]))
  }

  function ContextOf(k: Surroundings): Context {
    Context(k.rules, Declared(k.functions))
  }

  lemma NearestIsOne(defs: Definitions, id: nat, d: Definition, e: Definition)
    requires Nearest(defs, id, d) && Nearest(defs, id, e)
    ensures d == e
  {
    var i :| 0 <= i < |defs| && defs[i] == Introduction(id, d) && forall j :: i < j < |defs| ==> defs[j].id != id;
    var k :| 0 <= k < |defs| && defs[k] == Introduction(id, e) && forall j :: k < j < |defs| ==> defs[j].id != id;
    assert i == k;
  }

  lemma FlattensOne(scope: Scope, defs: Definitions, x: Introduction)
    requires Flattens(scope, defs)
    ensures Flattens(scope[x.id := x.definition], defs + [x])
  {
    var more := defs + [x];
    assert more[|defs|] == x && forall i :: 0 <= i < |defs| ==> more[i] == defs[i];
    forall id: nat
      ensures id in scope[x.id := x.definition] <==> Local(more, id)
      ensures id in scope[x.id := x.definition] ==> Nearest(more, id, scope[x.id := x.definition][id])
    {
      if id == x.id {
        assert Local(more, id) && Nearest(more, id, x.definition);
      } else {
        OtherStays(defs, x, id);
        if id in scope {
          NearestStays(defs, x, id, scope[id]);
        }
      }
    }
  }

  lemma OtherStays(defs: Definitions, x: Introduction, id: nat)
    requires id != x.id
    ensures Local(defs + [x], id) <==> Local(defs, id)
  {
    var more := defs + [x];
    if i :| 0 <= i < |defs| && defs[i].id == id {
      assert more[i].id == id;
    }
  }

  lemma NearestStays(defs: Definitions, x: Introduction, id: nat, d: Definition)
    requires id != x.id && Nearest(defs, id, d)
    ensures Nearest(defs + [x], id, d)
  {
    var more := defs + [x];
    var i :| 0 <= i < |defs| && defs[i] == Introduction(id, d) && forall j :: i < j < |defs| ==> defs[j].id != id;
    assert more[i] == defs[i];
  }

  lemma {:induction false} FlattensParameters(scope: Scope, defs: Definitions, parameters: seq<Parameter>)
    requires Flattens(scope, defs)
    ensures Flattens(WithParameters(parameters, scope), defs + ParameterDefinitions(parameters))
    decreases |parameters|
  {
    hide Flattens;
    if parameters == [] {
      assert defs + [] == defs;
    } else {
      var n := |parameters| - 1;
      var p := parameters[n];
      var x := Introduction(p.symbol.id, Definition(p.declared, false, p.symbol.spelling));
      FlattensParameters(scope, defs, parameters[..n]);
      FlattensOne(WithParameters(parameters[..n], scope), defs + ParameterDefinitions(parameters[..n]), x);
      assert defs + (ParameterDefinitions(parameters[..n]) + [x]) == defs + ParameterDefinitions(parameters[..n]) + [x];
    }
  }

  lemma {:induction false} FlattensCaptures(scope: Scope, defs: Definitions, captures: seq<Capture>)
    requires Flattens(scope, defs)
    ensures Flattens(WithCaptures(captures, scope), defs + CaptureDefinitions(captures))
    decreases |captures|
  {
    hide Flattens;
    if captures == [] {
      assert defs + [] == defs;
    } else {
      var n := |captures| - 1;
      var c := captures[n];
      var before := CaptureDefinitions(captures[..n]);
      FlattensCaptures(scope, defs, captures[..n]);
      if c.value.Some? {
        var x := Introduction(c.symbol.id, Definition(c.declared, true, c.symbol.spelling));
        FlattensOne(WithCaptures(captures[..n], scope), defs + before, x);
        assert defs + (before + [x]) == defs + before + [x];
      } else {
        assert before + [] == before;
      }
    }
  }

  lemma FlattensAfter(scope: Scope, defs: Definitions, s: Statement)
    requires Flattens(scope, defs)
    ensures Flattens(After(s, scope), defs + Introduced(s))
  {
    hide Flattens;
    if s.Bind? {
      var b := s.binding;
      FlattensOne(scope, defs, Introduction(b.symbol.id, Definition(b.declared, b.mutableBinding, b.symbol.spelling)));
    } else {
      assert defs + [] == defs;
    }
  }

  lemma CallableTypeIs(t: Type, parameters: seq<Parameter>, result: Type)
    ensures IsCallableType(t, parameters, result) <==> t == FunctionType(parameters, result)
  {
    var made := FunctionType(parameters, result);
    if IsCallableType(t, parameters, result) {
      assert t.components == made.components;
    }
  }

  lemma {:induction false} DeclaredMeaning(functions: seq<Function>, id: nat)
    ensures id in Declared(functions) <==> IsFunction(functions, id)
    ensures id in Declared(functions) ==> NamesFunction(functions, id, Declared(functions)[id])
    decreases |functions|
  {
    hide IsFunction, NamesFunction, FunctionType;
    if functions == [] {
      NoFunction(id);
    } else {
      var n := |functions| - 1;
      var f, before := functions[n], functions[..n];
      assert before + [f] == functions;
      DeclaredMeaning(before, id);
      IsFunctionStep(before, f, id);
      if id in Declared(before) {
        NamesFunctionStays(before, f, id, Declared(before)[id]);
      } else if f.symbol.id == id {
        NamesNewFunction(before, f);
      }
    }
  }

  lemma NoFunction(id: nat)
    ensures !IsFunction([], id)
  {
  }

  lemma IsFunctionStep(before: seq<Function>, f: Function, id: nat)
    ensures IsFunction(before + [f], id) <==> IsFunction(before, id) || f.symbol.id == id
  {
    var more := before + [f];
    assert more[|before|] == f && forall i :: 0 <= i < |before| ==> more[i] == before[i];
    if i :| 0 <= i < |before| && before[i].symbol.id == id {
      assert more[i].symbol.id == id;
    }
  }

  lemma NamesNewFunction(before: seq<Function>, f: Function)
    requires !IsFunction(before, f.symbol.id)
    ensures NamesFunction(before + [f], f.symbol.id,
      Definition(FunctionType(f.parameters, f.returnType), false, f.symbol.spelling))
  {
    hide IsCallableType, FunctionType;
    CallableTypeIs(FunctionType(f.parameters, f.returnType), f.parameters, f.returnType);
    var more := before + [f];
    assert more[|before|] == f && forall i :: 0 <= i < |before| ==> more[i] == before[i];
  }

  lemma NamesFunctionStays(before: seq<Function>, f: Function, id: nat, d: Definition)
    requires NamesFunction(before, id, d)
    ensures NamesFunction(before + [f], id, d)
  {
    hide IsCallableType;
    var k :| 0 <= k < |before| && before[k].symbol.id == id && (forall j :: 0 <= j < k ==> before[j].symbol.id != id)
      && IsCallableType(d.declared, before[k].parameters, before[k].returnType)
      && !d.mutableBinding && d.spelling == before[k].symbol.spelling;
    assert (before + [f])[k] == before[k];
  }

  lemma NamesOneFunction(functions: seq<Function>, id: nat, d: Definition, e: Definition)
    requires NamesFunction(functions, id, d) && NamesFunction(functions, id, e)
    ensures d == e && IsFunction(functions, id)
  {
    hide IsCallableType;
    var i :| 0 <= i < |functions| && functions[i].symbol.id == id
      && (forall j :: 0 <= j < i ==> functions[j].symbol.id != id)
      && IsCallableType(d.declared, functions[i].parameters, functions[i].returnType)
      && !d.mutableBinding && d.spelling == functions[i].symbol.spelling;
    var k :| 0 <= k < |functions| && functions[k].symbol.id == id
      && (forall j :: 0 <= j < k ==> functions[j].symbol.id != id)
      && IsCallableType(e.declared, functions[k].parameters, functions[k].returnType)
      && !e.mutableBinding && e.spelling == functions[k].symbol.spelling;
    assert i == k;
    CallableTypeIs(d.declared, functions[i].parameters, functions[i].returnType);
    CallableTypeIs(e.declared, functions[k].parameters, functions[k].returnType);
  }

  /** Looking a symbol up finds what it refers to, and nothing exactly when it is unknown. */
  lemma FoundMeaning(k: Surroundings, scope: Scope, defs: Definitions, id: nat)
    requires Flattens(scope, defs)
    ensures Found(ContextOf(k), scope, id) == None <==> Unknown(k, defs, id)
    ensures Found(ContextOf(k), scope, id) == None ==> forall d :: !Refers(k, defs, id, d)
    ensures forall d :: Found(ContextOf(k), scope, id) == Some(d) <==> Refers(k, defs, id, d)
  {
    hide Nearest, Local, NamesFunction, IsFunction, Declared;
    DeclaredMeaning(k.functions, id);
    forall d
      ensures Found(ContextOf(k), scope, id) == Some(d) <==> Refers(k, defs, id, d)
    {
      if id in scope {
        if Nearest(defs, id, d) {
          NearestIsOne(defs, id, d, scope[id]);
        }
      } else {
        if Nearest(defs, id, d) {
          NearestIsLocal(defs, id, d);
          assert false;
        }
        if NamesFunction(k.functions, id, d) {
          FunctionIsDeclared(k.functions, id, d);
        }
      }
    }
  }

  lemma NearestIsLocal(defs: Definitions, id: nat, d: Definition)
    requires Nearest(defs, id, d)
    ensures Local(defs, id)
  {
  }

  lemma FunctionIsDeclared(functions: seq<Function>, id: nat, d: Definition)
    requires NamesFunction(functions, id, d)
    ensures id in Declared(functions) && Declared(functions)[id] == d
  {
    hide Declared;
    DeclaredMeaning(functions, id);
    NamesOneFunction(functions, id, d, d);
    NamesOneFunction(functions, id, d, Declared(functions)[id]);
  }

  // ---------------------------------------------------------------------------
  // Reports at one place

  lemma TestableIs(t: Type)
    ensures AcceptsBooleanContext(t) <==> IsTestable(t)
  {
  }

  lemma VariableMeaning(k: Surroundings, symbol: SymbolName, valueType: Type, scope: Scope, defs: Definitions,
      r: Report, issue: Issue)
    requires Flattens(scope, defs)
    ensures issue in VariableReport(ContextOf(k), symbol, valueType, scope, r) <==>
      issue in r || VariableFault(k, symbol, valueType, defs, issue)
  {
    hide Refers, Unknown, Flattens, Found;
    FoundMeaning(k, scope, defs, symbol.id);
    var found := Found(ContextOf(k), scope, symbol.id);
    if found.Some? {
      assert Refers(k, defs, symbol.id, found.value);
    }
  }

  lemma {:induction false} ComparedMeaning(components: seq<Type>, arguments: seq<Expression>, r: Report, issue: Issue)
    ensures issue in ComparedReport(components, arguments, r) <==>
      issue in r || (issue == Issue(1023, 0) && exists i ::
        0 <= i < |components| && i < |arguments| && components[i] != arguments[i].valueType)
    decreases |components|
  {
    if components != [] && arguments != [] {
      var first := When(components[0] != arguments[0].valueType, 1023, 0, r);
      ComparedMeaning(components[1..], arguments[1..], first, issue);
      if i :| 0 <= i < |components| && i < |arguments| && components[i] != arguments[i].valueType && i > 0 {
        assert components[1..][i - 1] != arguments[1..][i - 1].valueType;
      }
    }
  }

  lemma CallMeaning(calleeType: Type, arguments: seq<Expression>, valueType: Type, r: Report, issue: Issue)
    ensures issue in CallReport(calleeType, arguments, valueType, r) <==>
      issue in r || CallFault(calleeType, arguments, valueType, issue)
  {
    if calleeType.kind == FUNCTION && calleeType.components != [] {
      var count := |calleeType.components| - 1;
      var parameters := calleeType.components[..count];
      var counted := When(count != |arguments|, 1022, 0, r);
      ComparedMeaning(parameters, arguments, counted, issue);
      assert forall i :: 0 <= i < count ==> parameters[i] == calleeType.components[i];
    }
  }

  lemma AssignmentMeaning(k: Surroundings, destination: SymbolName, value: Expression, scope: Scope, defs: Definitions,
      result: Type, transfers: FallThrough.TransferScope, r: Report, issue: Issue)
    requires Flattens(scope, defs)
    requires destination.id == 0 ==> Issue(1015, 0) in r
    ensures issue in AssignmentReport(ContextOf(k), destination, value.valueType, scope, r) <==>
      issue in r || StatementFault(k, Assign(destination, value), defs, result, transfers, issue)
  {
    hide Refers, Unknown, Flattens, Found;
    FoundMeaning(k, scope, defs, destination.id);
    var found := Found(ContextOf(k), scope, destination.id);
    if found.Some? {
      assert Refers(k, defs, destination.id, found.value);
    }
  }

  // ---------------------------------------------------------------------------
  // Closures at one place

  lemma {:induction false} CapturedMeaning(captures: seq<Capture>, id: nat)
    ensures id in Captured(captures) <==> IsCaptured(captures, id)
    decreases |captures|
  {
    if captures != [] {
      var n := |captures| - 1;
      CapturedMeaning(captures[..n], id);
      assert forall i :: 0 <= i < n ==> captures[..n][i] == captures[i];
      if captures[n].value.Some? && captures[n].symbol.id == id {
        assert IsCaptured(captures, id);
      }
    }
  }

  /** The symbols seen before a parameter: those captured, and those of the parameters before it. */
  ghost predicate SeenBefore(captures: seq<Capture>, before: seq<Parameter>, seen: set<nat>) {
    forall id: nat :: id in seen <==>
      IsCaptured(captures, id) || exists j :: 0 <= j < |before| && before[j].symbol.id == id
  }

  lemma SeenNext(captures: seq<Capture>, before: seq<Parameter>, seen: set<nat>, p: Parameter)
    requires SeenBefore(captures, before, seen)
    ensures SeenBefore(captures, before + [p], seen + {p.symbol.id})
  {
    hide IsCaptured;
    var more := before + [p];
    assert more[|before|] == p && forall j :: 0 <= j < |before| ==> more[j] == before[j];
    forall id: nat
      ensures id in seen + {p.symbol.id} <==>
        IsCaptured(captures, id) || exists j :: 0 <= j < |more| && more[j].symbol.id == id
    {
      if j :| 0 <= j < |before| && before[j].symbol.id == id {
        assert more[j].symbol.id == id;
      }
    }
  }

  lemma ParameterMeaning(k: Surroundings, captures: seq<Capture>, before: seq<Parameter>, p: Parameter,
      rest: seq<Parameter>, seen: set<nat>, r: Report, issue: Issue)
    requires SeenBefore(captures, before, seen)
    ensures
      var typed := CheckedType(ContextOf(k), p.declared, 1039, CheckedSymbol(p.symbol, 1038, r));
      issue in When(p.symbol.id in seen, 1037, p.symbol.id, typed) <==>
        issue in r || ParameterFault(k, captures, before + ([p] + rest), |before|, issue)
  {
    hide IsCaptured;
    var all := before + ([p] + rest);
    assert all[|before|] == p && forall j :: 0 <= j < |before| ==> all[j] == before[j];
  }

  lemma {:induction false} ParametersMeaning(k: Surroundings, captures: seq<Capture>, before: seq<Parameter>,
      rest: seq<Parameter>, seen: set<nat>, r: Report, issue: Issue)
    requires SeenBefore(captures, before, seen)
    ensures issue in ParametersReport(ContextOf(k), rest, seen, r) <==>
      issue in r || exists i ::
        |before| <= i < |before + rest| && ParameterFault(k, captures, before + rest, i, issue)
    decreases |rest|
  {
    hide ParameterFault, SeenBefore, CheckedType, CheckedSymbol;
    if rest != [] {
      var p, later := rest[0], rest[1..];
      var typed := CheckedType(ContextOf(k), p.declared, 1039, CheckedSymbol(p.symbol, 1038, r));
      assert rest == [p] + later && before + rest == before + [p] + later;
      ParameterMeaning(k, captures, before, p, later, seen, r, issue);
      SeenNext(captures, before, seen, p);
      ParametersMeaning(k, captures, before + [p], later, seen + {p.symbol.id},
        When(p.symbol.id in seen, 1037, p.symbol.id, typed), issue);
    }
  }

  // ---------------------------------------------------------------------------
  // Reports of a region are the faults of its places

  lemma {:induction false} ExpressionMeaning(k: Surroundings, e: Expression, scope: Scope, defs: Definitions, r: Report,
      issue: Issue)
    requires Flattens(scope, defs)
    ensures issue in ExpressionReport(ContextOf(k), e, scope, r) <==>
      issue in r || Among(k, ExpressionPlaces(e, defs), issue)
    decreases e, 2
  {
    hide Among, NodePlaces, NodeReport, Flattens, NodeFault;
    var typed := CheckedType(ContextOf(k), e.valueType, 1018, r);
    NodeMeaning(k, e, scope, defs, typed, issue);
    AmongBoth(k, {AtExpression(e, defs)}, NodePlaces(e, defs), issue);
    AmongOne(k, AtExpression(e, defs), issue);
  }

  lemma {:induction false} NodeMeaning(k: Surroundings, e: Expression, scope: Scope, defs: Definitions, r: Report,
      issue: Issue)
    requires Flattens(scope, defs)
    ensures issue in NodeReport(ContextOf(k), e, scope, r) <==>
      issue in r || NodeFault(k, e, defs, issue) || Among(k, NodePlaces(e, defs), issue)
    decreases e, 1
  {
    hide Among, Flattens, VariableReport, VariableFault, OperandsReport, OperandsPlaces;
    AmongOne(k, AtExpression(e, defs), issue);
    match e.node
    case Variable(symbol) => VariableMeaning(k, symbol, e.valueType, scope, defs, r, issue);
    case Constant(literal) =>
    case Apply(_, _) => ApplyMeaning(k, e, scope, defs, r, issue);
    case Primitive(_, operands) => OperandsMeaning(k, operands, scope, defs, r, issue);
    case Closure(_, _, _, _) => ClosureMeaning(k, e, scope, defs, r, issue);
    case Let(_, _, _, _) => LetMeaning(k, e, scope, defs, r, issue);
    case Conditional(_) => ConditionalMeaning(k, e, scope, defs, r, issue);
  }

  lemma {:induction false} OperandsMeaning(k: Surroundings, s: seq<Expression>, scope: Scope, defs: Definitions,
      r: Report, issue: Issue)
    requires Flattens(scope, defs)
    ensures issue in OperandsReport(ContextOf(k), s, scope, r) <==>
      issue in r || Among(k, OperandsPlaces(s, defs), issue)
    decreases s
  {
    hide Among, Flattens, ExpressionReport, ExpressionPlaces;
    if s == [] {
      NothingAmong(k, issue);
    } else {
      ExpressionMeaning(k, s[0], scope, defs, r, issue);
      OperandsMeaning(k, s[1..], scope, defs, ExpressionReport(ContextOf(k), s[0], scope, r), issue);
      AmongBoth(k, ExpressionPlaces(s[0], defs), OperandsPlaces(s[1..], defs), issue);
    }
  }

  lemma NothingAmong(k: Surroundings, issue: Issue)
    ensures !Among(k, {}, issue)
  {
  }

  lemma {:induction false} ApplyMeaning(k: Surroundings, e: Expression, scope: Scope, defs: Definitions, r: Report,
      issue: Issue)
    requires e.node.Apply? && Flattens(scope, defs)
    ensures issue in NodeReport(ContextOf(k), e, scope, r) <==>
      issue in r || NodeFault(k, e, defs, issue) || Among(k, NodePlaces(e, defs), issue)
    decreases e, 0
  {
    hide Among, Flattens, ExpressionReport, ExpressionPlaces, OperandsReport, OperandsPlaces, CallReport, CallFault;
    NothingAmong(k, issue);
    var c := ContextOf(k);
    var callee, arguments := e.node.callee, e.node.arguments;
    if callee.Some? {
      var called := ExpressionReport(c, callee.value, scope, r);
      ExpressionMeaning(k, callee.value, scope, defs, r, issue);
      OperandsMeaning(k, arguments, scope, defs, called, issue);
      CallMeaning(callee.value.valueType, arguments, e.valueType, OperandsReport(c, arguments, scope, called), issue);
      AmongBoth(k, ExpressionPlaces(callee.value, defs), OperandsPlaces(arguments, defs), issue);
    }
  }

  lemma {:induction false} LetMeaning(k: Surroundings, e: Expression, scope: Scope, defs: Definitions, r: Report,
      issue: Issue)
    requires e.node.Let? && Flattens(scope, defs)
    ensures issue in NodeReport(ContextOf(k), e, scope, r) <==>
      issue in r || NodeFault(k, e, defs, issue) || Among(k, NodePlaces(e, defs), issue)
    decreases e, 0
  {
    hide Among, Flattens, ExpressionReport, ExpressionPlaces;
    NothingAmong(k, issue);
    var c, n := ContextOf(k), e.node;
    var typed := CheckedType(c, n.letType, 1046, CheckedSymbol(n.letSymbol, 1045, r));
    if n.letValue.Some? && n.letBody.Some? {
      var x := LetDefinition(n.letSymbol, n.letType);
      var valued := When(n.letType != n.letValue.value.valueType, 1048, 0,
          ExpressionReport(c, n.letValue.value, scope, typed));
      ExpressionMeaning(k, n.letValue.value, scope, defs, typed, issue);
      FlattensOne(scope, defs, x);
      ExpressionMeaning(k, n.letBody.value, scope[x.id := x.definition], defs + [x], valued, issue);
      AmongBoth(k, ExpressionPlaces(n.letValue.value, defs), ExpressionPlaces(n.letBody.value, defs + [x]), issue);
    }
  }

  lemma {:induction false} ConditionalMeaning(k: Surroundings, e: Expression, scope: Scope, defs: Definitions,
      r: Report, issue: Issue)
    requires e.node.Conditional? && Flattens(scope, defs)
    ensures issue in NodeReport(ContextOf(k), e, scope, r) <==>
      issue in r || NodeFault(k, e, defs, issue) || Among(k, NodePlaces(e, defs), issue)
    decreases e, 0
  {
    hide Among, Flattens, ExpressionReport, ExpressionPlaces, AcceptsBooleanContext, IsTestable;
    NothingAmong(k, issue);
    var c, s := ContextOf(k), e.node.choices;
    if |s| == 3 {
      var tested := When(!AcceptsBooleanContext(s[0].valueType), 1067, 0, ExpressionReport(c, s[0], scope, r));
      TestableIs(s[0].valueType);
      TestableIs(e.valueType);
      ExpressionMeaning(k, s[0], scope, defs, r, issue);
      ExpressionMeaning(k, s[1], scope, defs, tested, issue);
      ExpressionMeaning(k, s[2], scope, defs, ExpressionReport(c, s[1], scope, tested), issue);
      ThreeOperands(k, s, defs, issue);
    }
  }

  lemma ThreeOperands(k: Surroundings, s: seq<Expression>, defs: Definitions, issue: Issue)
    requires |s| == 3
    ensures Among(k, OperandsPlaces(s, defs), issue) <==>
      || Among(k, ExpressionPlaces(s[0], defs), issue)
      || Among(k, ExpressionPlaces(s[1], defs), issue)
      || Among(k, ExpressionPlaces(s[2], defs), issue)
  {
    hide Among, ExpressionPlaces;
    NothingAmong(k, issue);
    var t := s[1..];
    var u := t[1..];
    assert t[0] == s[1] && u[0] == s[2] && u[1..] == [];
    AmongBoth(k, ExpressionPlaces(s[0], defs), OperandsPlaces(t, defs), issue);
    AmongBoth(k, ExpressionPlaces(t[0], defs), OperandsPlaces(u, defs), issue);
    AmongBoth(k, ExpressionPlaces(u[0], defs), OperandsPlaces([], defs), issue);
  }

  lemma {:induction false} CaptureMeaning(k: Surroundings, before: seq<Capture>, capture: Capture, rest: seq<Capture>,
      scope: Scope, defs: Definitions, r: Report, issue: Issue)
    requires Flattens(scope, defs)
    ensures issue in CaptureReport(ContextOf(k), capture, scope, Captured(before), r) <==>
      || issue in r
      || CaptureFault(k, before + ([capture] + rest), |before|, issue)
      || Among(k, CapturePlaces(capture, defs), issue)
    decreases capture
  {
    hide Among, Flattens, ExpressionReport, ExpressionPlaces, Captured;
    NothingAmong(k, issue);
    var all := before + ([capture] + rest);
    assert all[|before|] == capture && forall j :: 0 <= j < |before| ==> all[j] == before[j];
    CapturedMeaning(before, capture.symbol.id);
    var c := ContextOf(k);
    var typed := CheckedType(c, capture.declared, 1034, CheckedSymbol(capture.symbol, 1033, r));
    var moded := typed + c.rules.captureModeIssues(capture);
    if capture.value.Some? {
      ExpressionMeaning(k, capture.value.value, scope, defs, moded, issue);
    }
  }

  lemma {:induction false} CapturesMeaning(k: Surroundings, before: seq<Capture>, rest: seq<Capture>, scope: Scope,
      defs: Definitions, r: Report, issue: Issue)
    requires Flattens(scope, defs)
    ensures issue in CapturesReport(ContextOf(k), rest, scope, Captured(before), r) <==>
      || issue in r
      || (exists i :: |before| <= i < |before + rest| && CaptureFault(k, before + rest, i, issue))
      || Among(k, CapturesPlaces(rest, defs), issue)
    decreases rest, 0
  {
    hide Among, Flattens, CaptureReport, CapturePlaces, CaptureFault;
    if rest == [] {
      NothingAmong(k, issue);
    } else {
      var first, later := rest[0], rest[1..];
      assert rest == [first] + later && before + rest == before + [first] + later;
      assert (before + [first])[..|before|] == before;
      assert Captured(before + [first]) == WithCaptured(first, Captured(before));
      CaptureMeaning(k, before, first, later, scope, defs, r, issue);
      CapturesMeaning(k, before + [first], later, scope, defs,
        CaptureReport(ContextOf(k), first, scope, Captured(before), r), issue);
      AmongBoth(k, CapturePlaces(first, defs), CapturesPlaces(later, defs), issue);
    }
  }

  lemma {:induction false} ClosureMeaning(k: Surroundings, e: Expression, scope: Scope, defs: Definitions, r: Report,
      issue: Issue)
    requires e.node.Closure? && Flattens(scope, defs)
    ensures issue in NodeReport(ContextOf(k), e, scope, r) <==>
      issue in r || NodeFault(k, e, defs, issue) || Among(k, NodePlaces(e, defs), issue)
    decreases e, 0
  {
    hide Among, Flattens, CapturesReport, CapturesPlaces, ParametersReport, StatementsReport, StatementsPlaces,
        FunctionType, IsCallableType, FallThrough.NeverFalls, CaptureFault, ParameterFault, WithParameters,
        WithCaptures, ParameterDefinitions, CaptureDefinitions, Captured;
    NothingAmong(k, issue);
    var c, n := ContextOf(k), e.node;
    if n.closureBody.Body? {
      var body := n.closureBody.statements;
      var returned := CheckedType(c, n.returnType, 1032, r);
      var captured := CapturesReport(c, n.captures, scope, {}, returned);
      var declared := ParametersReport(c, n.parameters, Captured(n.captures), captured);
      var typed := When(FunctionType(n.parameters, n.returnType) != e.valueType, 1041, 0, declared);
      CapturesFromStart(k, n.captures, scope, defs, returned, issue);
      ParametersFromStart(k, n.captures, n.parameters, captured, issue);
      CallableTypeIs(e.valueType, n.parameters, n.returnType);
      FlattensCaptures(scope, defs, n.captures);
      FlattensParameters(WithCaptures(n.captures, scope), defs + CaptureDefinitions(n.captures), n.parameters);
      var inner := defs + CaptureDefinitions(n.captures) + ParameterDefinitions(n.parameters);
      StatementsMeaning(k, body, WithParameters(n.parameters, WithCaptures(n.captures, scope)), inner, n.returnType,
        FallThrough.OutsideLoop, typed, issue);
      AmongBoth(k, CapturesPlaces(n.captures, defs), StatementsPlaces(body, inner, n.returnType,
        FallThrough.OutsideLoop), issue);
    }
  }

  lemma {:induction false} CapturesFromStart(k: Surroundings, captures: seq<Capture>, scope: Scope, defs: Definitions,
      r: Report, issue: Issue)
    requires Flattens(scope, defs)
    ensures issue in CapturesReport(ContextOf(k), captures, scope, {}, r) <==>
      || issue in r
      || (exists i :: 0 <= i < |captures| && CaptureFault(k, captures, i, issue))
      || Among(k, CapturesPlaces(captures, defs), issue)
    decreases captures, 1
  {
    hide Among, Flattens, CapturesReport, CapturesPlaces, CaptureFault;
    CapturesMeaning(k, [], captures, scope, defs, r, issue);
    assert [] + captures == captures;
  }

  lemma ParametersFromStart(k: Surroundings, captures: seq<Capture>, parameters: seq<Parameter>, r: Report,
      issue: Issue)
    ensures issue in ParametersReport(ContextOf(k), parameters, Captured(captures), r) <==>
      issue in r || exists i :: 0 <= i < |parameters| && ParameterFault(k, captures, parameters, i, issue)
  {
    hide ParametersReport, ParameterFault, Captured, IsCaptured;
    forall id: nat
      ensures id in Captured(captures) <==> IsCaptured(captures, id)
    {
      CapturedMeaning(captures, id);
    }
    ParametersMeaning(k, captures, [], parameters, Captured(captures), r, issue);
    assert [] + parameters == parameters;
  }

  lemma {:induction false} StatementsMeaning(k: Surroundings, s: seq<Statement>, scope: Scope, defs: Definitions,
      result: Type, transfers: FallThrough.TransferScope, r: Report, issue: Issue)
    requires Flattens(scope, defs)
    ensures issue in StatementsReport(ContextOf(k), s, scope, result, transfers, r) <==>
      issue in r || Among(k, StatementsPlaces(s, defs, result, transfers), issue)
    decreases s
  {
    hide Among, Flattens, StatementReport, StatementPlaces, After, Introduced;
    if s == [] {
      NothingAmong(k, issue);
    } else {
      var later := defs + Introduced(s[0]);
      FlattensAfter(scope, defs, s[0]);
      StatementMeaning(k, s[0], scope, defs, result, transfers, r, issue);
      StatementsMeaning(k, s[1..], After(s[0], scope), later, result, transfers,
        StatementReport(ContextOf(k), s[0], scope, result, transfers, r), issue);
      AmongBoth(k, StatementPlaces(s[0], defs, result, transfers), StatementsPlaces(s[1..], later, result, transfers),
        issue);
    }
  }

  lemma {:induction false} StatementMeaning(k: Surroundings, s: Statement, scope: Scope, defs: Definitions,
      result: Type, transfers: FallThrough.TransferScope, r: Report, issue: Issue)
    requires Flattens(scope, defs)
    ensures issue in StatementReport(ContextOf(k), s, scope, result, transfers, r) <==>
      issue in r || Among(k, StatementPlaces(s, defs, result, transfers), issue)
    decreases s, 1
  {
    hide Among, Flattens, StatementReport, InnerPlaces, StatementFault;
    InnerMeaning(k, s, scope, defs, result, transfers, r, issue);
    AmongBoth(k, {AtStatement(s, defs, result, transfers)}, InnerPlaces(s, defs, result, transfers), issue);
    AmongOne(k, AtStatement(s, defs, result, transfers), issue);
  }

  lemma {:induction false} InnerMeaning(k: Surroundings, s: Statement, scope: Scope, defs: Definitions,
      result: Type, transfers: FallThrough.TransferScope, r: Report, issue: Issue)
    requires Flattens(scope, defs)
    ensures issue in StatementReport(ContextOf(k), s, scope, result, transfers, r) <==>
      || issue in r
      || StatementFault(k, s, defs, result, transfers, issue)
      || Among(k, InnerPlaces(s, defs, result, transfers), issue)
    decreases s, 0
  {
    hide Among, Flattens, ExpressionReport, ExpressionPlaces, StatementsReport, StatementsPlaces, ConditionReport,
        AcceptsBooleanContext, IsTestable, AssignmentReport, Found, Unknown, Refers;
    NothingAmong(k, issue);
    var c := ContextOf(k);
    match s
    case Bind(b) =>
      var typed := CheckedType(c, b.declared, 1009, CheckedSymbol(b.symbol, 1008, r));
      ExpressionMeaning(k, b.value, scope, defs, typed, issue);
      FoundMeaning(k, scope, defs, b.symbol.id);
    case Assign(destination, value) =>
      var named := CheckedSymbol(destination, 1015, r);
      ExpressionMeaning(k, value, scope, defs, named, issue);
      ExpressionMeaning(k, value, scope, defs, named, Issue(1015, 0));
      AssignmentMeaning(k, destination, value, scope, defs, result, transfers,
        ExpressionReport(c, value, scope, named), issue);
    case Return(value) => ExpressionMeaning(k, value, scope, defs, r, issue);
    case Evaluate(value) => ExpressionMeaning(k, value, scope, defs, r, issue);
    case If(condition, whenTrue, whenFalse) =>
      var tested := ConditionReport(c, condition, scope, r);
      ConditionMeaning(k, condition, scope, defs, r, issue);
      StatementsMeaning(k, whenTrue, scope, defs, result, transfers, tested, issue);
      StatementsMeaning(k, whenFalse, scope, defs, result, transfers,
        StatementsReport(c, whenTrue, scope, result, transfers, tested), issue);
      var a, b := StatementsPlaces(whenTrue, defs, result, transfers), StatementsPlaces(whenFalse, defs, result,
          transfers);
      AmongBoth(k, a, b, issue);
      AmongBoth(k, ExpressionPlaces(condition, defs), a + b, issue);
    case Loop(kind, condition, body, update) =>
      var tested := ConditionReport(c, condition, scope, r);
      ConditionMeaning(k, condition, scope, defs, r, issue);
      StatementsMeaning(k, body, scope, defs, result, FallThrough.InLoopBody, tested, issue);
      var a := StatementsPlaces(body, defs, result, FallThrough.InLoopBody);
      var b := if kind.For? then StatementsPlaces(update, defs, result, FallThrough.InForUpdate) else {};
      if kind.For? {
        StatementsMeaning(k, update, scope, defs, result, FallThrough.InForUpdate,
          StatementsReport(c, body, scope, result, FallThrough.InLoopBody, tested), issue);
      }
      AmongBoth(k, a, b, issue);
      AmongBoth(k, ExpressionPlaces(condition, defs), a + b, issue);
    case Break =>
    case Continue =>
  }

  lemma {:induction false} ConditionMeaning(k: Surroundings, condition: Expression, scope: Scope, defs: Definitions,
      r: Report, issue: Issue)
    requires Flattens(scope, defs)
    ensures issue in ConditionReport(ContextOf(k), condition, scope, r) <==>
      || issue in r
      || (!IsTestable(condition.valueType) && issue == Issue(1017, 0))
      || Among(k, ExpressionPlaces(condition, defs), issue)
    decreases condition, 3
  {
    hide Among, Flattens, ExpressionReport, ExpressionPlaces, AcceptsBooleanContext, IsTestable;
    TestableIs(condition.valueType);
    ExpressionMeaning(k, condition, scope, defs, r, issue);
  }
}
