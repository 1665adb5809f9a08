/** The verifier of source-level Core (Talac/Core/Verifier.cpp) in its recursive formulation: every
    region sees its own copy of one flat scope, and issues come in the order of the text. */
module CoreVerifier {
  import opened Wrappers
  import opened TypeIdentity
  import opened CoreScalars
  import opened WireLiterals
  import FallThrough
  import FallThroughExactness

  // ---------------------------------------------------------------------------
  // Core

  datatype Parameter = Parameter(symbol: SymbolName, declared: Type)

  datatype Capture = Capture(mode: nat, symbol: SymbolName, declared: Type, value: Option<Expression>)

  datatype Expression = Expression(valueType: Type, node: Node)

  datatype Node =
    | Variable(symbol: SymbolName)
    | Constant(literal: Literal)
    | Apply(callee: Option<Expression>, arguments: seq<Expression>)
    | Primitive(operation: nat, operands: seq<Expression>)
    | Closure(captures: seq<Capture>, parameters: seq<Parameter>, returnType: Type, closureBody: ClosureBody)
    | Let(letSymbol: SymbolName, letType: Type, letValue: Option<Expression>, letBody: Option<Expression>)
    | Conditional(choices: seq<Expression>)

  datatype ClosureBody = Missing | Body(statements: seq<Statement>)

  datatype Binding = Binding(symbol: SymbolName, declared: Type, mutableBinding: bool, value: Expression)

  datatype Statement =
    | Bind(binding: Binding)
    | Assign(destination: SymbolName, value: Expression)
    | Return(value: Expression)
    | If(condition: Expression, trueBranch: seq<Statement>, falseBranch: seq<Statement>)
    | Evaluate(value: Expression)
    | Loop(kind: FallThrough.LoopKind, condition: Expression, loopBody: seq<Statement>, loopUpdate: seq<Statement>)
    | Break
    | Continue

  datatype Function = Function(symbol: SymbolName, parameters: seq<Parameter>, returnType: Type,
      body: seq<Statement>, sourceFile: Text)

  datatype Module = Module(name: seq<Text>, sourceFiles: seq<Text>, functions: seq<Function>)

  // ---------------------------------------------------------------------------
  // Issues

  /** An issue by the number of its code and the symbol it names. */
  datatype Issue = Issue(code: nat, symbol: nat)

  datatype Definition = Definition(declared: Type, mutableBinding: bool, spelling: Text)

  type Scope = map<nat, Definition>

  /** An issue of a module, and the function it was found in. */
  datatype ModuleIssue = ModuleIssue(owner: nat, issue: Issue)

  /** The checks of one type, one primitive, one capture or one source path, which look at nothing
      around it. */
  datatype Rules = Rules(
    typeIssues: (nat, Type) -> seq<Issue>,
    primitiveIssues: Expression -> seq<Issue>,
    captureModeIssues: Capture -> seq<Issue>,
    isNormalizedPath: Text -> bool)

  datatype Context = Context(rules: Rules, functions: Scope)

  function FunctionType(parameters: seq<Parameter>, returnType: Type): Type {
    Type(FUNCTION, [], seq(|parameters|, i requires 0 <= i < |parameters| => parameters[i].declared) + [returnType],
        [], NO_SYMBOL)
  }

  predicate AcceptsBooleanContext(t: Type) {
    match Describe(t.kind)
    case None => false
    case Some(d) => d.family != CharacterScalar
  }

  // ---------------------------------------------------------------------------
  // Reports: the issues so far in, the issues after a check out

  type Report = seq<Issue>

  function When(condition: bool, code: nat, symbol: nat, r: Report): (after: Report)
    ensures |r| <= |after| && (|after| == |r| <==> !condition)
  {
    if condition then r + [Issue(code, symbol)] else r
  }

  function CheckedSymbol(symbol: SymbolName, code: nat, r: Report): (after: Report)
    ensures |r| <= |after|
  {
    When(symbol.id == 0, code, symbol.id, r)
  }

  function CheckedType(c: Context, t: Type, code: nat, r: Report): (after: Report)
    ensures |r| <= |after|
  {
    r + c.rules.typeIssues(code, t)
  }

  function Found(c: Context, scope: Scope, symbol: nat): Option<Definition> {
    if symbol in scope then Some(scope[symbol]) else if symbol in c.functions then Some(c.functions[symbol]) else None
  }

  function VariableReport(c: Context, symbol: SymbolName, valueType: Type, scope: Scope, r: Report): (after: Report)
    ensures |r| <= |after|
  {
    var named := CheckedSymbol(symbol, 1019, r);
    match Found(c, scope, symbol.id)
    case None => When(true, 1020, symbol.id, named)
    case Some(d) =>
      var typed := When(d.declared != valueType, 1021, symbol.id, named);
      When(symbol.spelling != [] && d.spelling != [] && symbol.spelling != d.spelling, 1030, symbol.id, typed)
  }

  /** Arguments against the parameters they have in common with the callee. */
  function ComparedReport(components: seq<Type>, arguments: seq<Expression>, r: Report): (after: Report)
    ensures |r| <= |after|
    decreases components
  {
    if components == [] || arguments == [] then r
    else ComparedReport(components[1..], arguments[1..], When(components[0] != arguments[0].valueType, 1023, 0, r))
  }

  function CallReport(calleeType: Type, arguments: seq<Expression>, valueType: Type, r: Report): (after: Report)
    ensures |r| <= |after|
  {
    if calleeType.kind != FUNCTION || calleeType.components == [] then When(true, 1025, 0, r)
    else
      var parameterCount := |calleeType.components| - 1;
      var counted := When(parameterCount != |arguments|, 1022, 0, r);
      var compared := ComparedReport(calleeType.components[..parameterCount], arguments, counted);
      When(calleeType.components[parameterCount] != valueType, 1024, 0, compared)
  }

  function AssignmentReport(c: Context, destination: SymbolName, valueType: Type, scope: Scope,
      r: Report): (after: Report)
    ensures |r| <= |after|
  {
    match Found(c, scope, destination.id)
    case None => When(true, 1012, destination.id, r)
    case Some(d) =>
      if !d.mutableBinding then When(true, 1013, destination.id, r)
          else When(d.declared != valueType, 1014, destination.id, r)
  }

  // ---------------------------------------------------------------------------
  // Expressions

  function ExpressionReport(c: Context, e: Expression, scope: Scope, r: Report): (after: Report)
    ensures |r| <= |after|
    decreases e, 1
  {
    NodeReport(c, e, scope, CheckedType(c, e.valueType, 1018, r))
  }

  function NodeReport(c: Context, e: Expression, scope: Scope, r: Report): (after: Report)
    ensures |r| <= |after|
    decreases e, 0
  {
    match e.node
    case Variable(symbol) => VariableReport(c, symbol, e.valueType, scope, r)
    case Constant(literal) => When(!Accepts(literal, e.valueType), 1029, 0, r)
    case Apply(callee, arguments) =>
      if callee.None? then When(true, 1025, 0, r)
      else
        CallReport(callee.value.valueType, arguments, e.valueType,
          OperandsReport(c, arguments, scope, ExpressionReport(c, callee.value, scope, r)))
    case Primitive(_, operands) => PrimitiveReport(c, e, OperandsReport(c, operands, scope, r))
    case Closure(captures, parameters, returnType, body) =>
      if body.Missing? then When(true, 1031, 0, r)
      else
        var inner := WithParameters(parameters, WithCaptures(captures, scope));
        var captured := CapturesReport(c, captures, scope, {}, CheckedType(c, returnType, 1032, r));
        var declared := ParametersReport(c, parameters, Captured(captures), captured);
        var typed := When(FunctionType(parameters, returnType) != e.valueType, 1041, 0, declared);
        var walked := StatementsReport(c, body.statements, inner, returnType, FallThrough.OutsideLoop, typed);
        When(returnType != UNIT && !FallThrough.NeverFalls(Shapes(body.statements)), 1042, 0, walked)
    case Let(symbol, declared, value, body) =>
      var typed := CheckedType(c, declared, 1046, CheckedSymbol(symbol, 1045, r));
      if value.None? || body.None? then When(true, 1047, 0, typed)
      else
        var valued := When(declared != value.value.valueType, 1048, 0, ExpressionReport(c, value.value, scope, typed));
        var inner := scope[symbol.id := Definition(declared, false, symbol.spelling)];
        When(e.valueType != body.value.valueType, 1049, 0, ExpressionReport(c, body.value, inner, valued))
    case Conditional(choices) =>
      if |choices| != 3 then When(true, 1071, 0, r)
      else
        var tested := When(!AcceptsBooleanContext(choices[0].valueType), 1067, 0,
            ExpressionReport(c, choices[0], scope, r));
        var chosen := ExpressionReport(c, choices[2], scope, ExpressionReport(c, choices[1], scope, tested));
        var first := When(e.valueType != choices[1].valueType, 1068, 0, chosen);
        var second := When(e.valueType != choices[2].valueType, 1069, 0, first);
        When(!AcceptsBooleanContext(e.valueType), 1070, 0, second)
  }

  function PrimitiveReport(c: Context, e: Expression, r: Report): (after: Report)
    ensures |r| <= |after|
  {
    r + c.rules.primitiveIssues(e)
  }

  function OperandsReport(c: Context, s: seq<Expression>, scope: Scope, r: Report): (after: Report)
    ensures |r| <= |after|
    decreases s
  {
    if s == [] then r else OperandsReport(c, s[1..], scope, ExpressionReport(c, s[0], scope, r))
  }

  // ---------------------------------------------------------------------------
  // Closures

  /** The symbols of the captures that have a value. */
  function Captured(captures: seq<Capture>): set<nat> {
    if captures == [] then {}
    else WithCaptured(captures[|captures| - 1], Captured(captures[..|captures| - 1]))
  }

  function WithCaptured(capture: Capture, seen: set<nat>): set<nat> {
    if capture.value.Some? then seen + {capture.symbol.id} else seen
  }

  function WithCapture(capture: Capture, scope: Scope): Scope {
    if capture.value.Some? then scope[capture.symbol.id := Definition(capture.declared, true,
        capture.symbol.spelling)] else scope
  }

  function WithCaptures(captures: seq<Capture>, scope: Scope): Scope {
    if captures == [] then scope
    else WithCapture(captures[|captures| - 1], WithCaptures(captures[..|captures| - 1], scope))
  }

  function WithParameter(p: Parameter, scope: Scope): Scope {
    scope[p.symbol.id := Definition(p.declared, false, p.symbol.spelling)]
  }

  function WithParameters(parameters: seq<Parameter>, scope: Scope): Scope {
    if parameters == [] then scope
    else WithParameter(parameters[|parameters| - 1], WithParameters(parameters[..|parameters| - 1], scope))
  }

  /** Captured values are those of the scope around the closure, not of the captures before them. */
  function CapturesReport(c: Context, captures: seq<Capture>, scope: Scope, seen: set<nat>, r: Report): (after: Report)
    ensures |r| <= |after|
    decreases captures
  {
    if captures == [] then r
    else
      CapturesReport(c, captures[1..], scope, WithCaptured(captures[0], seen),
          CaptureReport(c, captures[0], scope, seen, r))
  }

  function CaptureReport(c: Context, capture: Capture, scope: Scope, seen: set<nat>, r: Report): (after: Report)
    ensures |r| <= |after|
    decreases capture
  {
    var typed := CheckedType(c, capture.declared, 1034, CheckedSymbol(capture.symbol, 1033, r));
    var moded := typed + c.rules.captureModeIssues(capture);
    if capture.value.None? then When(true, 1035, capture.symbol.id, moded)
    else
      var valued := ExpressionReport(c, capture.value.value, scope, moded);
      var matched := When(capture.declared != capture.value.value.valueType, 1036, capture.symbol.id, valued);
      When(capture.symbol.id in seen, 1037, capture.symbol.id, matched)
  }

  function ParametersReport(c: Context, parameters: seq<Parameter>, seen: set<nat>, r: Report): (after: Report)
    ensures |r| <= |after|
  {
    if parameters == [] then r
    else
      var first := parameters[0];
      var typed := CheckedType(c, first.declared, 1039, CheckedSymbol(first.symbol, 1038, r));
      ParametersReport(c, parameters[1..], seen + {first.symbol.id},
          When(first.symbol.id in seen, 1037, first.symbol.id, typed))
  }

  // ---------------------------------------------------------------------------
  // Statements

  function StatementsReport(c: Context, s: seq<Statement>, scope: Scope, expected: Type,
      transfers: FallThrough.TransferScope,
                            r: Report): (after: Report)
    ensures |r| <= |after|
    decreases s
  {
    if s == [] then r
    else StatementsReport(c, s[1..], After(s[0], scope), expected, transfers,
        StatementReport(c, s[0], scope, expected, transfers, r))
  }

  /** What the statements after one see; branches and loops keep their definitions to themselves. */
  function After(s: Statement, scope: Scope): Scope {
    if s.Bind? then
      scope[s.binding.symbol.id := Definition(s.binding.declared, s.binding.mutableBinding, s.binding.symbol.spelling)]
    else scope
  }

  function AfterAll(s: seq<Statement>, scope: Scope): Scope {
    if s == [] then scope else AfterAll(s[1..], After(s[0], scope))
  }

  function ConditionReport(c: Context, condition: Expression, scope: Scope, r: Report): (after: Report)
    ensures |r| <= |after|
    decreases condition, 2
  {
    When(!AcceptsBooleanContext(condition.valueType), 1017, 0, ExpressionReport(c, condition, scope, r))
  }

  function StatementReport(c: Context, s: Statement, scope: Scope, expected: Type, transfers: FallThrough.TransferScope,
                           r: Report): (after: Report)
    ensures |r| <= |after|
    decreases s
  {
    match s
    case Bind(b) =>
      var typed := CheckedType(c, b.declared, 1009, CheckedSymbol(b.symbol, 1008, r));
      var valued := When(b.declared != b.value.valueType, 1011, b.symbol.id,
          ExpressionReport(c, b.value, scope, typed));
      When(Found(c, scope, b.symbol.id).Some?, 1010, b.symbol.id, valued)
    case Assign(destination, value) =>
      AssignmentReport(c, destination, value.valueType, scope,
          ExpressionReport(c, value, scope, CheckedSymbol(destination, 1015, r)))
    case Return(value) => When(expected != value.valueType, 1016, 0, ExpressionReport(c, value, scope, r))
    case If(condition, whenTrue, whenFalse) =>
      var taken := StatementsReport(c, whenTrue, scope, expected, transfers, ConditionReport(c, condition, scope, r));
      StatementsReport(c, whenFalse, scope, expected, transfers, taken)
    case Evaluate(value) => ExpressionReport(c, value, scope, r)
    case Loop(kind, condition, body, update) =>
      var walked := StatementsReport(c, body, scope, expected, FallThrough.InLoopBody,
          ConditionReport(c, condition, scope, r));
      if kind.For? then StatementsReport(c, update, scope, expected, FallThrough.InForUpdate, walked) else walked
    case Break => When(transfers == FallThrough.OutsideLoop, 1064, 0, r)
    case Continue =>
      When(transfers == FallThrough.InForUpdate, 1066, 0, When(transfers == FallThrough.OutsideLoop, 1065, 0, r))
  }

  function FunctionParametersReport(c: Context, parameters: seq<Parameter>, seen: set<nat>, r: Report): (after: Report)
    ensures |r| <= |after|
  {
    if parameters == [] then r
    else
      var first := parameters[0];
      var typed := CheckedType(c, first.declared, 1007, CheckedSymbol(first.symbol, 1006, r));
      FunctionParametersReport(c, parameters[1..], seen + {first.symbol.id},
        When(first.symbol.id in seen, 1004, first.symbol.id, typed))
  }

  function FunctionReport(c: Context, f: Function, r: Report): (after: Report)
    ensures |r| <= |after|
  {
    var typed := CheckedType(c, f.returnType, 1003, CheckedSymbol(f.symbol, 1006, r));
    var declared := FunctionParametersReport(c, f.parameters, {}, typed);
    var walked := StatementsReport(c, f.body, WithParameters(f.parameters, map[]), f.returnType,
        FallThrough.OutsideLoop, declared);
    When(f.returnType != UNIT && !FallThrough.NeverFalls(Shapes(f.body)), 1005, 0, walked)
  }

  /** Of two functions with one symbol the first stays declared. */
  function WithFunction(f: Function, declared: Scope): Scope {
    if f.symbol.id in declared then declared
    else declared[f.symbol.id := Definition(FunctionType(f.parameters, f.returnType), false, f.symbol.spelling)]
  }

  function Declared(functions: seq<Function>): Scope {
    if functions == [] then map[] else WithFunction(functions[|functions| - 1], Declared(functions[..|functions| - 1]))
  }

  function Owned(owner: nat, r: Report): (issues: seq<ModuleIssue>)
    ensures |issues| == |r|
  {
    seq(|r|, i requires 0 <= i < |r| => ModuleIssue(owner, r[i]))
  }

  function NameIssues(name: seq<Text>): seq<ModuleIssue> {
    Owned(0, When(name == [] || exists i :: 0 <= i < |name| && name[i] == [], 1001, 0, []))
  }

  function SourceIssues(rules: Rules, files: seq<Text>, seen: set<Text>): seq<ModuleIssue> {
    if files == [] then []
    else
      Owned(0, When(files[0] in seen, 1061, 0, When(!rules.isNormalizedPath(files[0]), 1060, 0, [])))
      + SourceIssues(rules, files[1..], seen + {files[0]})
  }

  function DeclarationReport(rules: Rules, sourceFiles: seq<Text>, f: Function, declared: Scope): Report {
    var id := f.symbol.id;
    var path := When(f.sourceFile != [] && !rules.isNormalizedPath(f.sourceFile), 1062, id, []);
    var owner := When(sourceFiles != [] && f.sourceFile !in sourceFiles, 1063, id, path);
    When(id in declared, 1002, id, CheckedSymbol(f.symbol, 1006, owner))
  }

  function DeclarationIssues(rules: Rules, sourceFiles: seq<Text>, functions: seq<Function>,
      declared: Scope): seq<ModuleIssue>
    decreases functions
  {
    if functions == [] then []
    else
      Owned(functions[0].symbol.id, DeclarationReport(rules, sourceFiles, functions[0], declared))
      + DeclarationIssues(rules, sourceFiles, functions[1..], WithFunction(functions[0], declared))
  }

  function FunctionsIssues(c: Context, functions: seq<Function>): seq<ModuleIssue> {
    if functions == [] then []
    else Owned(functions[0].symbol.id, FunctionReport(c, functions[0], [])) + FunctionsIssues(c, functions[1..])
  }

  function ModuleIssues(x: Module, rules: Rules): seq<ModuleIssue> {
    NameIssues(x.name)
    + SourceIssues(rules, x.sourceFiles, {})
    + DeclarationIssues(rules, x.sourceFiles, x.functions, map[])
    + FunctionsIssues(Context(rules, Declared(x.functions)), x.functions)
  }

  // ---------------------------------------------------------------------------
  // Control flow of a body

  predicate IsLiteralTrue(e: Expression) {
    e.node == Constant(BooleanPayload(true))
  }

  function Shapes(s: seq<Statement>): (r: seq<FallThrough.Statement>)
    ensures |r| == |s|
  {
    if s == [] then [] else [Shape(s[0])] + Shapes(s[1..])
  }

  /** A statement as far as control flow goes. */
  function Shape(s: Statement): FallThrough.Statement {
    match s
    case Return(_) => FallThrough.Return
    case If(_, whenTrue, whenFalse) => FallThrough.If(Shapes(whenTrue), Shapes(whenFalse))
    case Loop(kind, condition, body, update) => FallThrough.Loop(kind, IsLiteralTrue(condition), Shapes(body),
        Shapes(update))
    case Break => FallThrough.Break
    case Continue => FallThrough.Continue
    case _ => FallThrough.Simple
  }

  /** Statements without any issue have no issue of transfers. */
  lemma {:induction false} NoIssueNoTransferIssue(c: Context, s: seq<Statement>, scope: Scope, expected: Type,
                                                  transfers: FallThrough.TransferScope, r: Report)
    requires |StatementsReport(c, s, scope, expected, transfers, r)| == |r|
    ensures FallThrough.TransferIssues(Shapes(s), transfers) == []
    decreases s
  {
    hide ExpressionReport, ConditionReport;
    if s != [] {
      var first := StatementReport(c, s[0], scope, expected, transfers, r);
      assert Shapes(s)[0] == Shape(s[0]) && Shapes(s)[1..] == Shapes(s[1..]);
      NoIssueNoTransferIssue(c, s[1..], After(s[0], scope), expected, transfers, first);
      match s[0]
      case If(condition, whenTrue, whenFalse) =>
        var tested := ConditionReport(c, condition, scope, r);
        NoIssueNoTransferIssue(c, whenTrue, scope, expected, transfers, tested);
        NoIssueNoTransferIssue(c, whenFalse, scope, expected, transfers,
          StatementsReport(c, whenTrue, scope, expected, transfers, tested));
      case Loop(kind, condition, body, update) =>
        var tested := ConditionReport(c, condition, scope, r);
        NoIssueNoTransferIssue(c, body, scope, expected, FallThrough.InLoopBody, tested);
        if kind.For? {
          NoIssueNoTransferIssue(c, update, scope, expected, FallThrough.InForUpdate,
            StatementsReport(c, body, scope, expected, FallThrough.InLoopBody, tested));
        }
      case _ =>
    }
  }

  /** An accepted function with a result returns in every execution that ends, whatever its
      conditions turn out to be. */
  lemma AcceptedFunctionReturns(c: Context, f: Function, r: Report, out: FallThrough.Outcome, n: nat)
    requires |FunctionReport(c, f, r)| == |r| && f.returnType != UNIT && FallThrough.Runs(Shapes(f.body), out, n)
    ensures out == FallThrough.Returns
  {
    hide StatementsReport, FunctionParametersReport, FallThrough.Runs, FallThrough.NeverFalls;
    var typed := CheckedType(c, f.returnType, 1003, CheckedSymbol(f.symbol, 1006, r));
    var declared := FunctionParametersReport(c, f.parameters, {}, typed);
    NoIssueNoTransferIssue(c, f.body, WithParameters(f.parameters, map[]), f.returnType, FallThrough.OutsideLoop,
        declared);
    FallThrough.EveryEndReturns(Shapes(f.body), out, n);
  }

  /** So does an accepted closure, in whatever loop it stands. */
  lemma AcceptedClosureReturns(c: Context, e: Expression, scope: Scope, r: Report, out: FallThrough.Outcome, n: nat)
    requires e.node.Closure? && |ExpressionReport(c, e, scope, r)| == |r| && e.node.returnType != UNIT
    requires e.node.closureBody.Body? && FallThrough.Runs(Shapes(e.node.closureBody.statements), out, n)
    ensures out == FallThrough.Returns
  {
    hide StatementsReport, CapturesReport, ParametersReport, FallThrough.Runs, FallThrough.NeverFalls;
    var node := e.node;
    var body := node.closureBody.statements;
    var inner := WithParameters(node.parameters, WithCaptures(node.captures, scope));
    var entered := CheckedType(c, node.returnType, 1032, CheckedType(c, e.valueType, 1018, r));
    var captured := CapturesReport(c, node.captures, scope, {}, entered);
    var declared := ParametersReport(c, node.parameters, Captured(node.captures), captured);
    var typed := When(FunctionType(node.parameters, node.returnType) != e.valueType, 1041, 0, declared);
    NoIssueNoTransferIssue(c, body, inner, node.returnType, FallThrough.OutsideLoop, typed);
    FallThrough.EveryEndReturns(Shapes(body), out, n);
  }

  lemma {:induction false} AcceptedOneByOne(c: Context, functions: seq<Function>, i: nat)
    requires FunctionsIssues(c, functions) == [] && i < |functions|
    ensures |FunctionReport(c, functions[i], [])| == 0
    decreases functions
  {
    hide FunctionReport;
    var first := Owned(functions[0].symbol.id, FunctionReport(c, functions[0], []));
    assert FunctionsIssues(c, functions) == first + FunctionsIssues(c, functions[1..]);
    if i > 0 {
      AcceptedOneByOne(c, functions[1..], i - 1);
    }
  }

  /** Every function of an accepted module that has a result returns in every execution that ends. */
  lemma AcceptedModuleReturns(x: Module, rules: Rules, i: nat, out: FallThrough.Outcome, n: nat)
    requires ModuleIssues(x, rules) == [] && i < |x.functions|
    requires x.functions[i].returnType != UNIT && FallThrough.Runs(Shapes(x.functions[i].body), out, n)
    ensures out == FallThrough.Returns
  {
    hide FunctionReport, DeclarationIssues, SourceIssues, NameIssues, FunctionsIssues, FallThrough.Runs;
    var c := Context(rules, Declared(x.functions));
    assert FunctionsIssues(c, x.functions) == [];
    AcceptedOneByOne(c, x.functions, i);
    AcceptedFunctionReturns(c, x.functions[i], [], out, n);
  }

  // ---------------------------------------------------------------------------
  // When falling through is reported

  /** What is reported of a function before the check for falling through. */
  function WalkedReport(c: Context, f: Function, r: Report): Report {
    var typed := CheckedType(c, f.returnType, 1003, CheckedSymbol(f.symbol, 1006, r));
    var declared := FunctionParametersReport(c, f.parameters, {}, typed);
    StatementsReport(c, f.body, WithParameters(f.parameters, map[]), f.returnType, FallThrough.OutsideLoop, declared)
  }

  /** A function with a result whose loops are tidy, and that nothing else is said about, is reported
      exactly when some execution of its body falls off its end. */
  lemma FallingThroughIsReported(c: Context, f: Function, r: Report)
    requires f.returnType != UNIT && |WalkedReport(c, f, r)| == |r| && FallThroughExactness.Tidy(Shapes(f.body))
    ensures |FunctionReport(c, f, r)| == |r| <==> !FallThroughExactness.EndsBy(Shapes(f.body), FallThrough.Falls)
  {
    hide StatementsReport, FunctionParametersReport, FallThrough.Runs, FallThrough.NeverFalls,
        FallThroughExactness.Tidy,
         FallThroughExactness.EndsBy;
    var typed := CheckedType(c, f.returnType, 1003, CheckedSymbol(f.symbol, 1006, r));
    var declared := FunctionParametersReport(c, f.parameters, {}, typed);
    NoIssueNoTransferIssue(c, f.body, WithParameters(f.parameters, map[]), f.returnType, FallThrough.OutsideLoop,
        declared);
    FallThroughExactness.TidyBodiesAreDecided(Shapes(f.body));
  }
}
