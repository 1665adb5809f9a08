/** The verifier of source-level Core as the source runs it (Talac/Core/Verifier.cpp): environments
    that refer to the one around them instead of copying it, and loops in place of recursion along
    `else if` links and first operands. It reports what the recursive formulation reports. */
module CoreVerifierWalk {
  import opened Wrappers
  import opened TypeIdentity
  import opened CoreScalars
  import opened WireLiterals
  import opened CoreVerifier
  import FallThrough

  // ---------------------------------------------------------------------------
  // Environments

  /** The definitions of one region, and the environment of the region around it. */
  class Environment {
    const outer: Environment?
    ghost const depth: nat
    ghost const around: set<Environment>
    var own: Scope

    /** The environments around this one form a chain that does not come back to it. */
    ghost predicate Valid()
      decreases depth
    {
      && this !in around
      && if outer == null then around == {}
         else outer.depth < depth && outer.Valid() && around == outer.around + {outer}
    }

    /** Everything visible, as one flat scope. */
    ghost function Visible(): Scope
      requires Valid()
      reads this, around
      decreases depth
    {
      if outer == null then own else outer.Visible() + own
    }

    constructor ()
      ensures Valid() && Visible() == map[] && around == {}
    {
      outer := null;
      depth := 0;
      around := {};
      own := map[];
    }

    constructor Inside(outer: Environment)
      requires outer.Valid()
      ensures Valid() && this.outer == outer && around == outer.around + {outer} && own == map[]
    {
      this.outer := outer;
      depth := outer.depth + 1;
      around := outer.around + {outer};
      own := map[];
    }

    method Extend() returns (inner: Environment)
      requires Valid()
      ensures fresh(inner) && inner.Valid() && inner.outer == this && inner.Visible() == Visible()
    {
      inner := new Environment.Inside(this);
      assert Visible() + map[] == Visible();
    }

    /** The nearest region that defines the symbol decides. */
    method Find(symbol: nat) returns (found: Option<Definition>)
      requires Valid()
      ensures found == if symbol in Visible() then Some(Visible()[symbol]) else None
    {
      var region: Environment? := this;
      while region != null
        invariant region != null ==> region.Valid() && (region == this || region in around) && region.around <= around
        invariant region != null ==>
          (symbol in Visible() <==> symbol in region.Visible())
          && (symbol in Visible() ==> Visible()[symbol] == region.Visible()[symbol])
        invariant region == null ==> symbol !in Visible()
        decreases if region == null then 0 else region.depth + 1
      {
        if symbol in region.own {
          return Some(region.own[symbol]);
        }
        region := region.outer;
      }
      found := None;
    }

    method InsertOrAssign(symbol: nat, definition: Definition)
      requires Valid()
      modifies this
      ensures Visible() == old(Visible())[symbol := definition]
    {
      own := own[symbol := definition];
    }
  }

  // ---------------------------------------------------------------------------
  // What is left of a chain of first operands

  /** The operands of a primitive after its first, and the primitive itself. */
  function RestReport(c: Context, e: Expression, scope: Scope, r: Report): Report
    requires e.node.Primitive?
  {
    PrimitiveReport(c, e, OperandsReport(c, if e.node.operands == [] then [] else e.node.operands[1..], scope, r))
  }

  predicate Chained(chain: seq<Expression>) {
    forall i :: 0 <= i < |chain| ==> chain[i].node.Primitive? && chain[i].node.operands != []
  }

  /** The innermost first. */
  function UnwoundReport(c: Context, chain: seq<Expression>, scope: Scope, r: Report): Report
    requires Chained(chain)
  {
    if chain == [] then r else UnwoundReport(c, chain[..|chain| - 1], scope,
        RestReport(c, chain[|chain| - 1], scope, r))
  }

  lemma FirstOperandFirst(c: Context, e: Expression, scope: Scope, r: Report)
    requires e.node.Primitive?
    ensures NodeReport(c, e, scope, r)
         == RestReport(c, e, scope, if e.node.operands == [] then r
             else ExpressionReport(c, e.node.operands[0], scope, r))
  {
    hide ExpressionReport;
  }

  // ---------------------------------------------------------------------------
  // The verifier of one function

  class FunctionVerifier {
    const c: Context
    var issues: Report

    constructor (c: Context, issues: Report)
      ensures this.c == c && this.issues == issues
    {
      this.c := c;
      this.issues := issues;
    }

    method Add(code: nat, symbol: nat)
      modifies this
      ensures issues == When(true, code, symbol, old(issues))
    {
      issues := issues + [Issue(code, symbol)];
    }

    method AddWhen(condition: bool, code: nat, symbol: nat)
      modifies this
      ensures issues == When(condition, code, symbol, old(issues))
    {
      if condition {
        Add(code, symbol);
      }
    }

    method CheckSymbol(symbol: SymbolName, code: nat)
      modifies this
      ensures issues == CheckedSymbol(symbol, code, old(issues))
    {
      AddWhen(symbol.id == 0, code, symbol.id);
    }

    method CheckType(t: Type, code: nat)
      modifies this
      ensures issues == CheckedType(c, t, code, old(issues))
    {
      issues := issues + c.rules.typeIssues(code, t);
    }

    method FindDefinition(environment: Environment, symbol: nat) returns (found: Option<Definition>)
      requires environment.Valid()
      ensures found == Found(c, environment.Visible(), symbol)
    {
      hide Environment.Valid, Environment.Visible;
      found := environment.Find(symbol);
      if found.None? && symbol in c.functions {
        found := Some(c.functions[symbol]);
      }
    }

    method VerifyStatements(s: seq<Statement>, environment: Environment, expected: Type,
        transfers: FallThrough.TransferScope)
      requires environment.Valid()
      modifies this, environment
      ensures issues == StatementsReport(c, s, old(environment.Visible()), expected, transfers, old(issues))
      ensures environment.Visible() == AfterAll(s, old(environment.Visible()))
      decreases s, 3
    {
      hide Environment.Valid, Environment.Visible;
      hide StatementReport, After;
      ghost var scope := environment.Visible();
      for i := 0 to |s|
        invariant StatementsReport(c, s, scope, expected, transfers, old(issues))
               == StatementsReport(c, s[i..], environment.Visible(), expected, transfers, issues)
        invariant AfterAll(s, scope) == AfterAll(s[i..], environment.Visible())
      {
        VerifyStatement(s[i], environment, expected, transfers);
        assert s[i..][1..] == s[i + 1..];
      }
    }

    /** An `if` and every `else if` that continues it. The first condition is verified in the given
        environment; the links after it share one inside it. */
    method VerifyConditionalChain(first: Statement, environment: Environment, expected: Type,
        transfers: FallThrough.TransferScope)
      requires first.If? && environment.Valid()
      modifies this
      ensures issues == StatementReport(c, first, environment.Visible(), expected, transfers, old(issues))
      decreases first, 1
    {
      hide Environment.Valid, Environment.Visible;
      hide ExpressionReport, StatementsReport, StatementReport, When;
      ghost var scope := environment.Visible();
      var link := first;
      var chainEnvironment: Environment? := null;
      var linkEnvironment: Environment := environment;
      while true
        invariant link.If? && (link == first || (first decreases to link))
        invariant linkEnvironment.Valid() && linkEnvironment.Visible() == scope && environment.Visible() == scope
        invariant StatementReport(c, first, scope, expected, transfers, old(issues))
               == StatementReport(c, link, scope, expected, transfers, issues)
        decreases link
      {
        LinkReport(c, link, scope, expected, transfers, issues);
        VerifyExpression(link.condition, linkEnvironment);
        AddWhen(!AcceptsBooleanContext(link.condition.valueType), 1017, 0);
        var trueEnvironment := linkEnvironment.Extend();
        VerifyStatements(link.trueBranch, trueEnvironment, expected, transfers);
        if !(|link.falseBranch| == 1 && link.falseBranch[0].If?) {
          break;
        }
        if chainEnvironment == null {
          chainEnvironment := environment.Extend();
          linkEnvironment := chainEnvironment;
        }
        OneStatement(c, link.falseBranch, scope, expected, transfers, issues);
        link := link.falseBranch[0];
      }
      var falseEnvironment := linkEnvironment.Extend();
      VerifyStatements(link.falseBranch, falseEnvironment, expected, transfers);
    }

    method VerifyStatement(s: Statement, environment: Environment, expected: Type, transfers: FallThrough.TransferScope)
      requires environment.Valid()
      modifies this, environment
      ensures issues == StatementReport(c, s, old(environment.Visible()), expected, transfers, old(issues))
      ensures environment.Visible() == After(s, old(environment.Visible()))
      decreases s, 2
    {
      hide Environment.Valid, Environment.Visible;
      hide ExpressionReport, StatementsReport, When;
      match s
      case Bind(b) => VerifyBinding(b, s, environment, expected, transfers);
      case Assign(destination, value) => VerifyAssignment(destination, value, environment);
      case Return(value) =>
        VerifyExpression(value, environment);
        AddWhen(expected != value.valueType, 1016, 0);
      case If(_, _, _) => VerifyConditionalChain(s, environment, expected, transfers);
      case Evaluate(value) => VerifyExpression(value, environment);
      case Loop(_, _, _, _) => VerifyLoop(s, environment, expected, transfers);
      case Break =>
        AddWhen(transfers == FallThrough.OutsideLoop, 1064, 0);
      case Continue =>
        AddWhen(transfers == FallThrough.OutsideLoop, 1065, 0);
        AddWhen(transfers == FallThrough.InForUpdate, 1066, 0);
    }

    method VerifyBinding(b: Binding, ghost s: Statement, environment: Environment, ghost expected: Type,
                         ghost transfers: FallThrough.TransferScope)
      requires environment.Valid() && s == Bind(b)
      modifies this, environment
      ensures issues == StatementReport(c, s, old(environment.Visible()), expected, transfers, old(issues))
      ensures environment.Visible() == After(s, old(environment.Visible()))
      decreases s, 1
    {
      hide Environment.Valid, Environment.Visible;
      hide ExpressionReport, When, CheckedSymbol, CheckedType;
      CheckSymbol(b.symbol, 1008);
      CheckType(b.declared, 1009);
      VerifyExpression(b.value, environment);
      AddWhen(b.declared != b.value.valueType, 1011, b.symbol.id);
      var found := FindDefinition(environment, b.symbol.id);
      AddWhen(found.Some?, 1010, b.symbol.id);
      environment.InsertOrAssign(b.symbol.id, Definition(b.declared, b.mutableBinding, b.symbol.spelling));
    }

    method VerifyAssignment(destination: SymbolName, value: Expression, environment: Environment)
      requires environment.Valid()
      modifies this
      ensures issues == AssignmentReport(c, destination, value.valueType, environment.Visible(),
                          ExpressionReport(c, value, environment.Visible(),
                              CheckedSymbol(destination, 1015, old(issues))))
      decreases value, 3
    {
      hide Environment.Valid, Environment.Visible;
      hide ExpressionReport, When;
      CheckSymbol(destination, 1015);
      VerifyExpression(value, environment);
      var found := FindDefinition(environment, destination.id);
      if found.None? {
        Add(1012, destination.id);
      } else if !found.value.mutableBinding {
        Add(1013, destination.id);
      } else {
        AddWhen(found.value.declared != value.valueType, 1014, destination.id);
      }
    }

    method VerifyLoop(s: Statement, environment: Environment, expected: Type,
        ghost transfers: FallThrough.TransferScope)
      requires s.Loop? && environment.Valid()
      modifies this
      ensures issues == StatementReport(c, s, environment.Visible(), expected, transfers, old(issues))
      decreases s, 1
    {
      hide Environment.Valid, Environment.Visible;
      hide ExpressionReport, StatementsReport, When;
      VerifyExpression(s.condition, environment);
      AddWhen(!AcceptsBooleanContext(s.condition.valueType), 1017, 0);
      var loopEnvironment := environment.Extend();
      VerifyStatements(s.loopBody, loopEnvironment, expected, FallThrough.InLoopBody);
      if s.kind.For? {
        var updateEnvironment := environment.Extend();
        VerifyStatements(s.loopUpdate, updateEnvironment, expected, FallThrough.InForUpdate);
      }
    }

    /** The types of a chain of first operands are checked on the way down, everything else on the
        way back. */
    method VerifyExpression(e: Expression, environment: Environment)
      requires environment.Valid()
      modifies this
      ensures issues == ExpressionReport(c, e, environment.Visible(), old(issues))
      decreases e, 2
    {
      hide Environment.Valid, Environment.Visible;
      hide NodeReport, RestReport, CheckedType;
      ghost var scope := environment.Visible();
      var chain: seq<Expression> := [];
      var current := e;
      while true
        invariant Chained(chain) && (current == e || (e decreases to current))
        invariant forall i :: 0 <= i < |chain| ==> chain[i] == e || (e decreases to chain[i])
        invariant ExpressionReport(c, e, scope, old(issues))
               == UnwoundReport(c, chain, scope, ExpressionReport(c, current, scope, issues))
        decreases current
      {
        CheckType(current.valueType, 1018);
        if !current.node.Primitive? || current.node.operands == [] {
          break;
        }
        FirstOperandFirst(c, current, scope, issues);
        assert (chain + [current])[..|chain|] == chain;
        chain := chain + [current];
        current := current.node.operands[0];
      }
      VerifyUnchained(current, environment);
      while chain != []
        invariant Chained(chain) && forall i :: 0 <= i < |chain| ==> chain[i] == e || (e decreases to chain[i])
        invariant ExpressionReport(c, e, scope, old(issues)) == UnwoundReport(c, chain, scope, issues)
        decreases |chain|
      {
        VerifyPrimitive(chain[|chain| - 1], environment);
        chain := chain[..|chain| - 1];
      }
    }

    /** An expression that is not a primitive with operands; its type was checked. */
    method VerifyUnchained(e: Expression, environment: Environment)
      requires environment.Valid() && !(e.node.Primitive? && e.node.operands != [])
      modifies this
      ensures issues == NodeReport(c, e, environment.Visible(), old(issues))
      decreases e, 1
    {
      hide Environment.Valid, Environment.Visible;
      hide ExpressionReport, StatementsReport;
      match e.node
      case Variable(symbol) => VerifyVariable(symbol, e.valueType, environment);
      case Constant(literal) => AddWhen(!Accepts(literal, e.valueType), 1029, 0);
      case Apply(_, _) => VerifyCall(e, environment);
      case Primitive(_, _) =>
        FirstOperandFirst(c, e, environment.Visible(), issues);
        VerifyPrimitive(e, environment);
      case Closure(_, _, _, _) => VerifyClosure(e, environment);
      case Let(_, _, _, _) => VerifyLet(e, environment);
      case Conditional(_) => VerifyConditional(e, environment);
    }

    method VerifyVariable(symbol: SymbolName, valueType: Type, environment: Environment)
      requires environment.Valid()
      modifies this
      ensures issues == VariableReport(c, symbol, valueType, environment.Visible(), old(issues))
    {
      hide Environment.Valid, Environment.Visible;
      hide When;
      CheckSymbol(symbol, 1019);
      var found := FindDefinition(environment, symbol.id);
      if found.None? {
        Add(1020, symbol.id);
        return;
      }
      AddWhen(found.value.declared != valueType, 1021, symbol.id);
      AddWhen(symbol.spelling != [] && found.value.spelling != []
          && symbol.spelling != found.value.spelling, 1030, symbol.id);
    }

    method VerifyLet(e: Expression, environment: Environment)
      requires environment.Valid() && e.node.Let?
      modifies this
      ensures issues == NodeReport(c, e, environment.Visible(), old(issues))
      decreases e, 0
    {
      hide Environment.Valid, Environment.Visible;
      hide ExpressionReport, When, CheckedSymbol, CheckedType;
      var node := e.node;
      CheckSymbol(node.letSymbol, 1045);
      CheckType(node.letType, 1046);
      if node.letValue.None? || node.letBody.None? {
        Add(1047, 0);
        return;
      }
      VerifyExpression(node.letValue.value, environment);
      AddWhen(node.letType != node.letValue.value.valueType, 1048, 0);
      var bodyEnvironment := environment.Extend();
      bodyEnvironment.InsertOrAssign(node.letSymbol.id, Definition(node.letType, false, node.letSymbol.spelling));
      VerifyExpression(node.letBody.value, bodyEnvironment);
      AddWhen(e.valueType != node.letBody.value.valueType, 1049, 0);
    }

    method VerifyConditional(e: Expression, environment: Environment)
      requires environment.Valid() && e.node.Conditional?
      modifies this
      ensures issues == NodeReport(c, e, environment.Visible(), old(issues))
      decreases e, 0
    {
      hide Environment.Valid, Environment.Visible;
      hide ExpressionReport, When;
      var choices := e.node.choices;
      if |choices| != 3 {
        Add(1071, 0);
        return;
      }
      VerifyExpression(choices[0], environment);
      AddWhen(!AcceptsBooleanContext(choices[0].valueType), 1067, 0);
      VerifyExpression(choices[1], environment);
      VerifyExpression(choices[2], environment);
      AddWhen(e.valueType != choices[1].valueType, 1068, 0);
      AddWhen(e.valueType != choices[2].valueType, 1069, 0);
      AddWhen(!AcceptsBooleanContext(e.valueType), 1070, 0);
    }

    method VerifyOperands(operands: seq<Expression>, environment: Environment)
      requires environment.Valid()
      modifies this
      ensures issues == OperandsReport(c, operands, environment.Visible(), old(issues))
      decreases operands, 0
    {
      hide Environment.Valid, Environment.Visible;
      hide ExpressionReport;
      ghost var scope := environment.Visible();
      for i := 0 to |operands|
        invariant OperandsReport(c, operands, scope, old(issues)) == OperandsReport(c, operands[i..], scope, issues)
      {
        VerifyExpression(operands[i], environment);
        assert operands[i..][1..] == operands[i + 1..];
      }
    }

    method VerifyPrimitive(e: Expression, environment: Environment)
      requires environment.Valid() && e.node.Primitive?
      modifies this
      ensures issues == RestReport(c, e, environment.Visible(), old(issues))
      decreases e, 0
    {
      hide Environment.Valid, Environment.Visible;
      hide OperandsReport;
      VerifyOperands(if e.node.operands == [] then [] else e.node.operands[1..], environment);
      issues := issues + c.rules.primitiveIssues(e);
    }

    method VerifyCall(e: Expression, environment: Environment)
      requires environment.Valid() && e.node.Apply?
      modifies this
      ensures issues == NodeReport(c, e, environment.Visible(), old(issues))
      decreases e, 0
    {
      hide Environment.Valid, Environment.Visible;
      hide ExpressionReport, OperandsReport, CallReport;
      if e.node.callee.None? {
        Add(1025, 0);
        return;
      }
      var callee := e.node.callee.value;
      VerifyExpression(callee, environment);
      VerifyOperands(e.node.arguments, environment);
      CheckCall(callee.valueType, e.node.arguments, e.valueType);
    }

    method CheckCall(calleeType: Type, arguments: seq<Expression>, valueType: Type)
      modifies this
      ensures issues == CallReport(calleeType, arguments, valueType, old(issues))
    {
      hide When;
      if calleeType.kind != FUNCTION || calleeType.components == [] {
        Add(1025, 0);
        return;
      }
      var parameterCount := |calleeType.components| - 1;
      AddWhen(parameterCount != |arguments|, 1022, 0);
      ghost var counted := issues;
      var comparable := if parameterCount < |arguments| then parameterCount else |arguments|;
      ghost var parameters := calleeType.components[..parameterCount];
      for index := 0 to comparable
        invariant ComparedReport(parameters, arguments, counted)
          == ComparedReport(parameters[index..], arguments[index..], issues)
      {
        AddWhen(calleeType.components[index] != arguments[index].valueType, 1023, 0);
        assert parameters[index..][1..] == parameters[index + 1..] && arguments[index..][1..] == arguments[index + 1..];
      }
      assert ComparedReport(parameters[comparable..], arguments[comparable..], issues) == issues;
      AddWhen(calleeType.components[parameterCount] != valueType, 1024, 0);
    }

    method VerifyCaptures(captures: seq<Capture>, closureEnvironment: Environment, outerEnvironment: Environment)
        returns (local: set<nat>)
      requires outerEnvironment.Valid() && closureEnvironment.Valid() && closureEnvironment.outer == outerEnvironment
      requires closureEnvironment.Visible() == outerEnvironment.Visible()
      modifies this, closureEnvironment
      ensures issues == CapturesReport(c, captures, outerEnvironment.Visible(), {}, old(issues))
      ensures outerEnvironment.Visible() == old(outerEnvironment.Visible())
      ensures closureEnvironment.Visible() == WithCaptures(captures, outerEnvironment.Visible())
        && local == Captured(captures)
      decreases captures, 1
    {
      hide Environment.Visible;
      hide CaptureReport;
      ghost var scope := outerEnvironment.Visible();
      local := {};
      for i := 0 to |captures|
        invariant outerEnvironment.Visible() == scope
        invariant CapturesReport(c, captures, scope, {}, old(issues))
          == CapturesReport(c, captures[i..], scope, local, issues)
        invariant closureEnvironment.Visible() == WithCaptures(captures[..i], scope) && local == Captured(captures[..i])
      {
        var capture := captures[i];
        VerifyCapture(capture, outerEnvironment, local);
        if capture.value.Some? {
          local := local + {capture.symbol.id};
          closureEnvironment.InsertOrAssign(capture.symbol.id,
              Definition(capture.declared, true, capture.symbol.spelling));
        }
        assert captures[i..][1..] == captures[i + 1..];
        assert captures[..i + 1][..i] == captures[..i];
      }
      assert captures[..|captures|] == captures;
    }

    method VerifyCapture(capture: Capture, outerEnvironment: Environment, local: set<nat>)
      requires outerEnvironment.Valid()
      modifies this
      ensures issues == CaptureReport(c, capture, outerEnvironment.Visible(), local, old(issues))
      decreases capture, 0
    {
      hide Environment.Valid, Environment.Visible;
      hide ExpressionReport, When, CheckedSymbol, CheckedType;
      CheckSymbol(capture.symbol, 1033);
      CheckType(capture.declared, 1034);
      issues := issues + c.rules.captureModeIssues(capture);
      if capture.value.None? {
        Add(1035, capture.symbol.id);
        return;
      }
      VerifyExpression(capture.value.value, outerEnvironment);
      AddWhen(capture.declared != capture.value.value.valueType, 1036, capture.symbol.id);
      AddWhen(capture.symbol.id in local, 1037, capture.symbol.id);
    }

    method VerifyClosureParameters(parameters: seq<Parameter>, closureEnvironment: Environment, captured: set<nat>)
      requires closureEnvironment.Valid()
      modifies this, closureEnvironment
      ensures issues == ParametersReport(c, parameters, captured, old(issues))
      ensures closureEnvironment.Visible() == WithParameters(parameters, old(closureEnvironment.Visible()))
    {
      hide Environment.Valid, Environment.Visible;
      hide When, CheckedSymbol, CheckedType;
      ghost var scope := closureEnvironment.Visible();
      var local := captured;
      for i := 0 to |parameters|
        invariant ParametersReport(c, parameters, captured, old(issues))
          == ParametersReport(c, parameters[i..], local, issues)
        invariant closureEnvironment.Visible() == WithParameters(parameters[..i], scope)
      {
        var p := parameters[i];
        CheckSymbol(p.symbol, 1038);
        CheckType(p.declared, 1039);
        AddWhen(p.symbol.id in local, 1037, p.symbol.id);
        local := local + {p.symbol.id};
        closureEnvironment.InsertOrAssign(p.symbol.id, Definition(p.declared, false, p.symbol.spelling));
        assert parameters[i..][1..] == parameters[i + 1..];
        assert parameters[..i + 1][..i] == parameters[..i];
      }
      assert parameters[..|parameters|] == parameters;
    }

    method VerifyClosure(e: Expression, outerEnvironment: Environment)
      requires outerEnvironment.Valid() && e.node.Closure?
      modifies this
      ensures issues == NodeReport(c, e, outerEnvironment.Visible(), old(issues))
      decreases e, 0
    {
      hide Environment.Valid, Environment.Visible;
      hide ExpressionReport, StatementsReport, CapturesReport, ParametersReport, When, CheckedType;
      hide FallThrough.NeverFalls, Shapes, FunctionType, WithCaptures, WithParameters, Captured, AfterAll;
      var node := e.node;
      if node.closureBody.Missing? {
        Add(1031, 0);
        return;
      }
      var body := node.closureBody.statements;
      CheckType(node.returnType, 1032);
      var closureEnvironment := outerEnvironment.Extend();
      var local := VerifyCaptures(node.captures, closureEnvironment, outerEnvironment);
      VerifyClosureParameters(node.parameters, closureEnvironment, local);
      AddWhen(FunctionType(node.parameters, node.returnType) != e.valueType, 1041, 0);
      VerifyStatements(body, closureEnvironment, node.returnType, FallThrough.OutsideLoop);
      var accepted := FallThrough.AlwaysReturns(Shapes(body));
      AddWhen(node.returnType != UNIT && !accepted, 1042, 0);
    }

    method VerifyParameters(parameters: seq<Parameter>, environment: Environment)
      requires environment.Valid()
      modifies this, environment
      ensures issues == FunctionParametersReport(c, parameters, {}, old(issues))
      ensures environment.Visible() == WithParameters(parameters, old(environment.Visible()))
    {
      hide Environment.Valid, Environment.Visible;
      hide When, CheckedSymbol, CheckedType;
      ghost var scope := environment.Visible();
      var local: set<nat> := {};
      for i := 0 to |parameters|
        invariant FunctionParametersReport(c, parameters, {}, old(issues))
          == FunctionParametersReport(c, parameters[i..], local, issues)
        invariant environment.Visible() == WithParameters(parameters[..i], scope)
      {
        var p := parameters[i];
        CheckSymbol(p.symbol, 1006);
        CheckType(p.declared, 1007);
        AddWhen(p.symbol.id in local, 1004, p.symbol.id);
        local := local + {p.symbol.id};
        environment.InsertOrAssign(p.symbol.id, Definition(p.declared, false, p.symbol.spelling));
        assert parameters[i..][1..] == parameters[i + 1..];
        assert parameters[..i + 1][..i] == parameters[..i];
      }
      assert parameters[..|parameters|] == parameters;
    }

    method Run(f: Function)
      modifies this
      ensures issues == FunctionReport(c, f, old(issues))
    {
      hide StatementsReport, FunctionParametersReport, When, CheckedSymbol, CheckedType;
      hide FallThrough.NeverFalls, Shapes, WithParameters, AfterAll;
      var environment := new Environment();
      CheckSymbol(f.symbol, 1006);
      CheckType(f.returnType, 1003);
      VerifyParameters(f.parameters, environment);
      VerifyStatements(f.body, environment, f.returnType, FallThrough.OutsideLoop);
      var accepted := FallThrough.AlwaysReturns(Shapes(f.body));
      AddWhen(f.returnType != UNIT && !accepted, 1005, 0);
    }
  }

  /** The condition, the true branch, then whatever the false branch reports. */
  lemma LinkReport(c: Context, link: Statement, scope: Scope, expected: Type, transfers: FallThrough.TransferScope,
      r: Report)
    requires link.If?
    ensures var tested := When(!AcceptsBooleanContext(link.condition.valueType), 1017, 0,
      ExpressionReport(c, link.condition, scope, r));
            var taken := StatementsReport(c, link.trueBranch, scope, expected, transfers, tested);
            (StatementReport(c, link, scope, expected, transfers, r)
             == StatementsReport(c, link.falseBranch, scope, expected, transfers, taken))
  {
    hide ExpressionReport, StatementsReport, When;
  }

  lemma OneStatement(c: Context, s: seq<Statement>, scope: Scope, expected: Type,
      transfers: FallThrough.TransferScope, r: Report)
    requires |s| == 1
    ensures StatementsReport(c, s, scope, expected, transfers, r)
      == StatementReport(c, s[0], scope, expected, transfers, r)
  {
    hide StatementReport;
    assert s[1..] == [];
  }

  // ---------------------------------------------------------------------------
  // Modules

  method CheckSources(rules: Rules, files: seq<Text>) returns (seen: set<Text>, issues: seq<ModuleIssue>)
    ensures issues == SourceIssues(rules, files, {}) && forall f :: f in seen <==> f in files
  {
    hide When;
    seen, issues := {}, [];
    for i := 0 to |files|
      invariant forall f :: f in seen <==> f in files[..i]
      invariant SourceIssues(rules, files, {}) == issues + SourceIssues(rules, files[i..], seen)
    {
      ghost var before := issues;
      var found := When(files[i] in seen, 1061, 0, When(!rules.isNormalizedPath(files[i]), 1060, 0, []));
      issues := issues + Owned(0, found);
      assert files[i..][1..] == files[i + 1..];
      assert files[..i + 1] == files[..i] + [files[i]];
      Joins(before, Owned(0, found), SourceIssues(rules, files[i + 1..], seen + {files[i]}));
      seen := seen + {files[i]};
    }
    assert files[..|files|] == files;
  }

  lemma Joins(a: seq<ModuleIssue>, b: seq<ModuleIssue>, c: seq<ModuleIssue>)
    ensures a + b + c == a + (b + c)
  {
  }

  method Declare(rules: Rules, x: Module, seen: set<Text>) returns (declared: Scope, issues: seq<ModuleIssue>)
    requires forall f :: f in seen <==> f in x.sourceFiles
    ensures declared == Declared(x.functions)
    ensures issues == DeclarationIssues(rules, x.sourceFiles, x.functions, map[])
  {
    hide When, CheckedSymbol, Owned;
    var functions := x.functions;
    declared, issues := map[], [];
    for i := 0 to |functions|
      invariant declared == Declared(functions[..i])
      invariant DeclarationIssues(rules, x.sourceFiles, functions, map[])
             == issues + DeclarationIssues(rules, x.sourceFiles, functions[i..], declared)
    {
      ghost var before := issues;
      var f := functions[i];
      var id := f.symbol.id;
      var found := When(f.sourceFile != [] && !rules.isNormalizedPath(f.sourceFile), 1062, id, []);
      found := When(x.sourceFiles != [] && f.sourceFile !in seen, 1063, id, found);
      found := CheckedSymbol(f.symbol, 1006, found);
      found := When(id in declared, 1002, id, found);
      issues := issues + Owned(id, found);
      assert functions[i..][1..] == functions[i + 1..];
      assert functions[..i + 1][..i] == functions[..i];
      Joins(before, Owned(id, found), DeclarationIssues(rules, x.sourceFiles, functions[i + 1..],
          WithFunction(f, declared)));
      declared := WithFunction(f, declared);
    }
    assert functions[..|functions|] == functions;
  }

  method Verify(x: Module, rules: Rules) returns (issues: seq<ModuleIssue>)
    ensures issues == ModuleIssues(x, rules)
  {
    hide FunctionReport, Declared, DeclarationIssues, SourceIssues, Owned;
    issues := NameIssues(x.name);
    var seen, sources := CheckSources(rules, x.sourceFiles);
    issues := issues + sources;
    var declared, declarations := Declare(rules, x, seen);
    issues := issues + declarations;
    var c := Context(rules, declared);
    for i := 0 to |x.functions|
      invariant ModuleIssues(x, rules) == issues + FunctionsIssues(c, x.functions[i..])
    {
      ghost var before := issues;
      var verifier := new FunctionVerifier(c, []);
      verifier.Run(x.functions[i]);
      var own := Owned(x.functions[i].symbol.id, verifier.issues);
      issues := issues + own;
      assert x.functions[i..][1..] == x.functions[i + 1..];
      Joins(before, own, FunctionsIssues(c, x.functions[i + 1..]));
    }
  }
}
