/** The fall-through check of the Core verifier (Talac/Core/Verifier.cpp): which bodies cannot
    complete without returning, and what that means for their executions. */
module FallThrough {

  datatype LoopKind = While | DoWhile | For

  /** A Core statement, as far as control flow goes. A condition is known only when it is the
      literal true. */
  datatype Statement =
    | Simple
    | Return
    | If(trueBranch: seq<Statement>, falseBranch: seq<Statement>)
    | Loop(kind: LoopKind, literalTrue: bool, body: seq<Statement>, update: seq<Statement>)
    | Break
    | Continue

  // ---------------------------------------------------------------------------
  // Executions

  /** How a statement list ends. */
  datatype Outcome = Falls | Returns | Breaks | Continues

  /** Some execution of a list, nested at most n deep, ends with the given outcome. Conditions
      that are not the literal true may go either way at every test. */
  ghost predicate Runs(s: seq<Statement>, out: Outcome, n: nat)
    decreases n, 1, |s|
  {
    if s == [] then out == Falls
    else
      || (out != Falls && RunsOne(s[0], out, n))
      || (RunsOne(s[0], Falls, n) && Runs(s[1..], out, n))
  }

  ghost predicate RunsOne(s: Statement, out: Outcome, n: nat)
    decreases n, 0, 0
  {
    match s
    case Simple => out == Falls
    case Return => out == Returns
    case Break => out == Breaks
    case Continue => out == Continues
    case If(whenTrue, whenFalse) => n > 0 && (Runs(whenTrue, out, n - 1) || Runs(whenFalse, out, n - 1))
    case Loop(kind, _, _, _) => n > 0 && if kind == DoWhile then Round(s, out, n - 1) else Test(s, out, n - 1)
  }

  /** From the test of the condition on. */
  ghost predicate Test(loop: Statement, out: Outcome, n: nat)
    requires loop.Loop?
    decreases n, 5, 0
  {
    (!loop.literalTrue && out == Falls) || Round(loop, out, n)
  }

  /** From the start of the body on. */
  ghost predicate Round(loop: Statement, out: Outcome, n: nat)
    requires loop.Loop?
    decreases n, 4, 0
  {
    exists b: Outcome :: Runs(loop.body, b, n) && AfterBody(loop, b, out, n)
  }

  ghost predicate AfterBody(loop: Statement, b: Outcome, out: Outcome, n: nat)
    requires loop.Loop?
    decreases n, 3, 0
  {
    match b
    case Breaks => out == Falls
    case Returns => out == Returns
    case _ => Update(loop, out, n)
  }

  /** From the update region on; a continue there enters it again. */
  ghost predicate Update(loop: Statement, out: Outcome, n: nat)
    requires loop.Loop?
    decreases n, 2, 0
  {
    exists u: Outcome :: Runs(loop.update, u, n) && AfterUpdate(loop, u, out, n)
  }

  ghost predicate AfterUpdate(loop: Statement, u: Outcome, out: Outcome, n: nat)
    requires loop.Loop?
    decreases n, 0, 0
  {
    match u
    case Breaks => out == Falls
    case Returns => out == Returns
    case Falls => n > 0 && Test(loop, out, n - 1)
    case Continues => n > 0 && Update(loop, out, n - 1)
  }

  // ---------------------------------------------------------------------------
  // The check

  /** A break that would leave the loop around the list: one outside any nested loop. */
  predicate BreaksOut(s: seq<Statement>) {
    s != [] && (BreaksOutOne(s[0]) || BreaksOut(s[1..]))
  }

  predicate BreaksOutOne(s: Statement) {
    match s
    case Break => true
    case If(whenTrue, whenFalse) => BreaksOut(whenTrue) || BreaksOut(whenFalse)
    case _ => false
  }

  predicate NeverLeft(s: Statement) {
    s.Loop? && s.literalTrue && !BreaksOut(s.body) && !BreaksOut(s.update)
  }

  /** Control cannot fall off the end of the list. */
  predicate NeverFalls(s: seq<Statement>) {
    s != [] && (Decides(s[0]) || NeverFalls(s[1..]))
  }

  predicate Decides(s: Statement) {
    match s
    case Return => true
    case If(whenTrue, whenFalse) => NeverFalls(whenTrue) && NeverFalls(whenFalse)
    case _ => NeverLeft(s)
  }

  function Size(s: seq<Statement>): nat {
    if s == [] then 0 else SizeOne(s[0]) + Size(s[1..])
  }

  function SizeOne(s: Statement): nat {
    match s
    case If(whenTrue, whenFalse) => 2 + Size(whenTrue) + Size(whenFalse)
    case Loop(_, _, body, update) => 1 + Size(body) + Size(update)
    case _ => 1
  }

  function Sizes(pending: seq<seq<Statement>>): nat {
    if pending == [] then 0 else Sizes(pending[..|pending| - 1]) + Size(pending[|pending| - 1]) + 1
  }

  /** Some waiting list breaks out. */
  ghost predicate AnyBreaksOut(pending: seq<seq<Statement>>) {
    exists i :: 0 <= i < |pending| && BreaksOut(pending[i])
  }

  lemma SizesPush(pending: seq<seq<Statement>>, s: seq<Statement>)
    ensures Sizes(pending + [s]) == Sizes(pending) + Size(s) + 1
    ensures AnyBreaksOut(pending + [s]) <==> AnyBreaksOut(pending) || BreaksOut(s)
  {
    var longer := pending + [s];
    assert longer[..|longer| - 1] == pending;
    if AnyBreaksOut(pending) {
      var i :| 0 <= i < |pending| && BreaksOut(pending[i]);
      assert longer[i] == pending[i];
    }
    if BreaksOut(s) {
      assert longer[|pending|] == s;
    }
  }

  /** One list of the search: a break ends it, an if adds its branches. */
  method SearchList(pending0: seq<seq<Statement>>, statements: seq<Statement>)
      returns (found: bool, pending: seq<seq<Statement>>)
    ensures found ==> BreaksOut(statements)
    ensures !found ==> (AnyBreaksOut(pending) <==> AnyBreaksOut(pending0) || BreaksOut(statements))
    ensures !found ==> Sizes(pending) <= Sizes(pending0) + Size(statements)
  {
    pending := pending0;
    assert statements[0..] == statements;
    for i := 0 to |statements|
      invariant Sizes(pending) <= Sizes(pending0) + Size(statements) - Size(statements[i..])
      invariant AnyBreaksOut(pending) || BreaksOut(statements[i..]) <==> AnyBreaksOut(pending0) || BreaksOut(statements)
      invariant BreaksOut(statements[i..]) ==> BreaksOut(statements)
    {
      var nested := statements[i];
      Head(statements, i);
      if nested == Break {
        return true, pending;
      }
      if nested.If? {
        SizesPush(pending, nested.trueBranch);
        SizesPush(pending + [nested.trueBranch], nested.falseBranch);
        pending := pending + [nested.trueBranch] + [nested.falseBranch];
      }
    }
    assert statements[|statements|..] == [];
    found := false;
  }

  lemma Head(s: seq<Statement>, i: nat)
    requires i < |s|
    ensures Size(s[i..]) == SizeOne(s[i]) + Size(s[i + 1..])
    ensures BreaksOut(s[i..]) <==> BreaksOutOne(s[i]) || BreaksOut(s[i + 1..])
    ensures NeverFalls(s[i..]) <==> Decides(s[i]) || NeverFalls(s[i + 1..])
  {
    assert s[i..][0] == s[i] && s[i..][1..] == s[i + 1..];
  }

  /** The search of the source: statement lists from a stack, so that an else-if chain costs no
      recursion; breaks of nested loops are their own. */
  method CannotBeLeft(s: Statement) returns (r: bool)
    ensures r <==> NeverLeft(s)
  {
    if !s.Loop? || !s.literalTrue {
      return false;
    }
    var pending := [s.body] + [s.update];
    SizesPush([s.body], s.update);
    SizesPush([], s.body);
    assert [] + [s.body] == [s.body];
    while pending != []
      invariant AnyBreaksOut(pending) <==> BreaksOut(s.body) || BreaksOut(s.update)
      decreases Sizes(pending)
    {
      var k := |pending| - 1;
      var statements := pending[k];
      assert pending == pending[..k] + [statements];
      SizesPush(pending[..k], statements);
      var found, rest := SearchList(pending[..k], statements);
      if found {
        return false;
      }
      pending := rest;
    }
    r := true;
  }

  /** The check of the source: an if that ends its list continues the walk in its false branch. */
  method AlwaysReturns(body: seq<Statement>) returns (r: bool)
    ensures r <==> NeverFalls(body)
    decreases Size(body)
  {
    var statements := body;
    while true
      invariant Size(statements) <= Size(body)
      invariant NeverFalls(statements) <==> NeverFalls(body)
      decreases Size(statements)
    {
      var decided, deciding := FirstDeciding(statements, body);
      if decided {
        return true;
      }
      if deciding == |statements| {
        return false;
      }
      Head(statements, deciding);
      assert statements[deciding + 1..] == [];
      SizeOfPart(statements, deciding);
      statements := statements[deciding].falseBranch;
    }
  }

  /** One pass over a list: some statement decides it, or its last statement is an if whose false
      branch does, or nothing does. */
  method FirstDeciding(statements: seq<Statement>, ghost body: seq<Statement>) returns (decided: bool, deciding: nat)
    requires Size(statements) <= Size(body)
    ensures decided ==> NeverFalls(statements)
    ensures deciding <= |statements|
    ensures !decided && deciding == |statements| ==> !NeverFalls(statements)
    ensures !decided && deciding < |statements| ==>
      && deciding == |statements| - 1 && statements[deciding].If?
      && NeverFalls(statements[deciding].trueBranch)
      && (NeverFalls(statements) <==> NeverFalls(statements[deciding].falseBranch))
    decreases Size(body), 0, |statements|
  {
    assert statements[0..] == statements;
    decided, deciding := false, |statements|;
    for i := 0 to |statements|
      invariant NeverFalls(statements) <==> NeverFalls(statements[i..])
    {
      var statement := statements[i];
      Head(statements, i);
      SizeOfPart(statements, i);
      var stuck := CannotBeLeft(statement);
      if statement == Return || stuck {
        return true, i;
      }
      if !statement.If? || statement.falseBranch == [] {
        continue;
      }
      var inTrue := AlwaysReturns(statement.trueBranch);
      if !inTrue {
        continue;
      }
      if i == |statements| - 1 {
        assert statements[i + 1..] == [];
        return false, i;
      }
      var inFalse := AlwaysReturns(statement.falseBranch);
      if inFalse {
        return true, i;
      }
    }
    assert statements[|statements|..] == [];
  }

  lemma {:induction false} SizeOfPart(s: seq<Statement>, i: nat)
    requires i < |s|
    ensures SizeOne(s[i]) <= Size(s)
  {
    if i > 0 {
      SizeOfPart(s[1..], i - 1);
    }
  }

  // ---------------------------------------------------------------------------
  // What the check means

  /** A list without a break of its own never ends by one. */
  lemma {:induction false} NoBreakNoBreaks(s: seq<Statement>, n: nat)
    requires !BreaksOut(s)
    ensures !Runs(s, Breaks, n)
    decreases Size(s), |s|
  {
    if s != [] {
      var first := s[0];
      if first.If? && n > 0 {
        assert Size(s) == SizeOne(first) + Size(s[1..]);
        NoBreakNoBreaks(first.trueBranch, n - 1);
        NoBreakNoBreaks(first.falseBranch, n - 1);
      }
      if first.Loop? {
        LoopKeepsTransfers(first, Breaks, n);
      }
      NoBreakNoBreaks(s[1..], n);
    }
  }

  /** A loop ends only by falling through or by a return. */
  lemma LoopKeepsTransfers(loop: Statement, out: Outcome, n: nat)
    requires loop.Loop? && (out == Breaks || out == Continues)
    ensures !RunsOne(loop, out, n)
  {
    if n > 0 {
      RoundsKeepTransfers(loop, out, n - 1);
    }
  }

  lemma {:induction false} RoundsKeepTransfers(loop: Statement, out: Outcome, n: nat)
    requires loop.Loop? && (out == Breaks || out == Continues)
    ensures !Test(loop, out, n) && !Round(loop, out, n) && !Update(loop, out, n)
  {
    hide Runs;
    if n > 0 {
      RoundsKeepTransfers(loop, out, n - 1);
    }
    assert forall u: Outcome :: !AfterUpdate(loop, u, out, n);
    assert !Update(loop, out, n);
    assert forall b: Outcome :: !AfterBody(loop, b, out, n);
    assert !Round(loop, out, n);
  }

  /** A loop that the check says cannot be left is never left by falling through. */
  lemma {:induction false} NeverLeftNeverFalls(loop: Statement, n: nat)
    requires loop.Loop? && NeverLeft(loop)
    ensures !Test(loop, Falls, n) && !Round(loop, Falls, n) && !Update(loop, Falls, n)
  {
    NoBreakNoBreaks(loop.body, n);
    NoBreakNoBreaks(loop.update, n);
    hide Runs, BreaksOut;
    if n > 0 {
      NeverLeftNeverFalls(loop, n - 1);
    }
    assert forall u: Outcome :: u != Breaks ==> !AfterUpdate(loop, u, Falls, n);
    assert !Update(loop, Falls, n);
    assert forall b: Outcome :: b != Breaks ==> !AfterBody(loop, b, Falls, n);
    assert !Round(loop, Falls, n);
  }

  /** A body the check accepts never falls off its end, however its conditions turn out. */
  lemma {:induction false} AcceptedNeverFalls(s: seq<Statement>, n: nat)
    requires NeverFalls(s)
    ensures !Runs(s, Falls, n)
    decreases Size(s), |s|
  {
    var first := s[0];
    if Decides(first) {
      if first.If? && n > 0 {
        assert Size(s) == SizeOne(first) + Size(s[1..]);
        AcceptedNeverFalls(first.trueBranch, n - 1);
        AcceptedNeverFalls(first.falseBranch, n - 1);
      }
      if first.Loop? && n > 0 {
        NeverLeftNeverFalls(first, n - 1);
      }
    } else {
      AcceptedNeverFalls(s[1..], n);
    }
  }

  // ---------------------------------------------------------------------------
  // Breaks and continues outside a loop

  datatype TransferScope = OutsideLoop | InLoopBody | InForUpdate

  datatype Issue = BreakOutside | ContinueOutside | ContinueInUpdate

  /** The transfer issues of a statement list, in the order they are reported. The update region
      is looked at for a for loop only. */
  function TransferIssues(s: seq<Statement>, scope: TransferScope): seq<Issue>
    decreases Size(s), |s|
  {
    if s == [] then [] else TransferIssuesOne(s[0], scope) + TransferIssues(s[1..], scope)
  }

  function TransferIssuesOne(s: Statement, scope: TransferScope): seq<Issue>
    decreases SizeOne(s), 0
  {
    match s
    case If(whenTrue, whenFalse) => TransferIssues(whenTrue, scope) + TransferIssues(whenFalse, scope)
    case Loop(kind, _, body, update) =>
      TransferIssues(body, InLoopBody) + if kind == For then TransferIssues(update, InForUpdate) else []
    case Break => if scope == OutsideLoop then [BreakOutside] else []
    case Continue =>
      if scope == OutsideLoop then [ContinueOutside] else if scope == InForUpdate then [ContinueInUpdate] else []
    case _ => []
  }

  /** Without a report, nothing outside a loop breaks or continues. */
  lemma {:induction false} NoReportNoTransfer(s: seq<Statement>, out: Outcome, n: nat)
    requires TransferIssues(s, OutsideLoop) == [] && (out == Breaks || out == Continues)
    ensures !Runs(s, out, n)
    decreases Size(s), |s|
  {
    if s != [] {
      var first := s[0];
      assert TransferIssuesOne(first, OutsideLoop) == [] && TransferIssues(s[1..], OutsideLoop) == [];
      if first.If? && n > 0 {
        assert Size(s) == SizeOne(first) + Size(s[1..]);
        NoReportNoTransfer(first.trueBranch, out, n - 1);
        NoReportNoTransfer(first.falseBranch, out, n - 1);
      }
      if first.Loop? {
        LoopKeepsTransfers(first, out, n);
      }
      NoReportNoTransfer(s[1..], out, n);
    }
  }

  /** A body without a report that the check accepts: every execution that ends, returns. */
  lemma EveryEndReturns(s: seq<Statement>, out: Outcome, n: nat)
    requires TransferIssues(s, OutsideLoop) == [] && NeverFalls(s) && Runs(s, out, n)
    ensures out == Returns
  {
    AcceptedNeverFalls(s, n);
    if out == Breaks || out == Continues {
      NoReportNoTransfer(s, out, n);
    }
  }
}
