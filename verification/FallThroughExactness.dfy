/** For which bodies the fall-through check of the Core verifier is exact (Talac/Core/Verifier.cpp):
    how a list can end is a question about its structure, and only loops can mislead the check. */
module FallThroughExactness {
  import opened FallThrough

  // ---------------------------------------------------------------------------
  // How a list can end

  /** Some execution of the list ends this way. */
  predicate Can(s: seq<Statement>, out: Outcome) {
    if s == [] then out == Falls else (out != Falls && CanOne(s[0], out)) || (CanOne(s[0], Falls) && Can(s[1..], out))
  }

  predicate CanOne(s: Statement, out: Outcome) {
    match s
    case Simple => out == Falls
    case Return => out == Returns
    case Break => out == Breaks
    case Continue => out == Continues
    case If(whenTrue, whenFalse) => Can(whenTrue, out) || Can(whenFalse, out)
    case Loop(kind, literalTrue, body, update) =>
      var reachesUpdate := Can(body, Falls) || Can(body, Continues);
      match out
      case Returns => Can(body, Returns) || (reachesUpdate && Can(update, Returns))
      case Falls =>
        || Can(body, Breaks)
        || (reachesUpdate && Can(update, Breaks))
        || (!literalTrue && (kind != DoWhile || (reachesUpdate && Can(update, Falls))))
      case _ => false
  }

  /** Control can come to the update region of the loop. */
  predicate ReachesUpdate(loop: Statement)
    requires loop.Loop?
  {
    Can(loop.body, Falls) || Can(loop.body, Continues)
  }

  /** Control can come to the test of the condition. */
  predicate ReachesTest(loop: Statement)
    requires loop.Loop?
  {
    loop.kind != DoWhile || (ReachesUpdate(loop) && Can(loop.update, Falls))
  }

  /** Control can come to a break of the loop. */
  predicate ReachesBreak(loop: Statement)
    requires loop.Loop?
  {
    Can(loop.body, Breaks) || (ReachesUpdate(loop) && Can(loop.update, Breaks))
  }

  predicate ReachesReturn(loop: Statement)
    requires loop.Loop?
  {
    Can(loop.body, Returns) || (ReachesUpdate(loop) && Can(loop.update, Returns))
  }

  /** A loop ends by a return, or by a break or a test that fails. */
  lemma LoopEnds(loop: Statement, out: Outcome)
    requires loop.Loop?
    ensures CanOne(loop, out) <==>
            || (out == Returns && ReachesReturn(loop))
            || (out == Falls && (ReachesBreak(loop) || (!loop.literalTrue && ReachesTest(loop))))
  {
    hide Can;
  }

  // ---------------------------------------------------------------------------
  // Executions end only as the structure says

  lemma {:induction false} RunsCan(s: seq<Statement>, out: Outcome, n: nat)
    requires Runs(s, out, n)
    ensures Can(s, out)
    decreases n, 1, |s|
  {
    hide RunsOne, CanOne;
    if s != [] {
      if out != Falls && RunsOne(s[0], out, n) {
        RunsOneCan(s[0], out, n);
      } else {
        RunsOneCan(s[0], Falls, n);
        RunsCan(s[1..], out, n);
      }
    }
  }

  lemma {:induction false} RunsOneCan(s: Statement, out: Outcome, n: nat)
    requires RunsOne(s, out, n)
    ensures CanOne(s, out)
    decreases n, 0, 0
  {
    hide Can, Runs, Test, Round;
    match s
    case If(whenTrue, whenFalse) =>
      if Runs(whenTrue, out, n - 1) {
        RunsCan(whenTrue, out, n - 1);
      } else {
        RunsCan(whenFalse, out, n - 1);
      }
    case Loop(kind, _, _, _) =>
      if kind == DoWhile {
        RoundCan(s, out, n - 1);
      } else {
        TestCan(s, out, n - 1);
      }
    case _ =>
  }

  lemma {:induction false} TestCan(loop: Statement, out: Outcome, n: nat)
    requires loop.Loop? && ReachesTest(loop) && Test(loop, out, n)
    ensures CanOne(loop, out)
    decreases n, 5, 0
  {
    hide Can, CanOne, Round;
    LoopEnds(loop, out);
    if Round(loop, out, n) {
      RoundCan(loop, out, n);
    }
  }

  lemma {:induction false} RoundCan(loop: Statement, out: Outcome, n: nat)
    requires loop.Loop? && Round(loop, out, n)
    ensures CanOne(loop, out)
    decreases n, 4, 0
  {
    hide Can, CanOne, Runs, Update;
    LoopEnds(loop, out);
    var b: Outcome :| Runs(loop.body, b, n) && AfterBody(loop, b, out, n);
    RunsCan(loop.body, b, n);
    if b == Falls || b == Continues {
      UpdateCan(loop, out, n);
    }
  }

  lemma {:induction false} UpdateCan(loop: Statement, out: Outcome, n: nat)
    requires loop.Loop? && ReachesUpdate(loop) && Update(loop, out, n)
    ensures CanOne(loop, out)
    decreases n, 2, 0
  {
    hide Can, CanOne, Runs, Test;
    LoopEnds(loop, out);
    var u: Outcome :| Runs(loop.update, u, n) && AfterUpdate(loop, u, out, n);
    RunsCan(loop.update, u, n);
    if u == Falls {
      TestCan(loop, out, n - 1);
    } else if u == Continues {
      UpdateCan(loop, out, n - 1);
    }
  }

  // ---------------------------------------------------------------------------
  // More nesting allows no less

  lemma {:induction false} RunsMore(s: seq<Statement>, out: Outcome, n: nat, m: nat)
    requires Runs(s, out, n) && n <= m
    ensures Runs(s, out, m)
    decreases n, 1, |s|
  {
    hide RunsOne;
    if s != [] {
      if out != Falls && RunsOne(s[0], out, n) {
        RunsOneMore(s[0], out, n, m);
      } else {
        RunsOneMore(s[0], Falls, n, m);
        RunsMore(s[1..], out, n, m);
      }
    }
  }

  lemma {:induction false} RunsOneMore(s: Statement, out: Outcome, n: nat, m: nat)
    requires RunsOne(s, out, n) && n <= m
    ensures RunsOne(s, out, m)
    decreases n, 0, 0
  {
    hide Runs, Test, Round;
    match s
    case If(whenTrue, whenFalse) =>
      if Runs(whenTrue, out, n - 1) {
        RunsMore(whenTrue, out, n - 1, m - 1);
      } else {
        RunsMore(whenFalse, out, n - 1, m - 1);
      }
    case Loop(kind, _, _, _) =>
      if kind == DoWhile {
        RoundMore(s, out, n - 1, m - 1);
      } else {
        TestMore(s, out, n - 1, m - 1);
      }
    case _ =>
  }

  lemma {:induction false} TestMore(loop: Statement, out: Outcome, n: nat, m: nat)
    requires loop.Loop? && Test(loop, out, n) && n <= m
    ensures Test(loop, out, m)
    decreases n, 5, 0
  {
    hide Round;
    if Round(loop, out, n) {
      RoundMore(loop, out, n, m);
    }
  }

  lemma {:induction false} RoundMore(loop: Statement, out: Outcome, n: nat, m: nat)
    requires loop.Loop? && Round(loop, out, n) && n <= m
    ensures Round(loop, out, m)
    decreases n, 4, 0
  {
    hide Runs, Update;
    var b: Outcome :| Runs(loop.body, b, n) && AfterBody(loop, b, out, n);
    RunsMore(loop.body, b, n, m);
    if b == Falls || b == Continues {
      UpdateMore(loop, out, n, m);
    }
    assert AfterBody(loop, b, out, m);
  }

  lemma {:induction false} UpdateMore(loop: Statement, out: Outcome, n: nat, m: nat)
    requires loop.Loop? && Update(loop, out, n) && n <= m
    ensures Update(loop, out, m)
    decreases n, 2, 0
  {
    hide Runs, Test;
    var u: Outcome :| Runs(loop.update, u, n) && AfterUpdate(loop, u, out, n);
    RunsMore(loop.update, u, n, m);
    if u == Falls {
      TestMore(loop, out, n - 1, m - 1);
    } else if u == Continues {
      UpdateMore(loop, out, n - 1, m - 1);
    }
    assert AfterUpdate(loop, u, out, m);
  }

  // ---------------------------------------------------------------------------
  // What the structure allows, some execution does

  function Larger(a: nat, b: nat): (m: nat)
    ensures a <= m && b <= m
  {
    if a < b then b else a
  }

  lemma {:induction false} CanRuns(s: seq<Statement>, out: Outcome) returns (n: nat)
    requires Can(s, out)
    ensures Runs(s, out, n)
    decreases s
  {
    hide RunsOne, CanOne;
    if s == [] {
      n := 0;
    } else if out != Falls && CanOne(s[0], out) {
      n := CanRunsOne(s[0], out);
    } else {
      var first := CanRunsOne(s[0], Falls);
      var rest := CanRuns(s[1..], out);
      n := Larger(first, rest);
      RunsOneMore(s[0], Falls, first, n);
      RunsMore(s[1..], out, rest, n);
    }
  }

  lemma {:induction false} CanRunsOne(s: Statement, out: Outcome) returns (n: nat)
    requires CanOne(s, out)
    ensures RunsOne(s, out, n)
    decreases s, 1
  {
    hide Can, Runs, Test, Round;
    n := 1;
    match s
    case If(whenTrue, whenFalse) =>
      if Can(whenTrue, out) {
        n := CanRuns(whenTrue, out);
      } else {
        n := CanRuns(whenFalse, out);
      }
      n := n + 1;
    case Loop(_, _, _, _) => n := CanLeave(s, out);
    case _ =>
  }

  lemma {:induction false} CanLeave(loop: Statement, out: Outcome) returns (n: nat)
    requires loop.Loop? && CanOne(loop, out)
    ensures RunsOne(loop, out, n)
    decreases loop, 0
  {
    hide Can, CanOne, Runs, RunsOne, Test, Round;
    LoopEnds(loop, out);
    if out == Returns && Can(loop.body, Returns) {
      n := CanRuns(loop.body, Returns);
      BodyEnds(loop, Returns, out, n);
      Enters(loop, out, n);
      n := n + 1;
    } else if out == Falls && Can(loop.body, Breaks) {
      n := CanRuns(loop.body, Breaks);
      BodyEnds(loop, Breaks, out, n);
      Enters(loop, out, n);
      n := n + 1;
    } else if out == Falls && !loop.literalTrue && loop.kind != DoWhile {
      n := 1;
      TestFails(loop, 0);
    } else {
      var u := if out == Returns then Returns else if Can(loop.update, Breaks) then Breaks else Falls;
      var b := if Can(loop.body, Falls) then Falls else Continues;
      var inBody := CanRuns(loop.body, b);
      var inUpdate := CanRuns(loop.update, u);
      n := Larger(Larger(inBody, inUpdate), 1);
      RunsMore(loop.body, b, inBody, n);
      RunsMore(loop.update, u, inUpdate, n);
      UpdateEnds(loop, b, u, out, n);
      Enters(loop, out, n);
      n := n + 1;
    }
  }

  lemma BodyEnds(loop: Statement, b: Outcome, out: Outcome, n: nat)
    requires loop.Loop? && Runs(loop.body, b, n) && ((b == Returns && out == Returns) || (b == Breaks && out == Falls))
    ensures Round(loop, out, n)
  {
    hide Runs;
    assert AfterBody(loop, b, out, n);
  }

  lemma UpdateEnds(loop: Statement, b: Outcome, u: Outcome, out: Outcome, n: nat)
    requires loop.Loop? && Runs(loop.body, b, n) && (b == Falls || b == Continues) && Runs(loop.update, u, n) && n > 0
    requires (u == Returns && out == Returns) || (u == Breaks && out == Falls)
      || (u == Falls && out == Falls && !loop.literalTrue)
    ensures Round(loop, out, n)
  {
    hide Runs;
    assert AfterUpdate(loop, u, out, n);
    assert Update(loop, out, n);
    assert AfterBody(loop, b, out, n);
  }

  lemma Enters(loop: Statement, out: Outcome, n: nat)
    requires loop.Loop? && Round(loop, out, n)
    ensures RunsOne(loop, out, n + 1)
  {
    hide Round;
  }

  lemma TestFails(loop: Statement, n: nat)
    requires loop.Loop? && loop.kind != DoWhile && !loop.literalTrue
    ensures RunsOne(loop, Falls, n + 1)
  {
    hide Round;
  }

  /** Some execution, however deep, ends this way. */
  ghost predicate EndsBy(s: seq<Statement>, out: Outcome) {
    exists n: nat :: Runs(s, out, n)
  }

  /** The structure says exactly how executions can end. */
  lemma CanIffEndsBy(s: seq<Statement>, out: Outcome)
    ensures Can(s, out) <==> EndsBy(s, out)
  {
    hide Can, Runs;
    if Can(s, out) {
      var n := CanRuns(s, out);
    }
    if EndsBy(s, out) {
      var n: nat :| Runs(s, out, n);
      RunsCan(s, out, n);
    }
  }

  // ---------------------------------------------------------------------------
  // When the check is exact

  /** The answer about a list says what its executions do. */
  ghost predicate IsExact(s: seq<Statement>) {
    NeverFalls(s) <==> !EndsBy(s, Falls)
  }

  /** A loop shows what it does: one that tests the literal true reaches a break if it has one, and
      any other reaches its test or a break. */
  predicate TidyLoop(loop: Statement)
    requires loop.Loop?
  {
    if loop.literalTrue then (BreaksOut(loop.body) || BreaksOut(loop.update)) ==> ReachesBreak(loop)
    else ReachesTest(loop) || ReachesBreak(loop)
  }

  /** Every loop that the check looks at is tidy. */
  predicate Tidy(s: seq<Statement>) {
    s == [] || (TidyOne(s[0]) && Tidy(s[1..]))
  }

  predicate TidyOne(s: Statement) {
    match s
    case If(whenTrue, whenFalse) => Tidy(whenTrue) && Tidy(whenFalse)
    case Loop(_, _, _, _) => TidyLoop(s)
    case _ => true
  }

  /** Up to a statement that decides, every statement lets control pass. One that does not is made
      good by a later statement that decides. */
  predicate Clear(s: seq<Statement>) {
    s == [] || Decides(s[0]) || if Passes(s[0]) then Clear(s[1..]) else NeverFalls(s[1..])
  }

  predicate Passes(s: Statement) {
    match s
    case Simple => true
    case If(whenTrue, whenFalse) => (!NeverFalls(whenTrue) && Clear(whenTrue))
        || (!NeverFalls(whenFalse) && Clear(whenFalse))
    case Loop(_, _, _, _) => !NeverLeft(s) && TidyLoop(s)
    case _ => false
  }

  lemma {:induction false} DecidedCannotFall(s: seq<Statement>)
    requires NeverFalls(s)
    ensures !Can(s, Falls)
  {
    hide Can, Runs, NeverFalls;
    CanIffEndsBy(s, Falls);
    if EndsBy(s, Falls) {
      var n: nat :| Runs(s, Falls, n);
      AcceptedNeverFalls(s, n);
    }
  }

  lemma OneCan(s: Statement)
    ensures Can([s], Falls) <==> CanOne(s, Falls)
    ensures NeverFalls([s]) <==> Decides(s)
  {
    hide CanOne, Decides;
    assert [s][1..] == [];
  }

  /** A loop that the check does not take for one that cannot be left can be left exactly when it is
      tidy. */
  lemma TidyLoopFalls(loop: Statement)
    requires loop.Loop? && !NeverLeft(loop)
    ensures TidyLoop(loop) <==> CanOne(loop, Falls)
  {
    hide Can, CanOne, BreaksOut;
    LoopEnds(loop, Falls);
  }

  lemma {:induction false} ClearIffStructure(s: seq<Statement>)
    ensures Clear(s) <==> (NeverFalls(s) <==> !Can(s, Falls))
    decreases s
  {
    hide CanOne, Decides, Passes;
    if s != [] {
      var rest := s[1..];
      ClearIffStructure(rest);
      OneCan(s[0]);
      if Decides(s[0]) {
        DecidedCannotFall([s[0]]);
      } else {
        PassesIffFalls(s[0]);
        if NeverFalls(rest) {
          DecidedCannotFall(rest);
        }
      }
    }
  }

  lemma {:induction false} PassesIffFalls(s: Statement)
    requires !Decides(s)
    ensures Passes(s) <==> CanOne(s, Falls)
    decreases s
  {
    hide Can, Clear, NeverFalls, NeverLeft;
    match s
    case If(whenTrue, whenFalse) =>
      ClearIffStructure(whenTrue);
      ClearIffStructure(whenFalse);
      if NeverFalls(whenTrue) {
        DecidedCannotFall(whenTrue);
      }
      if NeverFalls(whenFalse) {
        DecidedCannotFall(whenFalse);
      }
    case Loop(_, _, _, _) => TidyLoopFalls(s);
    case _ =>
  }

  /** The check is exact for a body exactly when the body is clear. */
  lemma ExactIffClear(s: seq<Statement>)
    ensures IsExact(s) <==> Clear(s)
  {
    hide Can, EndsBy, NeverFalls, Clear;
    CanIffEndsBy(s, Falls);
    ClearIffStructure(s);
  }

  /** For a single loop that is being tidy. */
  lemma LoopExactIffTidy(loop: Statement)
    requires loop.Loop?
    ensures IsExact([loop]) <==> TidyLoop(loop)
  {
    hide EndsBy, NeverFalls;
    ExactIffClear([loop]);
    assert [loop][1..] == [];
    assert !NeverFalls([]) by {
      NothingDecides();
    }
  }

  lemma NothingDecides()
    ensures !NeverFalls([])
  {
  }

  lemma {:induction false} TidyIsClear(s: seq<Statement>)
    requires Tidy(s) && TransferIssues(s, OutsideLoop) == []
    ensures Clear(s)
    decreases s
  {
    hide Decides, TidyOne, TransferIssuesOne, Passes;
    if s != [] {
      assert TransferIssuesOne(s[0], OutsideLoop) == [];
      TidyIsClear(s[1..]);
      if !Decides(s[0]) {
        TidyPasses(s[0]);
      }
    }
  }

  lemma {:induction false} TidyPasses(s: Statement)
    requires TidyOne(s) && TransferIssuesOne(s, OutsideLoop) == [] && !Decides(s)
    ensures Passes(s)
    decreases s
  {
    hide Tidy, TransferIssues, TidyLoop, Clear, NeverFalls, NeverLeft;
    if s.If? {
      TidyIsClear(s.trueBranch);
      TidyIsClear(s.falseBranch);
    }
  }

  /** Where every loop the check looks at is tidy, and nothing breaks or continues outside a loop, a
      body is accepted exactly when no execution falls off its end. */
  lemma TidyBodiesAreDecided(s: seq<Statement>)
    requires Tidy(s) && TransferIssues(s, OutsideLoop) == []
    ensures NeverFalls(s) <==> !EndsBy(s, Falls)
  {
    hide Tidy, TransferIssues, Clear, NeverFalls, EndsBy;
    TidyIsClear(s);
    ExactIffClear(s);
  }

  // ---------------------------------------------------------------------------
  // Both ways of being untidy

  /** A break that no execution reaches, and a test that none reaches: these bodies never fall off
      their end and are refused. */
  lemma RefusedButNeverFalls()
    ensures var unreachedBreak := Loop(While, true, [Return, Break], []);
            !NeverFalls([unreachedBreak]) && !EndsBy([unreachedBreak], Falls) && !TidyLoop(unreachedBreak)
    ensures var unreachedTest := Loop(DoWhile, false, [Return], []);
            !NeverFalls([unreachedTest]) && !EndsBy([unreachedTest], Falls) && !TidyLoop(unreachedTest)
  {
    ReturnOnly([Break]);
    ReturnOnly([]);
    var first, second := Loop(While, true, [Return, Break], []), Loop(DoWhile, false, [Return], []);
    assert BreaksOut([Return, Break]) by {
      assert [Return, Break][1..] == [Break] && BreaksOut([Break]);
    }
    hide Can, EndsBy, BreaksOut;
    LoopEnds(first, Falls);
    LoopEnds(second, Falls);
    OneCan(first);
    OneCan(second);
    CanIffEndsBy([first], Falls);
    CanIffEndsBy([second], Falls);
  }

  lemma ReturnOnly(rest: seq<Statement>)
    ensures forall out: Outcome :: Can([Return] + rest, out) <==> out == Returns
    ensures [Return] + [] == [Return] && [Return] + [Break] == [Return, Break]
  {
    assert ([Return] + rest)[1..] == rest;
  }
}
