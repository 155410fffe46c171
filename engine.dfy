/** What the console and the desktop versions of the engine share: the
    rewrite rules and their fixed-point iteration, the step log, the choice of
    the unknown and the narrative of the closed-form solvers. */
module Engine {
  import opened Cas
  import opened Roots

  /** The simplification rules: expand, collect by a free symbol, and general
      simplification (the console version's `simplify_trig`). */
  datatype Rule = Expand | Collect | Trig

  /** One line of the step log.  The wording of the program's messages is not
      modelled; each message is a record of the values it prints. */
  datatype Step =
    | Rewrote(rule: Rule, before: Expr, after: Expr)       // "<rule>: before → after"
    | Normalized(lhs: Expr)                               // "simplified equation: lhs = 0"
    | LinearForm(a: real, b: real, unknown: Expr)         // "a*x + b = 0"
    | LinearSolution(a: real, b: real, unknown: Expr, root: Root)   // "x = -b/a = root"
    | QuadraticForm(a: real, b: real, c: real, unknown: Expr)     // "a*x² + b*x + c = 0"
    | DiscriminantIs(a: real, b: real, c: real, d: real)          // "D = b² - 4*a*c = d"
    | TwoRealRoots(unknown: Expr, x1: Root, x2: Root)             // "D > 0. roots x₁, x₂"
    | OneRealRoot(unknown: Expr, x: Root)                         // "D = 0. one root x"
    | ComplexRoots(unknown: Expr, z1: Root, z2: Root)             // "D < 0. complex roots z₁, z₂"
    | GenericSolutions(degree: int, solutions: seq<Expr>)         // "equation of degree n. solutions: ..."

  /** Why `solve` produced no answer.  `solve` raises in the last three
      cases: reading `.lhs` of a decided equation, `Poly` of a non-polynomial,
      or the generic solver itself.  In the first it never returns (see `Run`). */
  datatype SolveError = Unsettled | EquationDecided | NotPolynomial | SolverRaised

  datatype Answer = Solved(roots: seq<Root>) | Failed(error: SolveError)

  /** What a rule makes of e.  Collecting needs a free symbol: without one the
      expression is left as it is. */
  function Rewrite(sym: Sympy, rule: Rule, e: Expr): (r: Expr)
    ensures rule == Collect && sym.freeSymbols(e) == {} ==> r == e
  {
    match rule
    case Expand => sym.expand(e)
    case Collect =>
      var vars := sym.freeSymbols(e);
      if vars == {} then e else sym.collect(e, sym.first(vars))
    case Trig => sym.simplify(e)
  }

  /** A rule fires when its rewrite differs structurally from e. */
  predicate Fires(sym: Sympy, rule: Rule, e: Expr) {
    Rewrite(sym, rule, e) != e
  }

  /** No rule of the list changes e. */
  predicate IsFixedPoint(sym: Sympy, rules: seq<Rule>, e: Expr) {
    forall i :: 0 <= i < |rules| ==> !Fires(sym, rules[i], e)
  }

  /** `log` is a faithful record of getting from `from` to `to`: each entry is
      a genuine change made by its rule to the previous entry's result. */
  predicate IsTrace(sym: Sympy, log: seq<Step>, from: Expr, to: Expr)
    decreases |log|
  {
    if log == [] then from == to
    else
      && log[0].Rewrote?
      && log[0].before == from
      && log[0].after == Rewrite(sym, log[0].rule, from)
      && log[0].after != from
      && IsTrace(sym, log[1..], log[0].after, to)
  }

  /** One pass of the `simplify` loop: every rule once, in order, each on the
      result of the one before, logging exactly the rules that fire. */
  function Pass(sym: Sympy, rules: seq<Rule>, e: Expr): (r: (Expr, seq<Step>))
    ensures |r.1| <= |rules|
    ensures forall i :: 0 <= i < |r.1| ==> r.1[i].Rewrote?
    decreases |rules|
  {
    if rules == [] then (e, [])
    else
      var e1 := Rewrite(sym, rules[0], e);
      var logged := if e1 != e then [Rewrote(rules[0], e, e1)] else [];
      var rest := Pass(sym, rules[1..], e1);
      (rest.0, logged + rest.1)
  }

  /** The result of the `while changed` loop of `simplify`.  The program's loop
      has no bound; here it is given at most `fuel` passes, and `settled`
      tells whether the last pass changed nothing. */
  datatype Outcome = Outcome(expr: Expr, log: seq<Step>, settled: bool)

  /** `o` with `log` logged before it. */
  function After(log: seq<Step>, o: Outcome): Outcome {
    Outcome(o.expr, log + o.log, o.settled)
  }

  /** `simplify` from e with at most `fuel` passes.  Running out of passes
      means every pass changed something, so the log has an entry per pass. */
  function Run(sym: Sympy, rules: seq<Rule>, e: Expr, fuel: nat): (r: Outcome)
    ensures r.settled ==> fuel > 0
    ensures !r.settled ==> |r.log| >= fuel
    decreases fuel
  {
    if fuel == 0 then Outcome(e, [], false)
    else
      var pass := Pass(sym, rules, e);
      if pass.1 == [] then Outcome(pass.0, [], true)
      else After(pass.1, Run(sym, rules, pass.0, fuel - 1))
  }

  /** The `while changed` loop as it runs: `log` is what has been logged so
      far, and each pass appends to it. */
  function Loop(sym: Sympy, rules: seq<Rule>, e: Expr, log: seq<Step>, fuel: nat): (r: Outcome)
    ensures |log| <= |r.log| && r.log[..|log|] == log
    decreases fuel
  {
    if fuel == 0 then Outcome(e, log, false)
    else
      var pass := Pass(sym, rules, e);
      if pass.1 == [] then Outcome(e, log, true)
      else
        var r := Loop(sym, rules, pass.0, log + pass.1, fuel - 1);
        assert r.log[..|log|] == (log + pass.1)[..|log|];
        r
  }

  /** Running the loop on top of an existing log appends `Run`'s log to it. */
  lemma {:induction false} LoopIsRun(sym: Sympy, rules: seq<Rule>, e: Expr, log: seq<Step>, fuel: nat)
    ensures Loop(sym, rules, e, log, fuel) == After(log, Run(sym, rules, e, fuel))
    decreases fuel
  {
    if fuel == 0 {
      assert log + [] == log;
    } else {
      var pass := Pass(sym, rules, e);
      PassQuiet(sym, rules, e);
      if pass.1 == [] {
        assert log + [] == log;
      } else {
        LoopIsRun(sym, rules, pass.0, log + pass.1, fuel - 1);
        var o := Run(sym, rules, pass.0, fuel - 1);
        AppendAssociative(log, pass.1, o.log);
      }
    }
  }

  /** Regrouping appends to a log. */
  lemma AppendAssociative(a: seq<Step>, b: seq<Step>, c: seq<Step>)
    ensures a + b + c == a + (b + c)
  {
  }

  /** `simplify_equation`'s run: the rules applied to lhs − rhs. */
  function NormalForm(sym: Sympy, rules: seq<Rule>, eq: Equation, fuel: nat): (r: Outcome)
    requires eq.Equation?
    ensures IsTrace(sym, r.log, sym.sub(eq.lhs, eq.rhs), r.expr)
    ensures r.settled ==> IsFixedPoint(sym, rules, r.expr)
  {
    var lhs := sym.sub(eq.lhs, eq.rhs);
    RunTrace(sym, rules, lhs, fuel);
    RunSettlesAtFixedPoint(sym, rules, lhs, fuel);
    Run(sym, rules, lhs, fuel)
  }

  /** `Eq(e, 0)`: the equation e = 0, unless SymPy decides it on construction. */
  function EqZero(sym: Sympy, e: Expr): (eq: Equation)
    ensures eq.Decided? <==> sym.decide(e).Some?
    ensures eq.Equation? ==> eq.lhs == e && eq.rhs == sym.zero
  {
    match sym.decide(e)
    case Some(truth) => Decided(truth)
    case None => Equation(e, sym.zero)
  }

  /** An equation `Eq(e, 0)` left undecided never has a constant side, so
      the generic solver only ever sees degree 0 through a decided equation,
      which `solve` never reaches it with. */
  lemma UndecidedNotConstant(sym: Sympy, e: Expr, v: Expr)
    requires sym.Lawful() && EqZero(sym, e).Equation? && sym.allCoeffs(e, v).Some?
    ensures |sym.allCoeffs(e, v).value| != 1
  {
  }

  /** A pass logs nothing exactly when no rule changes e, and then leaves e as it was. */
  lemma {:induction false} PassQuiet(sym: Sympy, rules: seq<Rule>, e: Expr)
    ensures Pass(sym, rules, e).1 == [] <==> IsFixedPoint(sym, rules, e)
    ensures Pass(sym, rules, e).1 == [] ==> Pass(sym, rules, e).0 == e
    decreases |rules|
  {
    if rules != [] {
      PassQuiet(sym, rules[1..], e);
      var e1 := Rewrite(sym, rules[0], e);
      if e1 == e {
        assert IsFixedPoint(sym, rules, e) <==> IsFixedPoint(sym, rules[1..], e) by {
          if IsFixedPoint(sym, rules[1..], e) {
            forall i | 0 <= i < |rules| ensures !Fires(sym, rules[i], e) {
              if i > 0 { assert rules[i] == rules[1..][i - 1]; }
            }
          }
          if IsFixedPoint(sym, rules, e) {
            forall i | 0 <= i < |rules[1..]| ensures !Fires(sym, rules[1..][i], e) {
              assert rules[1..][i] == rules[i + 1];
            }
          }
        }
      } else {
        assert Fires(sym, rules[0], e);
      }
    }
  }

  /** Two traces that meet make one trace. */
  lemma {:induction false} TraceAppend(sym: Sympy, l1: seq<Step>, l2: seq<Step>, a: Expr, b: Expr, c: Expr)
    requires IsTrace(sym, l1, a, b) && IsTrace(sym, l2, b, c)
    ensures IsTrace(sym, l1 + l2, a, c)
    decreases |l1|
  {
    if l1 != [] {
      TraceAppend(sym, l1[1..], l2, l1[0].after, b, c);
      var joined := l1 + l2;
      assert joined[0] == l1[0];
      assert joined[1..] == l1[1..] + l2;
      assert IsTrace(sym, joined[1..], joined[0].after, c);
    } else {
      assert l1 + l2 == l2;
    }
  }

  /** A pass's log records how it got from e to its result, one entry per
      firing rule. */
  lemma {:induction false} PassTrace(sym: Sympy, rules: seq<Rule>, e: Expr)
    ensures IsTrace(sym, Pass(sym, rules, e).1, e, Pass(sym, rules, e).0)
    decreases |rules|
  {
    if rules != [] {
      var e1 := Rewrite(sym, rules[0], e);
      PassTrace(sym, rules[1..], e1);
      if e1 != e {
        var step := Rewrote(rules[0], e, e1);
        assert IsTrace(sym, [step], e, e1) by {
          assert [step][1..] == [];
        }
        TraceAppend(sym, [step], Pass(sym, rules[1..], e1).1, e, e1, Pass(sym, rules[1..], e1).0);
      } else {
        assert Pass(sym, rules, e).1 == Pass(sym, rules[1..], e1).1;
      }
    }
  }

  /** The whole log of `simplify` records how it got from e to its result. */
  lemma {:induction false} RunTrace(sym: Sympy, rules: seq<Rule>, e: Expr, fuel: nat)
    ensures IsTrace(sym, Run(sym, rules, e, fuel).log, e, Run(sym, rules, e, fuel).expr)
    decreases fuel
  {
    if fuel > 0 {
      var pass := Pass(sym, rules, e);
      PassTrace(sym, rules, e);
      PassQuiet(sym, rules, e);
      if pass.1 != [] {
        RunTrace(sym, rules, pass.0, fuel - 1);
        var more := Run(sym, rules, pass.0, fuel - 1);
        TraceAppend(sym, pass.1, more.log, e, pass.0, more.expr);
      }
    }
  }

  /** The log grows by at most one entry per rule per pass. */
  lemma {:induction false} RunLogBound(sym: Sympy, rules: seq<Rule>, e: Expr, fuel: nat)
    ensures |Run(sym, rules, e, fuel).log| <= fuel * |rules|
    decreases fuel
  {
    if fuel > 0 {
      var pass := Pass(sym, rules, e);
      PassTrace(sym, rules, e);
      if pass.1 != [] {
        RunLogBound(sym, rules, pass.0, fuel - 1);
        assert fuel * |rules| == (fuel - 1) * |rules| + |rules|;
      }
    }
  }

  /** `simplify` stops only at a fixed point of all its rules. */
  lemma {:induction false} RunSettlesAtFixedPoint(sym: Sympy, rules: seq<Rule>, e: Expr, fuel: nat)
    ensures Run(sym, rules, e, fuel).settled ==> IsFixedPoint(sym, rules, Run(sym, rules, e, fuel).expr)
    decreases fuel
  {
    if fuel > 0 {
      var pass := Pass(sym, rules, e);
      PassQuiet(sym, rules, e);
      if pass.1 != [] {
        RunSettlesAtFixedPoint(sym, rules, pass.0, fuel - 1);
      }
    }
  }

  /** On an expression no rule changes, `simplify` logs nothing and returns it unchanged. */
  lemma RunOnFixedPoint(sym: Sympy, rules: seq<Rule>, e: Expr, fuel: nat)
    requires fuel > 0 && IsFixedPoint(sym, rules, e)
    ensures Run(sym, rules, e, fuel) == Outcome(e, [], true)
  {
    PassQuiet(sym, rules, e);
  }

  /** Simplifying a settled result again changes nothing and logs nothing. */
  lemma RunIdempotent(sym: Sympy, rules: seq<Rule>, e: Expr, fuel: nat, fuel2: nat)
    requires Run(sym, rules, e, fuel).settled && fuel2 > 0
    ensures var r := Run(sym, rules, e, fuel).expr;
      Run(sym, rules, r, fuel2) == Outcome(r, [], true)
  {
    RunSettlesAtFixedPoint(sym, rules, e, fuel);
    RunOnFixedPoint(sym, rules, Run(sym, rules, e, fuel).expr, fuel2);
  }

  /** The unknown: some free symbol of either side, or the symbol `x` when
      the equation has none. */
  function FindVariable(sym: Sympy, eq: Equation): (v: Expr)
    requires sym.Lawful() && eq.Equation?
    ensures var vars := sym.freeSymbols(eq.lhs) + sym.freeSymbols(eq.rhs);
      (vars != {} ==> v in vars) && (vars == {} ==> v == sym.symbol("x"))
  {
    var vars := sym.freeSymbols(eq.lhs) + sym.freeSymbols(eq.rhs);
    if vars != {} then sym.first(vars) else sym.symbol("x")
  }

  /** The two lines `solve_linear` logs. */
  function LinearSteps(unknown: Expr, a: real, b: real): (r: seq<Step>)
    requires a != 0.0
    ensures |r| == 2 && r[0].LinearForm? && r[1].LinearSolution?
    ensures [r[1].root] == LinearRoots(a, b)
  {
    [LinearForm(a, b, unknown), LinearSolution(a, b, unknown, LinearRoots(a, b)[0])]
  }

  /** The three lines `solve_quadratic` logs: the form, the discriminant and
      the roots, worded by the sign of the discriminant. */
  function QuadraticSteps(unknown: Expr, a: real, b: real, c: real): (r: seq<Step>)
    requires a != 0.0
    ensures |r| == 3 && r[0].QuadraticForm? && r[1] == DiscriminantIs(a, b, c, Discriminant(a, b, c))
    ensures var d := Discriminant(a, b, c);
      && (r[2].TwoRealRoots? <==> d > 0.0)
      && (r[2].OneRealRoot? <==> d == 0.0)
      && (r[2].ComplexRoots? <==> d < 0.0)
    ensures var roots := QuadraticRoots(a, b, c);
      && (r[2].TwoRealRoots? ==> roots == [r[2].x1, r[2].x2])
      && (r[2].OneRealRoot? ==> roots == [r[2].x])
      && (r[2].ComplexRoots? ==> roots == [r[2].z1, r[2].z2])
  {
    var d := Discriminant(a, b, c);
    var r := QuadraticRoots(a, b, c);
    [QuadraticForm(a, b, c, unknown), DiscriminantIs(a, b, c, d),
     if d > 0.0 then TwoRealRoots(unknown, r[0], r[1])
     else if d == 0.0 then OneRealRoot(unknown, r[0])
     else ComplexRoots(unknown, r[0], r[1])]
  }

  /** The generic solver's expressions as returned roots, in its order. */
  function AsRoots(sols: seq<Expr>): (r: seq<Root>)
    ensures |r| == |sols|
    ensures forall i :: 0 <= i < |sols| ==> r[i].Symbolic? && r[i].e == sols[i]
  {
    if sols == [] then [] else [Symbolic(sols[0])] + AsRoots(sols[1..])
  }
}
