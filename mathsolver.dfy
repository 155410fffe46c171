/** The console version of the engine: a simplifier with three rules and an
    equation solver that hands the generic solver's answer back unchanged. */
module MathSolver {
  import opened Cas
  import opened Roots
  import opened Engine

  /** The rules of one `simplify` pass, in the order the loop calls them. */
  const Rules: seq<Rule> := [Expand, Collect, Trig]

  /** A pass over `Rules`, unfolded rule by rule. */
  lemma PassOfRules(sym: Sympy, e: Expr)
    ensures var e1 := Rewrite(sym, Expand, e);
      var e2 := Rewrite(sym, Collect, e1);
      var e3 := Rewrite(sym, Trig, e2);
      Pass(sym, Rules, e) ==
        (e3, (if e1 != e then [Rewrote(Expand, e, e1)] else [])
           + (if e2 != e1 then [Rewrote(Collect, e1, e2)] else [])
           + (if e3 != e2 then [Rewrote(Trig, e2, e3)] else []))
  {
    var e1 := Rewrite(sym, Expand, e);
    var e2 := Rewrite(sym, Collect, e1);
    var e3 := Rewrite(sym, Trig, e2);
    var l1 := if e1 != e then [Rewrote(Expand, e, e1)] else [];
    var l2 := if e2 != e1 then [Rewrote(Collect, e1, e2)] else [];
    var l3 := if e3 != e2 then [Rewrote(Trig, e2, e3)] else [];
    assert Pass(sym, [Trig], e2) == (e3, l3) by {
      assert [Trig][1..] == [];
      assert l3 + [] == l3;
    }
    assert Pass(sym, [Collect, Trig], e1) == (e3, l2 + l3) by {
      assert [Collect, Trig][1..] == [Trig];
    }
    assert Pass(sym, Rules, e) == (e3, l1 + (l2 + l3)) by {
      assert Rules[1..] == [Collect, Trig];
    }
    assert l1 + (l2 + l3) == l1 + l2 + l3;
  }

  /** When expanding changes e into an expression no rule changes any more,
      `simplify` logs exactly that one rewrite and settles on the expansion
      in its second pass. */
  lemma ExpandOnly(sym: Sympy, e: Expr, fuel: nat)
    requires fuel >= 2 && Fires(sym, Expand, e) && IsFixedPoint(sym, Rules, sym.expand(e))
    ensures Run(sym, Rules, e, fuel) == Outcome(sym.expand(e), [Rewrote(Expand, e, sym.expand(e))], true)
  {
    var e1 := sym.expand(e);
    assert !Fires(sym, Rules[1], e1) && !Fires(sym, Rules[2], e1);
    PassOfRules(sym, e);
    RunOnFixedPoint(sym, Rules, e1, fuel - 1);
    assert [Rewrote(Expand, e, e1)] + [] + [] == [Rewrote(Expand, e, e1)];
  }

  /** One pass of the loop body, in terms of the states between the three
      rule calls: the loop's outcome from the state before the pass is its
      outcome from the state after it, or the state itself when nothing fired. */
  lemma OnePass(sym: Sympy, e0: Expr, e1: Expr, e2: Expr, e3: Expr,
                l0: seq<Step>, l1: seq<Step>, l2: seq<Step>, l3: seq<Step>, left: nat)
    requires left > 0
    requires e1 == Rewrite(sym, Expand, e0) && l1 == l0 + if e1 != e0 then [Rewrote(Expand, e0, e1)] else []
    requires e2 == Rewrite(sym, Collect, e1) && l2 == l1 + if e2 != e1 then [Rewrote(Collect, e1, e2)] else []
    requires e3 == Rewrite(sym, Trig, e2) && l3 == l2 + if e3 != e2 then [Rewrote(Trig, e2, e3)] else []
    ensures var changed := e1 != e0 || e2 != e1 || e3 != e2;
      Loop(sym, Rules, e0, l0, left) ==
        if changed then Loop(sym, Rules, e3, l3, left - 1) else Outcome(e3, l3, true)
  {
    PassOfRules(sym, e0);
    var d1 := if e1 != e0 then [Rewrote(Expand, e0, e1)] else [];
    var d2 := if e2 != e1 then [Rewrote(Collect, e1, e2)] else [];
    var d3 := if e3 != e2 then [Rewrote(Trig, e2, e3)] else [];
    AppendAssociative(l0, d1, d2);
    AppendAssociative(l0, d1 + d2, d3);
    if d1 + d2 + d3 == [] {
      assert d1 == [] && d2 == [] && d3 == [];
    }
  }

  /** Keeps a current expression and the log of the rewrites made to it. */
  class Simplifier {
    const sym: Sympy
    var expr: Expr
    var steps: seq<Step>

    constructor (sym: Sympy, expr: Expr)
      ensures this.sym == sym && this.expr == expr && steps == []
    {
      this.sym := sym;
      this.expr := expr;
      steps := [];
    }

    /** Expands; replaces the expression and logs one step only if that changes it. */
    method ExpandStep() returns (changed: bool)
      modifies this
      ensures changed == (sym.expand(old(expr)) != old(expr))
      ensures expr == if changed then sym.expand(old(expr)) else old(expr)
      ensures steps == old(steps) + if changed then [Rewrote(Expand, old(expr), expr)] else []
    {
      var expanded := sym.expand(expr);
      if expanded != expr {
        steps := steps + [Rewrote(Expand, expr, expanded)];
        expr := expanded;
        return true;
      }
      assert steps + [] == steps;
      return false;
    }

    /** Collects by the first free symbol; a no-op on an expression without one. */
    method CollectTermsStep() returns (changed: bool)
      modifies this
      ensures sym.freeSymbols(old(expr)) == {} ==> !changed
      ensures changed == Fires(sym, Collect, old(expr))
      ensures changed ==> expr == sym.collect(old(expr), sym.first(sym.freeSymbols(old(expr))))
      ensures !changed ==> expr == old(expr)
      ensures steps == old(steps) + if changed then [Rewrote(Collect, old(expr), expr)] else []
    {
      var variables := sym.freeSymbols(expr);
      if variables == {} {
        assert steps + [] == steps;
        return false;
      }
      var v := sym.first(variables);
      var collected := sym.collect(expr, v);
      if collected != expr {
        steps := steps + [Rewrote(Collect, expr, collected)];
        expr := collected;
        return true;
      }
      assert steps + [] == steps;
      return false;
    }

    /** General simplification; replaces and logs only on a change. */
    method SimplifyTrig() returns (changed: bool)
      modifies this
      ensures changed == (sym.simplify(old(expr)) != old(expr))
      ensures expr == if changed then sym.simplify(old(expr)) else old(expr)
      ensures steps == old(steps) + if changed then [Rewrote(Trig, old(expr), expr)] else []
    {
      var simplified := sym.simplify(expr);
      if simplified != expr {
        steps := steps + [Rewrote(Trig, expr, simplified)];
        expr := simplified;
        return true;
      }
      assert steps + [] == steps;
      return false;
    }

    /** Runs passes of expand, collect and simplify (no short-circuit) until a
        whole pass changes nothing, for at most `fuel` passes.  The new state
        is `Run`'s outcome: the log is only appended to. */
    method Simplify(fuel: nat) returns (settled: bool, log: seq<Step>, result: Expr)
      modifies this
      ensures var o := Run(sym, Rules, old(expr), fuel);
        expr == o.expr && steps == old(steps) + o.log && settled == o.settled
      ensures log == steps && result == expr
    {
      ghost var goal := Loop(sym, Rules, expr, steps, fuel);
      var changed := true;
      var left := fuel;
      while changed && left > 0
        invariant changed ==> goal == Loop(sym, Rules, expr, steps, left)
        invariant !changed ==> goal == Outcome(expr, steps, true)
      {
        ghost var e0, l0 := expr, steps;
        changed := false;
        var expanded := ExpandStep();
        if expanded { changed := true; }
        ghost var e1, l1 := expr, steps;
        var collected := CollectTermsStep();
        if collected { changed := true; }
        ghost var e2, l2 := expr, steps;
        var simplified := SimplifyTrig();
        if simplified { changed := true; }
        OnePass(sym, e0, e1, e2, expr, l0, l1, l2, steps, left);
        left := left - 1;
      }
      LoopIsRun(sym, Rules, old(expr), old(steps), fuel);
      settled := !changed;
      return settled, steps, expr;
    }

    method GetSteps() returns (log: seq<Step>)
      ensures log == steps
    {
      return steps;
    }
  }

  /** Solves one equation: normalises it to `S = 0`, then dispatches on the
      degree of S in the unknown. */
  class EquationSolver {
    const sym: Sympy
    var equation: Equation
    var steps: seq<Step>
    const unknown: Expr

    constructor (sym: Sympy, equation: Equation)
      requires sym.Lawful() && equation.Equation?
      ensures this.sym == sym && this.equation == equation && steps == []
      ensures unknown == FindVariable(sym, equation)
    {
      this.sym := sym;
      this.equation := equation;
      steps := [];
      unknown := FindVariable(sym, equation);
    }

    /** Rewrites the equation as `Eq(simplified lhs − rhs, 0)` with a fresh
        simplifier and logs the simplifier's steps.  When SymPy decides that
        equation (a numeric side), it has no `.lhs` and logging the summary
        step raises; otherwise the summary step is logged.  An equation that is
        already decided raises at once. */
    method SimplifyEquation(fuel: nat) returns (failure: Option<SolveError>)
      modifies this
      ensures old(equation).Decided? ==>
        failure == Some(EquationDecided) && equation == old(equation) && steps == old(steps)
      ensures old(equation).Equation? ==>
        var o := NormalForm(sym, Rules, old(equation), fuel);
        && equation == EqZero(sym, o.expr)
        && failure == (if !o.settled then Some(Unsettled) else if equation.Decided? then Some(EquationDecided) else None)
        && steps == old(steps) + o.log + (if failure == None then [Normalized(o.expr)] else [])
    {
      if equation.Decided? {
        return Some(EquationDecided);
      }
      ghost var o := NormalForm(sym, Rules, equation, fuel);
      var simplifier := new Simplifier(sym, sym.sub(equation.lhs, equation.rhs));
      var settled, inner, simplified := simplifier.Simplify(fuel);
      assert settled == o.settled && inner == o.log && simplified == o.expr;
      steps := steps + inner;
      equation := EqZero(sym, simplified);
      if !settled {
        assert steps + [] == steps;
        return Some(Unsettled);
      }
      if equation.Decided? {
        assert steps + [] == steps;
        return Some(EquationDecided);
      }
      steps := steps + [Normalized(equation.lhs)];
      return None;
    }

    /** a·x + b = 0: the one root −b/a, after two log lines. */
    method SolveLinear(a: real, b: real) returns (roots: seq<Root>)
      requires a != 0.0
      modifies this`steps
      ensures roots == LinearRoots(a, b)
      ensures steps == old(steps) + LinearSteps(unknown, a, b)
    {
      steps := steps + [LinearForm(a, b, unknown)];
      var solution := Real(Rational(-b / a));
      steps := steps + [LinearSolution(a, b, unknown, solution)];
      return [solution];
    }

    /** a·x² + b·x + c = 0 by the sign of the discriminant, after three log lines. */
    method SolveQuadratic(a: real, b: real, c: real) returns (roots: seq<Root>)
      requires a != 0.0
      modifies this`steps
      ensures roots == QuadraticRoots(a, b, c)
      ensures steps == old(steps) + QuadraticSteps(unknown, a, b, c)
    {
      steps := steps + [QuadraticForm(a, b, c, unknown)];
      var d := b * b - 4.0 * a * c;
      steps := steps + [DiscriminantIs(a, b, c, d)];
      if d > 0.0 {
        var x1 := Real(Formula(a, b, d, 1.0));
        var x2 := Real(Formula(a, b, d, -1.0));
        steps := steps + [TwoRealRoots(unknown, x1, x2)];
        return [x1, x2];
      } else if d == 0.0 {
        var x := Real(Rational(-b / (2.0 * a)));
        steps := steps + [OneRealRoot(unknown, x)];
        return [x];
      } else {
        var x1 := Complex(Formula(a, b, d, 1.0));
        var x2 := Complex(Formula(a, b, d, -1.0));
        steps := steps + [ComplexRoots(unknown, x1, x2)];
        return [x1, x2];
      }
    }

    /** Normalises (failing if that fails), reads the coefficients, and
        dispatches on the degree |coefficients| − 1: 1 is linear, 2 is
        quadratic, anything else goes to the generic solver, whose solutions
        are returned as they are.  A constant side never gets that far: its
        equation is decided (see `UndecidedNotConstant`). */
    method Solve(fuel: nat) returns (answer: Answer)
      modifies this
      ensures old(equation).Decided? ==>
        answer == Failed(EquationDecided) && equation == old(equation) && steps == old(steps)
      ensures old(equation).Equation? ==>
        var o := NormalForm(sym, Rules, old(equation), fuel);
        var normalized := old(steps) + o.log + [Normalized(o.expr)];
        && equation == EqZero(sym, o.expr)
        && (!o.settled ==> answer == Failed(Unsettled) && steps == old(steps) + o.log)
        && (o.settled && equation.Decided? ==> answer == Failed(EquationDecided) && steps == old(steps) + o.log)
        && (o.settled && equation.Equation? ==>
              match sym.allCoeffs(o.expr, unknown)
              case None => answer == Failed(NotPolynomial) && steps == normalized
              case Some(cs) =>
                if |cs| == 2 then
                  answer == Solved(LinearRoots(cs[0], cs[1])) && steps == normalized + LinearSteps(unknown, cs[0], cs[1])
                else if |cs| == 3 then
                  answer == Solved(QuadraticRoots(cs[0], cs[1], cs[2])) && steps == normalized + QuadraticSteps(unknown, cs[0], cs[1], cs[2])
                else
                  match sym.solveGeneric(equation, unknown)
                  case None => answer == Failed(SolverRaised) && steps == normalized
                  case Some(sols) =>
                    answer == Solved(AsRoots(sols)) && steps == normalized + [GenericSolutions(|cs| - 1, sols)])
    {
      var failure := SimplifyEquation(fuel);
      if failure.Some? {
        return Failed(failure.value);
      }
      var coefficients := sym.allCoeffs(equation.lhs, unknown);
      if coefficients.None? {
        return Failed(NotPolynomial);
      }
      var coeffs := coefficients.value;
      var deg := |coeffs| - 1;
      if deg == 1 {
        var roots := SolveLinear(coeffs[0], coeffs[1]);
        return Solved(roots);
      } else if deg == 2 {
        var roots := SolveQuadratic(coeffs[0], coeffs[1], coeffs[2]);
        return Solved(roots);
      } else {
        var solutions := sym.solveGeneric(equation, unknown);
        if solutions.None? {
          return Failed(SolverRaised);
        }
        steps := steps + [GenericSolutions(deg, solutions.value)];
        return Solved(AsRoots(solutions.value));
      }
    }
  }
}
