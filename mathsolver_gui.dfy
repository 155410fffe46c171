/** The desktop version of the engine: a simplifier with only the expand and
    collect rules, and an equation solver that replaces the generic solver's
    implicit polynomial roots (`CRootOf`) by their numeric values. */
module MathSolverGui {
  import opened Cas
  import opened Roots
  import opened Engine

  /** The rules of one `simplify` pass, in the order the loop calls them. */
  const Rules: seq<Rule> := [Expand, Collect]

  /** One pass of the loop body, in terms of the states between the two rule
      calls: the loop's outcome from the state before the pass is its outcome
      from the state after it, or the state itself when nothing fired. */
  lemma OnePass(sym: Sympy, e0: Expr, e1: Expr, e2: Expr,
                l0: seq<Step>, l1: seq<Step>, l2: seq<Step>, left: nat)
    requires left > 0
    requires e1 == Rewrite(sym, Expand, e0) && l1 == l0 + if e1 != e0 then [Rewrote(Expand, e0, e1)] else []
    requires e2 == Rewrite(sym, Collect, e1) && l2 == l1 + if e2 != e1 then [Rewrote(Collect, e1, e2)] else []
    ensures var changed := e1 != e0 || e2 != e1;
      Loop(sym, Rules, e0, l0, left) ==
        if changed then Loop(sym, Rules, e2, l2, left - 1) else Outcome(e2, l2, true)
  {
    var d1 := if e1 != e0 then [Rewrote(Expand, e0, e1)] else [];
    var d2 := if e2 != e1 then [Rewrote(Collect, e1, e2)] else [];
    assert Pass(sym, [Collect], e1) == (e2, d2) by {
      assert [Collect][1..] == [];
      assert d2 + [] == d2;
    }
    assert Pass(sym, Rules, e0) == (e2, d1 + d2) by {
      assert Rules[1..] == [Collect];
    }
    assert l0 + d1 + d2 == l0 + (d1 + d2);
  }

  /** The generic solver's answer as the desktop version reports it: every
      `CRootOf` solution replaced by its numeric value, the others kept, in
      the same order. */
  function Evaluated(sym: Sympy, sols: seq<Expr>): (r: seq<Expr>)
    ensures |r| == |sols|
    ensures forall i :: 0 <= i < |sols| ==>
      r[i] == if sym.isCRootOf(sols[i]) then sym.evalf(sols[i]) else sols[i]
  {
    if sols == [] then []
    else [if sym.isCRootOf(sols[0]) then sym.evalf(sols[0]) else sols[0]] + Evaluated(sym, sols[1..])
  }

  /** Without a `CRootOf` among them the solutions are reported as they are. */
  lemma {:induction false} EvaluatedKeepsExplicit(sym: Sympy, sols: seq<Expr>)
    requires forall i :: 0 <= i < |sols| ==> !sym.isCRootOf(sols[i])
    ensures Evaluated(sym, sols) == sols
  {
    var r := Evaluated(sym, sols);
    assert forall i :: 0 <= i < |sols| ==> r[i] == sols[i];
  }

  /** When numeric evaluation never yields a `CRootOf`, no solution in the
      report is one, and replacing a second time changes nothing. */
  lemma {:induction false} EvaluatedIdempotent(sym: Sympy, sols: seq<Expr>)
    requires forall e :: !sym.isCRootOf(sym.evalf(e))
    ensures forall i :: 0 <= i < |sols| ==> !sym.isCRootOf(Evaluated(sym, sols)[i])
    ensures Evaluated(sym, Evaluated(sym, sols)) == Evaluated(sym, sols)
  {
    var r := Evaluated(sym, sols);
    assert forall i :: 0 <= i < |r| ==> !sym.isCRootOf(r[i]);
    EvaluatedKeepsExplicit(sym, r);
  }

  /** Keeps a current expression and the log of the rewrites made to it. */
  class Simplifier {
    const sym: Sympy
    var expr: Expr
    var steps: seq<Step>

    constructor (sym: Sympy, expr: Expr)
      ensures this.sym == sym && this.expr == expr && steps == []
    {
      this.sym := sym;
      this.expr := expr;
      steps := [];
    }

    /** Expands; replaces the expression and logs one step only if that changes it. */
    method ExpandStep() returns (changed: bool)
      modifies this
      ensures changed == (sym.expand(old(expr)) != old(expr))
      ensures expr == if changed then sym.expand(old(expr)) else old(expr)
      ensures steps == old(steps) + if changed then [Rewrote(Expand, old(expr), expr)] else []
    {
      var expanded := sym.expand(expr);
      if expanded != expr {
        steps := steps + [Rewrote(Expand, expr, expanded)];
        expr := expanded;
        return true;
      }
      assert steps + [] == steps;
      return false;
    }

    /** Collects by the first free symbol; a no-op on an expression without one. */
    method CollectTermsStep() returns (changed: bool)
      modifies this
      ensures sym.freeSymbols(old(expr)) == {} ==> !changed
      ensures changed == Fires(sym, Collect, old(expr))
      ensures changed ==> expr == sym.collect(old(expr), sym.first(sym.freeSymbols(old(expr))))
      ensures !changed ==> expr == old(expr)
      ensures steps == old(steps) + if changed then [Rewrote(Collect, old(expr), expr)] else []
    {
      var variables := sym.freeSymbols(expr);
      if variables == {} {
        assert steps + [] == steps;
        return false;
      }
      var v := sym.first(variables);
      var collected := sym.collect(expr, v);
      if collected != expr {
        steps := steps + [Rewrote(Collect, expr, collected)];
        expr := collected;
        return true;
      }
      assert steps + [] == steps;
      return false;
    }

    /** Runs passes of expand then collect (no short-circuit) until a whole
        pass changes nothing, for at most `fuel` passes.  The new state is
        `Run`'s outcome: the log is only appended to. */
    method Simplify(fuel: nat) returns (settled: bool, log: seq<Step>, result: Expr)
      modifies this
      ensures var o := Run(sym, Rules, old(expr), fuel);
        expr == o.expr && steps == old(steps) + o.log && settled == o.settled
      ensures log == steps && result == expr
    {
      ghost var goal := Loop(sym, Rules, expr, steps, fuel);
      var changed := true;
      var left := fuel;
      while changed && left > 0
        invariant changed ==> goal == Loop(sym, Rules, expr, steps, left)
        invariant !changed ==> goal == Outcome(expr, steps, true)
      {
        ghost var e0, l0 := expr, steps;
        changed := false;
        var expanded := ExpandStep();
        if expanded { changed := true; }
        ghost var e1, l1 := expr, steps;
        var collected := CollectTermsStep();
        if collected { changed := true; }
        OnePass(sym, e0, e1, expr, l0, l1, steps, left);
        left := left - 1;
      }
      LoopIsRun(sym, Rules, old(expr), old(steps), fuel);
      settled := !changed;
      return settled, steps, expr;
    }
  }

  /** Solves one equation: normalises it to `S = 0`, then dispatches on the
      degree of S in the unknown. */
  class EquationSolver {
    const sym: Sympy
    var equation: Equation
    var steps: seq<Step>
    const unknown: Expr

    constructor (sym: Sympy, equation: Equation)
      requires sym.Lawful() && equation.Equation?
      ensures this.sym == sym && this.equation == equation && steps == []
      ensures unknown == FindVariable(sym, equation)
    {
      this.sym := sym;
      this.equation := equation;
      steps := [];
      unknown := FindVariable(sym, equation);
    }

    /** Rewrites the equation as `Eq(simplified lhs − rhs, 0)` with a fresh
        simplifier and logs the simplifier's steps.  When SymPy decides that
        equation (a numeric side), it has no `.lhs` and logging the summary
        step raises; otherwise the summary step is logged.  An equation that is
        already decided raises at once. */
    method SimplifyEquation(fuel: nat) returns (failure: Option<SolveError>)
      modifies this
      ensures old(equation).Decided? ==>
        failure == Some(EquationDecided) && equation == old(equation) && steps == old(steps)
      ensures old(equation).Equation? ==>
        var o := NormalForm(sym, Rules, old(equation), fuel);
        && equation == EqZero(sym, o.expr)
        && failure == (if !o.settled then Some(Unsettled) else if equation.Decided? then Some(EquationDecided) else None)
        && steps == old(steps) + o.log + (if failure == None then [Normalized(o.expr)] else [])
    {
      if equation.Decided? {
        return Some(EquationDecided);
      }
      ghost var o := NormalForm(sym, Rules, equation, fuel);
      var simplifier := new Simplifier(sym, sym.sub(equation.lhs, equation.rhs));
      var settled, inner, simplified := simplifier.Simplify(fuel);
      assert settled == o.settled && inner == o.log && simplified == o.expr;
      steps := steps + inner;
      equation := EqZero(sym, simplified);
      if !settled {
        assert steps + [] == steps;
        return Some(Unsettled);
      }
      if equation.Decided? {
        assert steps + [] == steps;
        return Some(EquationDecided);
      }
      steps := steps + [Normalized(equation.lhs)];
      return None;
    }

    /** a·x + b = 0: the one root −b/a, after two log lines. */
    method SolveLinear(a: real, b: real) returns (roots: seq<Root>)
      requires a != 0.0
      modifies this`steps
      ensures roots == LinearRoots(a, b)
      ensures steps == old(steps) + LinearSteps(unknown, a, b)
    {
      steps := steps + [LinearForm(a, b, unknown)];
      var solution := Real(Rational(-b / a));
      steps := steps + [LinearSolution(a, b, unknown, solution)];
      return [solution];
    }

    /** a·x² + b·x + c = 0 by the sign of the discriminant, after three log lines. */
    method SolveQuadratic(a: real, b: real, c: real) returns (roots: seq<Root>)
      requires a != 0.0
      modifies this`steps
      ensures roots == QuadraticRoots(a, b, c)
      ensures steps == old(steps) + QuadraticSteps(unknown, a, b, c)
    {
      steps := steps + [QuadraticForm(a, b, c, unknown)];
      var d := b * b - 4.0 * a * c;
      steps := steps + [DiscriminantIs(a, b, c, d)];
      if d > 0.0 {
        var x1 := Real(Formula(a, b, d, 1.0));
        var x2 := Real(Formula(a, b, d, -1.0));
        steps := steps + [TwoRealRoots(unknown, x1, x2)];
        return [x1, x2];
      } else if d == 0.0 {
        var x := Real(Rational(-b / (2.0 * a)));
        steps := steps + [OneRealRoot(unknown, x)];
        return [x];
      } else {
        var x1 := Complex(Formula(a, b, d, 1.0));
        var x2 := Complex(Formula(a, b, d, -1.0));
        steps := steps + [ComplexRoots(unknown, x1, x2)];
        return [x1, x2];
      }
    }

    /** As the console version, except that the generic solver's `CRootOf`
        solutions are replaced by their numeric values, both in the answer and
        in the logged step. */
    method Solve(fuel: nat) returns (answer: Answer)
      modifies this
      ensures old(equation).Decided? ==>
        answer == Failed(EquationDecided) && equation == old(equation) && steps == old(steps)
      ensures old(equation).Equation? ==>
        var o := NormalForm(sym, Rules, old(equation), fuel);
        var normalized := old(steps) + o.log + [Normalized(o.expr)];
        && equation == EqZero(sym, o.expr)
        && (!o.settled ==> answer == Failed(Unsettled) && steps == old(steps) + o.log)
        && (o.settled && equation.Decided? ==> answer == Failed(EquationDecided) && steps == old(steps) + o.log)
        && (o.settled && equation.Equation? ==>
              match sym.allCoeffs(o.expr, unknown)
              case None => answer == Failed(NotPolynomial) && steps == normalized
              case Some(cs) =>
                if |cs| == 2 then
                  answer == Solved(LinearRoots(cs[0], cs[1])) && steps == normalized + LinearSteps(unknown, cs[0], cs[1])
                else if |cs| == 3 then
                  answer == Solved(QuadraticRoots(cs[0], cs[1], cs[2])) && steps == normalized + QuadraticSteps(unknown, cs[0], cs[1], cs[2])
                else
                  match sym.solveGeneric(equation, unknown)
                  case None => answer == Failed(SolverRaised) && steps == normalized
                  case Some(sols) =>
                    var reported := Evaluated(sym, sols);
                    answer == Solved(AsRoots(reported)) && steps == normalized + [GenericSolutions(|cs| - 1, reported)])
    {
      var failure := SimplifyEquation(fuel);
      if failure.Some? {
        return Failed(failure.value);
      }
      var coefficients := sym.allCoeffs(equation.lhs, unknown);
      if coefficients.None? {
        return Failed(NotPolynomial);
      }
      var coeffs := coefficients.value;
      var deg := |coeffs| - 1;
      if deg == 1 {
        var roots := SolveLinear(coeffs[0], coeffs[1]);
        return Solved(roots);
      } else if deg == 2 {
        var roots := SolveQuadratic(coeffs[0], coeffs[1], coeffs[2]);
        return Solved(roots);
      } else {
        var solutions := sym.solveGeneric(equation, unknown);
        if solutions.None? {
          return Failed(SolverRaised);
        }
        var reported := Evaluated(sym, solutions.value);
        steps := steps + [GenericSolutions(deg, reported)];
        return Solved(AsRoots(reported));
      }
    }
  }
}
