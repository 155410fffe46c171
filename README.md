# mathsolver engine, modelled in Dafny

mathsolver is an algebra assistant with two entry points: a console one, `mathsolver.py`, and a
desktop one, `mathsolver_gui.py`. Each entry point has its own copy of the engine, and the engine
has two parts:

- a **Simplifier** that repeats passes of rewrite rules until a whole pass changes nothing. It logs
  one step per rewrite that actually changed the expression. The rules are expand, collect by a free
  symbol and, in the console version only, general (trigonometric) simplification.
- an **EquationSolver** that picks the unknown, normalises `lhs = rhs` to `S = 0` with a fresh
  Simplifier, reads the coefficients of `S` as a polynomial in the unknown and dispatches on the
  degree:
  - degree 1: the linear formula.
  - degree 2: the quadratic formula, by the sign of the discriminant.
  - any other degree: the computer-algebra system's generic solver. The desktop version replaces
    implicit polynomial roots (`CRootOf`) in that solver's answer by their numeric values.

The algebra itself (expand, collect, simplify, free symbols, polynomial coefficients, the generic
solver, numeric evaluation) belongs to SymPy. Here it is a parameter: `Cas.Sympy` is a record of
functions over an abstract expression type, compared only structurally, as the engine compares
them with `!=`.

Files:

- `cas.dfy` (module `Cas`): the abstract expressions, equations, coefficient lists and the SymPy
  operations the engine calls.
- `roots.dfy` (module `Roots`): the closed-form roots, kept exact as `p + q·√d`, as `sympy.sqrt`
  keeps them. For `d < 0` these are the complex roots `p + i·q·√(−d)`. The module proves that the
  returned roots solve the equation and are its only real solutions, Vieta's formulas, and the
  conjugate-pair shape of complex roots.
- `engine.dfy` (module `Engine`): what both versions share.
  - The rules, one pass of them (`Pass`) and the fixed-point loop (`Run`, `Loop`).
  - The step log, and `IsTrace`: each logged step is a genuine change made by its rule.
  - The choice of the unknown, and the log lines of the closed-form solvers.
- `mathsolver.dfy` (module `MathSolver`): the console `Simplifier` and `EquationSolver` as classes
  whose methods update `expr`, `equation` and `steps` in place, proved against `Engine`'s functions.
- `mathsolver_gui.dfy` (module `MathSolverGui`): the desktop `Simplifier` (two rules) and
  `EquationSolver`, plus `Evaluated`, its `CRootOf`-to-numeric replacement.

On four points the model follows what the code does when SymPy is in the loop:

- A normalised side that is not a polynomial in the unknown makes `sympy.Poly` raise, so the
  generic solver is never reached. `Solve` returns `Failed(NotPolynomial)`.
- The leading coefficient handed to `solve_linear` / `solve_quadratic` is never zero, because
  `Poly.all_coeffs` drops leading zeros. The `Coefficients` type states this, so the division by `a`
  is always defined.
- `Eq(S, 0)` is not always an equation. When SymPy decides it on construction, as it does for a
  numeric `S`, the result is `true` or `false`, and reading its `.lhs` for the summary step raises
  (mathsolver.py:72-73, mathsolver_gui.py:64-65). `SimplifyEquation` and `Solve` then fail with
  `EquationDecided`, after logging the simplifier's steps and before the summary step.
- A degree-0 side is a number, and its equation is decided. So, by assumption (`Sympy.Lawful`,
  see "## Left out"), the generic solver only ever sees degree 3 or more
  (`Engine.UndecidedNotConstant` restates that assumption for `Solve`).

## Model

| member | source | states |
|---|---|---|
| Roots.DiscriminantAtVertex | mathsolver.py:83 | D is −4a times the value of a·x² + b·x + c at −b/(2a), so its sign tells whether the parabola reaches zero |
| Roots.LinearRoots | mathsolver.py:75-79 | the linear branch returns exactly one root; it is real and rational and satisfies a·x + b = 0 exactly |
| Roots.LinearRootExact | mathsolver.py:77 | for a ≠ 0, v solves a·v + b = 0 if and only if v is the returned root −b/a |
| Roots.QuadraticRoots | mathsolver.py:81-101 | D > 0: two real roots. D = 0: one rational root. D < 0: two complex roots. Every returned root satisfies a·x² + b·x + c = 0 exactly. The two roots have radicand D and opposite coefficients ±1/(2a) of √D, + root first |
| Roots.FormulaSolves | mathsolver.py:86-99 | (−b ± √D)/(2a) solves the equation in Q(√D), and so does −b/(2a) when D = 0 |
| Roots.QuadraticVieta | mathsolver.py:86-101 | two roots (real or complex) add up to −b/a and multiply to c/a |
| Roots.QuadraticRootsDistinct | mathsolver.py:86-101 | when D ≠ 0 the two roots differ: they share the part −b/(2a) and have opposite non-zero multiples of √D |
| Roots.QuadraticValue | mathsolver.py:81-101 | reading a root with any s where s² = d commutes with evaluating a·x² + b·x + c |
| Roots.RealRootsNumeric | mathsolver.py:86-91 | with s = √D > 0, the two roots are distinct real solutions, equal to (−b + s)/(2a) then (−b − s)/(2a) |
| Roots.TwoRealRootsExact | mathsolver.py:86-91 | D > 0: v solves the equation if and only if it is one of the two returned roots |
| Roots.DoubleRootExact | mathsolver.py:92-95 | D = 0: v solves the equation if and only if it is the returned root −b/(2a) |
| Roots.QuadraticRootsExact | mathsolver.py:81-95 | D ≥ 0: the real solutions are exactly the returned roots |
| Roots.NoRealRoot | mathsolver.py:96-101 | D < 0: no real number solves the equation, which is why this branch returns complex roots |
| Roots.ComplexRootNumeric | mathsolver.py:96-101 | a root over a negative radicand, read as re + i·im, makes both the real and the imaginary part of a·z² + b·z + c vanish |
| Roots.ComplexRootsNumeric | mathsolver.py:96-101 | D < 0: the roots are the conjugate pair −b/(2a) ± i·√(−D)/(2a), + first; each solves the equation as a complex number |
| Roots.ExampleTwoRealRoots | mathsolver.py:86-91 | x² − 5x + 6 has D = 1 and the roots 3 then 2 |
| Roots.ExampleComplexRoots | mathsolver.py:96-101 | x² + 1 has D = −4 and exactly the roots i then −i: both complex, real part 0, imaginary parts ±√4/2 |
| Roots.ExampleLinear | mathsolver.py:75-79 | 2x − 4 = 0 has the one root 2 |
| Engine.Rewrite | mathsolver.py:12-38 | the definition of each rule as the program calls SymPy for it: `expand`, `collect` by the first free symbol, `simplify`. The ensures only records that collecting an expression without free symbols is the identity; the rule methods are proved against this definition |
| Engine.Pass | mathsolver.py:43-49 | one pass logs at most one entry per rule, and every entry is a rewrite |
| Engine.Run | mathsolver.py:40-50 | `simplify` with at most `fuel` passes settles only after at least one pass. Running out of passes means every pass changed something, so the log has at least one entry per pass |
| Engine.Loop | mathsolver.py:40-50 | the loop only appends to the log it starts with |
| Engine.NormalForm | mathsolver.py:69-70 | simplifying lhs − rhs logs a trace from lhs − rhs to the result, and a settled result is a fixed point of every rule |
| Engine.EqZero | mathsolver.py:72 | the definition of the foreign call `Eq(e, 0)`: a truth value when SymPy decides it, otherwise the equation e = 0. The ensures restates the definition; `SimplifyEquation` is proved against it |
| Engine.UndecidedNotConstant | mathsolver.py:106-115 | under the `Sympy.Lawful` assumption (its contrapositive), an undecided `Eq(e, 0)` never has a constant polynomial side, so the generic branch never sees degree 0 |
| Engine.LinearSteps | mathsolver.py:76-78 | two lines: the linear form, then the solution line, which reports the root the branch returns |
| Engine.QuadraticSteps | mathsolver.py:82-100 | three lines: the form, then the discriminant b² − 4ac, then a line chosen by the sign of D that reports exactly the roots the branch returns |
| Engine.AsRoots | mathsolver.py:115-117 | the generic solver's solutions are returned unchanged and in its order |
| Engine.FindVariable | mathsolver.py:61-63 | the unknown is a free symbol of one of the sides when there is one, and the symbol x otherwise |
| Engine.PassQuiet | mathsolver.py:43-49 | a pass logs nothing if and only if no rule changes the expression, and then returns the expression unchanged |
| Engine.PassTrace | mathsolver.py:12-49 | a pass's log is a trace: each entry is a real change made by its rule to the previous result |
| Engine.LoopIsRun | mathsolver.py:40-50 | the loop that appends to the existing log ends where `Run` does, with `Run`'s log appended |
| Engine.RunTrace | mathsolver.py:40-50 | the whole log of `simplify` is a trace from the input to the result |
| Engine.RunLogBound | mathsolver.py:40-50 | `simplify` logs at most one step per rule per pass |
| Engine.RunSettlesAtFixedPoint | mathsolver.py:40-50 | when `simplify` stops, no rule changes the result |
| Engine.RunOnFixedPoint | mathsolver.py:40-50 | on an expression no rule changes, `simplify` logs nothing and returns it unchanged |
| Engine.RunIdempotent | mathsolver.py:40-50 | simplifying a settled result again changes nothing and logs nothing |
| MathSolver.ExpandOnly | mathsolver.py:40-50 | if expanding changes e into an expression no rule changes, `simplify` logs exactly that rewrite and returns the expansion |
| MathSolver.OnePass | mathsolver.py:43-49 | one pass of the loop body leads from the loop's state before the pass to its state after it, or ends the loop when no call fired |
| MathSolver.Simplifier.constructor | mathsolver.py:8-10 | holds the expression, with an empty log |
| MathSolver.Simplifier.ExpandStep | mathsolver.py:12-18 | replaces the expression by its expansion and appends one step exactly when that changes it; otherwise changes nothing |
| MathSolver.Simplifier.CollectTermsStep | mathsolver.py:20-30 | never fires without a free symbol. Otherwise it collects by the first free symbol and appends one step exactly when that changes the expression |
| MathSolver.Simplifier.SimplifyTrig | mathsolver.py:32-38 | replaces the expression by its simplification and appends one step exactly when that changes it |
| MathSolver.Simplifier.Simplify | mathsolver.py:40-50 | the new expression, log and settled flag are `Run`'s over expand, collect, simplify; the log is only appended to |
| MathSolver.Simplifier.GetSteps | mathsolver.py:52-53 | returns the log |
| MathSolver.EquationSolver.constructor | mathsolver.py:56-59 | holds the equation with an empty log; the unknown is `FindVariable`'s choice |
| MathSolver.EquationSolver.SimplifyEquation | mathsolver.py:65-73 | the equation becomes `Eq(simplified lhs − rhs, 0)` and the simplifier's log is appended. The summary step follows only when that equation is undecided; a decided one (now or already before) fails with `EquationDecided`, and running out of passes fails with `Unsettled` |
| MathSolver.EquationSolver.SolveLinear | mathsolver.py:75-79 | returns `LinearRoots` and appends the two linear-branch steps |
| MathSolver.EquationSolver.SolveQuadratic | mathsolver.py:81-101 | returns `QuadraticRoots` and appends the form, the discriminant and the sign-dependent roots step |
| MathSolver.EquationSolver.Solve | mathsolver.py:103-117 | normalises, failing as `SimplifyEquation` does. Then it dispatches on the coefficients. None: `NotPolynomial`. 2: linear roots. 3: quadratic roots. Otherwise: the generic solver's solutions, unchanged, after a degree step, or `SolverRaised`. Each case appends its exact log |
| MathSolverGui.OnePass | mathsolver_gui.py:40-44 | one pass of expand then collect leads from the loop's state before the pass to its state after it, or ends the loop |
| MathSolverGui.Evaluated | mathsolver_gui.py:109 | same length and order; each `CRootOf` solution is replaced by its numeric value, every other solution is kept |
| MathSolverGui.EvaluatedKeepsExplicit | mathsolver_gui.py:109 | solutions without a `CRootOf` among them are reported as they are |
| MathSolverGui.EvaluatedIdempotent | mathsolver_gui.py:109 | if numeric values are never `CRootOf`, none remains after the replacement, and replacing again changes nothing |
| MathSolverGui.Simplifier.constructor | mathsolver_gui.py:13-15 | holds the expression, with an empty log |
| MathSolverGui.Simplifier.ExpandStep | mathsolver_gui.py:17-23 | replaces the expression by its expansion and appends one step exactly when that changes it |
| MathSolverGui.Simplifier.CollectTermsStep | mathsolver_gui.py:25-35 | never fires without a free symbol. Otherwise it collects by the first free symbol and appends one step exactly when that changes the expression |
| MathSolverGui.Simplifier.Simplify | mathsolver_gui.py:37-45 | the new expression, log and settled flag are `Run`'s over expand, collect; the log is only appended to |
| MathSolverGui.EquationSolver.constructor | mathsolver_gui.py:48-51 | holds the equation with an empty log; the unknown is `FindVariable`'s choice |
| MathSolverGui.EquationSolver.SimplifyEquation | mathsolver_gui.py:57-65 | as the console one, with the two-rule simplifier: `Eq(simplified lhs − rhs, 0)`, the simplifier's log, then the summary step only when that equation is undecided |
| MathSolverGui.EquationSolver.SolveLinear | mathsolver_gui.py:67-71 | returns `LinearRoots` and appends the two linear-branch steps |
| MathSolverGui.EquationSolver.SolveQuadratic | mathsolver_gui.py:73-93 | returns `QuadraticRoots` and appends the form, the discriminant and the sign-dependent roots step |
| MathSolverGui.EquationSolver.Solve | mathsolver_gui.py:95-111 | as the console `Solve`, except that the generic solver's solutions are passed through `Evaluated`, both in the answer and in the logged step |

## Left out

- SymPy itself: `expand`, `collect`, `simplify`, `free_symbols`, `Poly(...).all_coeffs()`, `solve`,
  `evalf` and `isinstance(_, CRootOf)` are uninterpreted functions of `Cas.Sympy`. Only two
  assumptions about them are made, and both are in `Sympy.Lawful`:
  - iterating a non-empty set yields one of its elements first;
  - `Eq(e, 0)` is decided on construction whenever `Poly(e, v).all_coeffs()` is a single
    coefficient. Here coefficients are numbers, so such an `e` is a number, and SymPy evaluates
    `Eq` of two numbers to `true`/`false`.

  Nothing else about SymPy's `Eq` is modelled.
- `next(iter(s))`: modelled as a fixed function `first` of the set, so the same set always yields
  the same symbol. Python's actual iteration order is not modelled.
- MathSolver.Simplifier.Simplify (and MathSolverGui.Simplifier.Simplify): the `while changed` loop of `simplify` has no bound. The model gives it a number
  of passes (`fuel`). It reports `settled == false` when they run out, and `Solve` then returns
  `Failed(Unsettled)`. A rule cycle that never settles, and so never returns in the program, is
  therefore not modelled as divergence.
- Coefficients are exact real numbers. Three kinds of coefficient are not modelled:
  - Symbolic coefficients, which `Poly` allows when other free symbols remain.
  - Floating-point coefficients, which SymPy gives for decimal input (`Float`). The model computes
    D = b² − 4ac exactly, so it does not capture the rounding of D's sign. For
    `x^2 + 0.2x + 0.01 = 0` the exact D is 0 and the model returns one double root. The program's
    53-bit D is about 6.9e-18 > 0, so it takes the two-root branch.
  - Non-real coefficients (`x^2 + I = 0`). On these `D > 0` raises a `TypeError` in the quadratic
    branch (mathsolver.py:86, mathsolver_gui.py:78).
- Roots are exact surds `p + q·√d`. SymPy's simplified printed forms of them are not modelled, and
  neither is the numeric value `evalf` gives a `CRootOf`.
- The exact wording of the log lines: each step is a record of the values it prints.
- Exceptions: the ones the engine can raise become `Failed(...)` answers:
  - `EquationDecided`: the `AttributeError` from `.lhs` of a decided `Eq`.
  - `NotPolynomial`: from `Poly`.
  - `SolverRaised`: from `solve`.

  Their messages and the top-level `Error: ...` report are not modelled.
- MathSolver.EquationSolver.constructor (and MathSolverGui.EquationSolver.constructor): takes an
  undecided equation. When the caller's own `Eq(lhs, rhs)` is already decided (input such as
  `2 = 2`), `find_variable` raises before any solver exists. That call is made in `main` /
  `solve_expression`, which are not modelled.
- Parsing of the input line (`parse_expr` with its transformations), console I/O and `main`.
- The whole `MainWindow` of the desktop version: widgets, LaTeX rendering and the button handler.
- `EquationSolver.solve_polynomial` (mathsolver.py:119-122): no code calls it, and it refers to an
  undefined `x` and a missing `self.expr`.
