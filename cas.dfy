/** The computer-algebra primitives the engine is built on.  They are left
    uninterpreted: the engine only ever calls them and compares their results
    structurally, so they are parameters of the model, not code in it. */
module Cas {

  /** A symbolic expression of the host CAS.  Nothing about its structure is
      visible; only structural equality (SymPy's `==` and `!=`) is observable. */
  type Expr(==, !new)

  datatype Option<+T> = None | Some(value: T)

  /** What SymPy's `Eq(lhs, rhs)` gives: the equation `lhs = rhs`, or, when
      SymPy decides it on construction (both sides numbers, say), the plain
      truth value `true`/`false`, which has no sides. */
  datatype Equation = Equation(lhs: Expr, rhs: Expr) | Decided(holds: bool)

  /** A polynomial's coefficients, highest degree first, as `Poly.all_coeffs`
      gives them: never empty (the zero polynomial is `[0]`) and with a
      non-zero leading coefficient whenever there is more than one. */
  type Coefficients = cs: seq<real> | |cs| >= 1 && (|cs| > 1 ==> cs[0] != 0.0)
    witness [0.0]

  /** The SymPy operations the engine calls. */
  datatype Sympy = Sympy(
    expand: Expr -> Expr,                 // sympy.expand
    collect: (Expr, Expr) -> Expr,        // sympy.collect(e, var)
    simplify: Expr -> Expr,               // sympy.simplify
    freeSymbols: Expr -> set<Expr>,       // e.free_symbols
    first: set<Expr> -> Expr,             // next(iter(s)): the element iteration yields first
    symbol: string -> Expr,               // sympy.symbols(name)
    sub: (Expr, Expr) -> Expr,            // lhs - rhs
    zero: Expr,                           // the integer 0
    decide: Expr -> Option<bool>,         // Eq(e, 0) decided on construction: Some(its truth), otherwise None
    allCoeffs: (Expr, Expr) -> Option<Coefficients>,  // Poly(e, var).all_coeffs(); None when e is not a polynomial in var
    solveGeneric: (Equation, Expr) -> Option<seq<Expr>>,  // sympy.solve(eq, var); None when it raises
    isCRootOf: Expr -> bool,              // isinstance(e, CRootOf)
    evalf: Expr -> Expr)                  // e.evalf()
  {
    /** Iterating over a non-empty set yields one of its elements first; and
        an expression whose polynomial in some symbol is a constant is a
        number (coefficients are numbers here), which `Eq(e, 0)` decides. */
    ghost predicate Lawful() {
      && (forall s: set<Expr> {:trigger first(s)} :: s != {} ==> first(s) in s)
      && (forall e, v {:trigger allCoeffs(e, v)} ::
            allCoeffs(e, v).Some? && |allCoeffs(e, v).value| == 1 ==> decide(e).Some?)
    }
  }
}
