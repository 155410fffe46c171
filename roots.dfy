/** The closed-form roots of linear and quadratic equations with real
    coefficients, kept exact the way `sympy.sqrt` keeps them: a root is
    `p + q·√d`, an element of the field Q(√d) for the discriminant d. */
module Roots {
  import opened Cas

  /** The number p + q·√d.  For d < 0, √d is the principal root i·√(−d), so a
      surd over a negative radicand is the complex number p + i·q·√(−d). */
  datatype Surd = Surd(p: real, q: real, d: real)

  /** A solution as the solver returns it: a real root, a complex root, or
      whatever expression SymPy's generic solver produced. */
  datatype Root = Real(value: Surd) | Complex(value: Surd) | Symbolic(e: Expr)

  function Rational(x: real): Surd { Surd(x, 0.0, 0.0) }

  /** Field operations of Q(√d); (√d)·(√d) = d holds for real and imaginary √d alike. */
  function Plus(x: Surd, y: Surd): Surd
    requires x.d == y.d
  {
    Surd(x.p + y.p, x.q + y.q, x.d)
  }

  function Times(x: Surd, y: Surd): Surd
    requires x.d == y.d
  {
    Surd(x.p * y.p + x.q * y.q * x.d, x.p * y.q + x.q * y.p, x.d)
  }

  function Scale(k: real, x: Surd): Surd { Surd(k * x.p, k * x.q, x.d) }

  /** The rational k seen as an element of Q(√d). */
  function Embed(k: real, d: real): Surd { Surd(k, 0.0, d) }

  predicate IsZero(x: Surd) { x.p == 0.0 && x.q == 0.0 }

  /** a·x + b, evaluated in the field of x. */
  function Linear(a: real, b: real, x: Surd): Surd {
    Plus(Scale(a, x), Embed(b, x.d))
  }

  /** a·x² + b·x + c, evaluated in the field of x. */
  function Quadratic(a: real, b: real, c: real, x: Surd): Surd {
    Plus(Plus(Scale(a, Times(x, x)), Scale(b, x)), Embed(c, x.d))
  }

  /** The number x denotes once s is fixed as √d (s·s == d, s ≥ 0). */
  function Value(x: Surd, s: real): real { x.p + x.q * s }

  /** D = b² − 4ac. */
  function Discriminant(a: real, b: real, c: real): real { b * b - 4.0 * a * c }

  /** D is −4a times the value of a·x² + b·x + c at its vertex −b/(2a): its
      sign says whether the parabola reaches zero twice, once or never. */
  lemma DiscriminantAtVertex(a: real, b: real, c: real)
    requires a != 0.0
    ensures var v := -b / (2.0 * a); -4.0 * a * (a * v * v + b * v + c) == Discriminant(a, b, c)
  {
    var v := -b / (2.0 * a);
    assert 2.0 * a * v == -b;
    assert 4.0 * a * (a * v * v) == (2.0 * a * v) * (2.0 * a * v);
  }

  /** The root −b/a of a·x + b = 0. */
  function LinearRoots(a: real, b: real): (r: seq<Root>)
    requires a != 0.0
    ensures |r| == 1 && r[0].Real? && r[0].value.q == 0.0
    ensures IsZero(Linear(a, b, r[0].value))
  {
    [Real(Rational(-b / a))]
  }

  /** (−b + sign·√d)/(2a), the root with the given sign in front of √d. */
  function Formula(a: real, b: real, d: real, sign: real): Surd
    requires a != 0.0
  {
    Surd(-b / (2.0 * a), sign / (2.0 * a), d)
  }

  /** The roots the quadratic branch returns, by the sign of the discriminant:
      two real roots, + root first; one double root; or two complex roots, +
      root first.  Each satisfies the equation exactly. */
  function QuadraticRoots(a: real, b: real, c: real): (r: seq<Root>)
    requires a != 0.0
    ensures var d := Discriminant(a, b, c);
      && (d > 0.0 ==> |r| == 2 && r[0].Real? && r[1].Real?)
      && (d == 0.0 ==> |r| == 1 && r[0].Real? && r[0].value.q == 0.0)
      && (d < 0.0 ==> |r| == 2 && r[0].Complex? && r[1].Complex?)
    ensures forall i :: 0 <= i < |r| ==> !r[i].Symbolic? && IsZero(Quadratic(a, b, c, r[i].value))
    ensures Discriminant(a, b, c) != 0.0 ==>
      && r[0].value.d == r[1].value.d == Discriminant(a, b, c)
      && 2.0 * a * r[0].value.q == 1.0 && 2.0 * a * r[1].value.q == -1.0
  {
    var d := Discriminant(a, b, c);
    if d > 0.0 then
      FormulaSolves(a, b, c, 1.0);
      FormulaSolves(a, b, c, -1.0);
      [Real(Formula(a, b, d, 1.0)), Real(Formula(a, b, d, -1.0))]
    else if d == 0.0 then
      FormulaSolves(a, b, c, 0.0);
      [Real(Rational(-b / (2.0 * a)))]
    else
      FormulaSolves(a, b, c, 1.0);
      FormulaSolves(a, b, c, -1.0);
      [Complex(Formula(a, b, d, 1.0)), Complex(Formula(a, b, d, -1.0))]
  }

  /** (−b ± √D)/(2a) is a root; with sign 0 and D = 0 it is the double root −b/(2a). */
  lemma FormulaSolves(a: real, b: real, c: real, sign: real)
    requires a != 0.0
    requires sign * sign == 1.0 || (sign == 0.0 && Discriminant(a, b, c) == 0.0)
    ensures var d := if sign == 0.0 then 0.0 else Discriminant(a, b, c);
      IsZero(Quadratic(a, b, c, Formula(a, b, d, sign)))
  {
    var D := Discriminant(a, b, c);
    var d := if sign == 0.0 then 0.0 else D;
    var x := Formula(a, b, d, sign);
    var p, q := x.p, x.q;
    assert 2.0 * a * p == -b;
    assert 2.0 * a * q == sign;
    assert sign * sign * d == D by {
      if sign != 0.0 { assert sign * sign * d == 1.0 * D; }
    }
    var v := Quadratic(a, b, c, x);
    assert v.q == q * (2.0 * a * p + b);
    assert v.p == a * (p * p + q * q * d) + b * p + c;
    calc {
      4.0 * a * v.p;
      (2.0 * a * p) * (2.0 * a * p) + (2.0 * a * q) * (2.0 * a * q) * d + 2.0 * b * (2.0 * a * p) + 4.0 * a * c;
      b * b + sign * sign * d - 2.0 * b * b + 4.0 * a * c;
      D - b * b + 4.0 * a * c;
      0.0;
    }
  }

  /** Vieta: two distinct roots (real or complex) add up to −b/a and multiply to c/a. */
  lemma QuadraticVieta(a: real, b: real, c: real)
    requires a != 0.0 && Discriminant(a, b, c) != 0.0
    ensures var r := QuadraticRoots(a, b, c); var d := Discriminant(a, b, c);
      && Plus(r[0].value, r[1].value) == Surd(-b / a, 0.0, d)
      && Times(r[0].value, r[1].value) == Surd(c / a, 0.0, d)
  {
    var r := QuadraticRoots(a, b, c);
    var d := Discriminant(a, b, c);
    var x, y := r[0].value, r[1].value;
    assert x == Formula(a, b, d, 1.0) && y == Formula(a, b, d, -1.0);
    var p, q := x.p, x.q;
    assert y.p == p && y.q == -q;
    assert 2.0 * a * p == -b && 2.0 * a * q == 1.0;
    assert p + p == -b / a;
    var t := Times(x, y);
    assert t.q == 0.0;
    assert t.p == p * p - q * q * d;
    assert 4.0 * a * a * t.p == (2.0 * a * p) * (2.0 * a * p) - (2.0 * a * q) * (2.0 * a * q) * d;
    assert 4.0 * a * a * t.p == 4.0 * a * c;
    assert t.p * a == c;
  }

  /** The two roots differ: the same rational part, opposite non-zero multiples of √D. */
  lemma QuadraticRootsDistinct(a: real, b: real, c: real)
    requires a != 0.0 && Discriminant(a, b, c) != 0.0
    ensures var r := QuadraticRoots(a, b, c);
      r[0] != r[1] && r[0].value.p == r[1].value.p == -b / (2.0 * a) && r[0].value.q == -r[1].value.q != 0.0
  {
    var r := QuadraticRoots(a, b, c);
    var d := Discriminant(a, b, c);
    assert r[0].value == Formula(a, b, d, 1.0) && r[1].value == Formula(a, b, d, -1.0);
  }

  /** Reading x with s for √d turns the field computation into a·v² + b·v + c. */
  lemma QuadraticValue(a: real, b: real, c: real, x: Surd, s: real)
    requires s * s == x.d
    ensures var v := Value(x, s);
      Value(Quadratic(a, b, c, x), s) == a * v * v + b * v + c
  {
    var v := Value(x, s);
    calc {
      v * v;
      (x.p + x.q * s) * (x.p + x.q * s);
      x.p * x.p + 2.0 * x.p * x.q * s + x.q * x.q * (s * s);
      x.p * x.p + x.q * x.q * x.d + 2.0 * x.p * x.q * s;
      Value(Times(x, x), s);
    }
  }

  /** With a real square root s of a positive discriminant, the two returned
      roots are two distinct real numbers solving a·v² + b·v + c = 0, + root
      (the larger numerator −b + s) first. */
  lemma RealRootsNumeric(a: real, b: real, c: real, s: real)
    requires a != 0.0 && Discriminant(a, b, c) > 0.0
    requires s >= 0.0 && s * s == Discriminant(a, b, c)
    ensures var r := QuadraticRoots(a, b, c);
      var v0, v1 := Value(r[0].value, s), Value(r[1].value, s);
      && a * v0 * v0 + b * v0 + c == 0.0
      && a * v1 * v1 + b * v1 + c == 0.0
      && v0 != v1
      && 2.0 * a * v0 == -b + s && 2.0 * a * v1 == -b - s
  {
    var r := QuadraticRoots(a, b, c);
    QuadraticValue(a, b, c, r[0].value, s);
    QuadraticValue(a, b, c, r[1].value, s);
    assert s != 0.0;
    var v0, v1 := Value(r[0].value, s), Value(r[1].value, s);
    assert 2.0 * a * v0 == 2.0 * a * r[0].value.p + 2.0 * a * r[0].value.q * s;
    assert 2.0 * a * v1 == 2.0 * a * r[1].value.p + 2.0 * a * r[1].value.q * s;
  }

  /** A negative discriminant leaves no real solution, which is why that branch returns complex roots. */
  lemma NoRealRoot(a: real, b: real, c: real, v: real)
    requires a != 0.0 && Discriminant(a, b, c) < 0.0
    ensures a * v * v + b * v + c != 0.0
  {
    var w := 2.0 * a * v + b;
    assert w * w == 4.0 * a * (a * v * v + b * v + c) + Discriminant(a, b, c);
    assert w * w >= 0.0;
  }

  /** One surd over a negative radicand that solves the equation in Q(√d),
      read as re + i·im with im = q·t and t = √(−d), solves it as a complex
      number: both the real and the imaginary part of a·z² + b·z + c vanish. */
  lemma ComplexRootNumeric(a: real, b: real, c: real, x: Surd, t: real)
    requires IsZero(Quadratic(a, b, c, x))
    requires t * t == -x.d
    ensures var re, im := x.p, x.q * t;
      && a * (re * re - im * im) + b * re + c == 0.0
      && (2.0 * a * re + b) * im == 0.0
  {
    var re, im := x.p, x.q * t;
    assert im * im == -(x.q * x.q * x.d);
    assert Quadratic(a, b, c, x).p == a * (re * re + x.q * x.q * x.d) + b * re + c;
    assert Quadratic(a, b, c, x).q == (2.0 * a * re + b) * x.q;
  }

  /** With t = √(−D) for a negative discriminant, the two returned roots are the
      conjugate pair re ± i·im with re = −b/(2a) and im = t/(2a) ≠ 0, and each
      solves the equation as a complex number. */
  lemma ComplexRootsNumeric(a: real, b: real, c: real, t: real)
    requires a != 0.0 && Discriminant(a, b, c) < 0.0
    requires t >= 0.0 && t * t == -Discriminant(a, b, c)
    ensures var r := QuadraticRoots(a, b, c);
      forall i :: 0 <= i < 2 ==>
        var re, im := r[i].value.p, r[i].value.q * t;
        && 2.0 * a * re == -b
        && a * (re * re - im * im) + b * re + c == 0.0
        && (2.0 * a * re + b) * im == 0.0
    ensures var r := QuadraticRoots(a, b, c);
      2.0 * a * (r[0].value.q * t) == t && r[0].value.q * t == -(r[1].value.q * t) != 0.0
  {
    var r := QuadraticRoots(a, b, c);
    ComplexRootNumeric(a, b, c, r[0].value, t);
    ComplexRootNumeric(a, b, c, r[1].value, t);
    QuadraticRootsDistinct(a, b, c);
    assert t != 0.0;
    assert 2.0 * a * (r[0].value.q * t) == (2.0 * a * r[0].value.q) * t;
  }

  /** A product vanishes only when a factor does. */
  lemma ZeroProduct(x: real, y: real)
    requires x * y == 0.0
    ensures x == 0.0 || y == 0.0
  {
    if x != 0.0 {
      assert y == (x * y) / x;
    }
  }

  /** −b/a is the only solution of a·x + b = 0. */
  lemma LinearRootExact(a: real, b: real, v: real)
    requires a != 0.0
    ensures a * v + b == 0.0 <==> v == LinearRoots(a, b)[0].value.p
  {
    var x := LinearRoots(a, b)[0].value.p;
    assert a * x + b == 0.0;
    if a * v + b == 0.0 {
      assert a * (v - x) == 0.0;
      ZeroProduct(a, v - x);
    }
  }

  /** Completing the square: with s² = b² − 4ac, a solution v of
      a·v² + b·v + c = 0 has 2a·v = −b + s or 2a·v = −b − s. */
  lemma CompletedSquare(a: real, b: real, c: real, s: real, v: real)
    requires s * s == Discriminant(a, b, c) && a * v * v + b * v + c == 0.0
    ensures 2.0 * a * v == -b + s || 2.0 * a * v == -b - s
  {
    var w := 2.0 * a * v + b;
    assert w * w == 4.0 * a * (a * v * v + b * v + c) + s * s;
    assert (w - s) * (w + s) == 0.0;
    ZeroProduct(w - s, w + s);
  }

  /** The solutions are exactly the two numbers with 2a·v = −b ± s. */
  lemma FactoredSolutions(a: real, b: real, c: real, s: real, v: real, v0: real, v1: real)
    requires a != 0.0 && s * s == Discriminant(a, b, c)
    requires 2.0 * a * v0 == -b + s && 2.0 * a * v1 == -b - s
    ensures a * v * v + b * v + c == 0.0 <==> v == v0 || v == v1
  {
    var w := 2.0 * a * v + b;
    assert w * w - s * s == 4.0 * a * (a * v * v + b * v + c);
    if a * v * v + b * v + c == 0.0 {
      CompletedSquare(a, b, c, s, v);
      if 2.0 * a * v == -b + s {
        assert 2.0 * a * (v - v0) == 0.0;
        ZeroProduct(2.0 * a, v - v0);
      } else {
        assert 2.0 * a * (v - v1) == 0.0;
        ZeroProduct(2.0 * a, v - v1);
      }
    } else if v == v0 || v == v1 {
      assert w * w == s * s;
      assert 4.0 * a * (a * v * v + b * v + c) == 0.0;
      ZeroProduct(4.0 * a, a * v * v + b * v + c);
    }
  }

  /** With s = √D for a positive discriminant, v solves a·v² + b·v + c = 0
      exactly when it is one of the two real roots read with s for √D. */
  lemma TwoRealRootsExact(a: real, b: real, c: real, s: real, v: real)
    requires a != 0.0 && Discriminant(a, b, c) > 0.0
    requires s >= 0.0 && s * s == Discriminant(a, b, c)
    ensures var r := QuadraticRoots(a, b, c);
      a * v * v + b * v + c == 0.0 <==> v == Value(r[0].value, s) || v == Value(r[1].value, s)
  {
    var r := QuadraticRoots(a, b, c);
    var x0, x1 := r[0].value, r[1].value;
    assert 2.0 * a * x0.p == -b && 2.0 * a * x0.q == 1.0;
    assert 2.0 * a * x1.p == -b && 2.0 * a * x1.q == -1.0;
    assert 2.0 * a * Value(x0, s) == 2.0 * a * x0.p + 2.0 * a * x0.q * s;
    assert 2.0 * a * Value(x1, s) == 2.0 * a * x1.p + 2.0 * a * x1.q * s;
    FactoredSolutions(a, b, c, s, v, Value(x0, s), Value(x1, s));
  }

  /** With a zero discriminant, v solves a·v² + b·v + c = 0 exactly when it
      is the double root −b/(2a). */
  lemma DoubleRootExact(a: real, b: real, c: real, v: real)
    requires a != 0.0 && Discriminant(a, b, c) == 0.0
    ensures a * v * v + b * v + c == 0.0 <==> v == QuadraticRoots(a, b, c)[0].value.p
  {
    var v0 := QuadraticRoots(a, b, c)[0].value.p;
    assert 2.0 * a * v0 == -b;
    if a * v * v + b * v + c == 0.0 {
      CompletedSquare(a, b, c, 0.0, v);
      assert 2.0 * a * (v - v0) == 0.0;
      ZeroProduct(2.0 * a, v - v0);
    }
  }

  /** With s = √D for a non-negative discriminant, the real solutions of
      a·v² + b·v + c = 0 are exactly the roots returned, read with s for √D. */
  lemma QuadraticRootsExact(a: real, b: real, c: real, s: real, v: real)
    requires a != 0.0 && Discriminant(a, b, c) >= 0.0
    requires s >= 0.0 && s * s == Discriminant(a, b, c)
    ensures var r := QuadraticRoots(a, b, c);
      a * v * v + b * v + c == 0.0 <==>
        exists i :: 0 <= i < |r| && v == Value(r[i].value, s)
  {
    var r := QuadraticRoots(a, b, c);
    if Discriminant(a, b, c) > 0.0 {
      TwoRealRootsExact(a, b, c, s, v);
      assert v == Value(r[0].value, s) ==> 0 <= 0 < |r|;
    } else {
      assert s == 0.0 by { ZeroProduct(s, s); }
      DoubleRootExact(a, b, c, v);
      assert Value(r[0].value, s) == r[0].value.p;
    }
  }

  /** Worked example: x² − 5x + 6 = 0 has D = 1 and the roots 3 then 2. */
  lemma ExampleTwoRealRoots()
    ensures var r := QuadraticRoots(1.0, -5.0, 6.0);
      Discriminant(1.0, -5.0, 6.0) == 1.0 && |r| == 2 && Value(r[0].value, 1.0) == 3.0 && Value(r[1].value, 1.0) == 2.0
  {
  }

  /** Worked example: x² + 1 = 0 has D = −4 and the roots i then −i, that is
      0 ± (1/2)·√−4. */
  lemma ExampleComplexRoots()
    ensures Discriminant(1.0, 0.0, 1.0) == -4.0
    ensures QuadraticRoots(1.0, 0.0, 1.0) == [Complex(Surd(0.0, 0.5, -4.0)), Complex(Surd(0.0, -0.5, -4.0))]
  {
  }

  /** Worked example: 2x − 4 = 0 has the root 2. */
  lemma ExampleLinear()
    ensures LinearRoots(2.0, -4.0) == [Real(Rational(2.0))]
  {
  }
}
