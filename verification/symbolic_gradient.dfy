/**
  `SymbolicGradient.computeGradient`: a third differentiator, by a variable
  name, that uses the general power rule f^g * (g' * ln f + g * f' / f).
  It is written against the variable-less tree type but is called with
  `SymbolicExpression` trees, so it is modelled over `Expr`.
*/
module SymbolicGradient {
  import opened SymbolicExpression

  function ComputeGradient(e: Expr, v: string): (r: Expr)
    ensures Vars(r) <= Vars(e)
    ensures WellFormed(e) ==> WellFormed(r)
  {
    match e
    case Term(_, _, _) => Zero
    case Var(y) => if v == y then One else Zero
    case Add(f, g) => Add(ComputeGradient(f, v), ComputeGradient(g, v))
    case Sub(f, g) => Sub(ComputeGradient(f, v), ComputeGradient(g, v))
    case Mul(f, g) => Add(Mul(ComputeGradient(f, v), g), Mul(f, ComputeGradient(g, v)))
    case Div(f, g) =>
      var numerator := Sub(Mul(ComputeGradient(f, v), g), Mul(f, ComputeGradient(g, v)));
      assert Vars(numerator) == Vars(ComputeGradient(f, v)) + Vars(g) + Vars(f) + Vars(ComputeGradient(g, v));
      assert Vars(Two) == {} && WellFormed(Two);
      assert Vars(Pow(g, Two)) == Vars(g) && (WellFormed(g) ==> WellFormed(Pow(g, Two)));
      assert WellFormed(e) ==> WellFormed(Mul(ComputeGradient(f, v), g)) && WellFormed(Mul(f, ComputeGradient(g, v)));
      Div(numerator, Pow(g, Two))
    case Pow(base, exp) =>
      var term1 := Mul(ComputeGradient(exp, v), Log(base));
      var term3 := Mul(exp, Div(ComputeGradient(base, v), base));
      assert Vars(term1) <= Vars(e) && Vars(term3) <= Vars(e);
      assert WellFormed(e) ==> WellFormed(term1) && WellFormed(term3);
      Mul(e, Add(term1, term3))
    case Log(arg) => Div(ComputeGradient(arg, v), arg)
  }

  /** `computeGradient(e, v)` is `e.symbolicGrad(variable(v))` on every tree. */
  lemma {:induction false} ComputeGradientIsSymbolicGrad(e: Expr, v: string)
    ensures ComputeGradient(e, v) == SymbolicGrad(e, Var(v))
  {
    match e
    case Term(_, _, _) => EqualsIsStructural(e, Var(v));
    case Var(_) =>
    case Add(f, g) => ComputeGradientIsSymbolicGrad(f, v); ComputeGradientIsSymbolicGrad(g, v);
    case Sub(f, g) => ComputeGradientIsSymbolicGrad(f, v); ComputeGradientIsSymbolicGrad(g, v);
    case Mul(f, g) => ComputeGradientIsSymbolicGrad(f, v); ComputeGradientIsSymbolicGrad(g, v);
    case Div(f, g) => ComputeGradientIsSymbolicGrad(f, v); ComputeGradientIsSymbolicGrad(g, v);
    case Pow(f, g) => ComputeGradientIsSymbolicGrad(f, v); ComputeGradientIsSymbolicGrad(g, v);
    case Log(a) => ComputeGradientIsSymbolicGrad(a, v);
  }

  /** Away from power nodes the general and the constant-exponent differentiators coincide. */
  lemma {:induction false} ComputeGradientIsDifferentiateWithoutPow(e: Expr, v: string)
    requires PowFree(e)
    ensures ComputeGradient(e, v) == Differentiate(e, v)
  {
    match e
    case Term(_, _, _) =>
    case Var(_) =>
    case Add(f, g) =>
      ComputeGradientIsDifferentiateWithoutPow(f, v); ComputeGradientIsDifferentiateWithoutPow(g, v);
    case Sub(f, g) =>
      ComputeGradientIsDifferentiateWithoutPow(f, v); ComputeGradientIsDifferentiateWithoutPow(g, v);
    case Mul(f, g) =>
      ComputeGradientIsDifferentiateWithoutPow(f, v); ComputeGradientIsDifferentiateWithoutPow(g, v);
    case Div(f, g) =>
      ComputeGradientIsDifferentiateWithoutPow(f, v); ComputeGradientIsDifferentiateWithoutPow(g, v);
    case Log(a) => ComputeGradientIsDifferentiateWithoutPow(a, v);
  }

  /**
    At a power node they differ: for 2^x the general rule keeps the
    ln 2 factor, while the constant-exponent rule simplifies to zero.
  */
  lemma DifferentiatorsDisagreeAtPow()
    ensures Simplify(ComputeGradient(Pow(Two, Var("x")), "x")) == Mul(Pow(Two, Var("x")), Log(Two))
    ensures Simplify(Differentiate(Pow(Two, Var("x")), "x")) == Zero
  {
  }

  /** A tree that does not mention `v` has a gradient that simplifies to zero. */
  lemma {:induction false} ComputeGradientConstant(e: Expr, v: string)
    requires v !in Vars(e)
    ensures Simplify(ComputeGradient(e, v)) == Zero
  {
    match e
    case Term(_, _, _) =>
    case Var(_) =>
    case Add(f, g) => ComputeGradientConstant(f, v); ComputeGradientConstant(g, v);
    case Sub(f, g) => ComputeGradientConstant(f, v); ComputeGradientConstant(g, v);
    case Mul(f, g) => ComputeGradientConstant(f, v); ComputeGradientConstant(g, v);
    case Div(f, g) =>
      ComputeGradientConstant(f, v); ComputeGradientConstant(g, v);
      assert Simplify(Mul(ComputeGradient(f, v), g)) == Zero;
      assert Simplify(Sub(Mul(ComputeGradient(f, v), g), Mul(f, ComputeGradient(g, v)))) == Zero;
    case Pow(f, g) =>
      ComputeGradientConstant(f, v); ComputeGradientConstant(g, v);
      assert Simplify(Mul(ComputeGradient(g, v), Log(f))) == Zero;
      assert Simplify(Div(ComputeGradient(f, v), f)) == Zero;
      assert Simplify(Mul(g, Div(ComputeGradient(f, v), f))) == Zero;
    case Log(a) => ComputeGradientConstant(a, v);
  }

  /**
    The gradient of x^2: the power node times (0 * ln x + 2 * (1 / x)),
    which is not structurally the product 2 * x.
  */
  lemma GradientOfSquare()
    ensures ComputeGradient(Pow(Var("x"), Two), "x")
         == Mul(Pow(Var("x"), Two), Add(Mul(Zero, Log(Var("x"))), Mul(Two, Div(One, Var("x")))))
    ensures ComputeGradient(Pow(Var("x"), Two), "x") != Mul(Two, Var("x"))
  {
  }
}
