/**
  The computation-graph nodes `VariableNode`, `ConstantNode`, `AddNode`,
  `MultiplyNode` and `SigmoidNode`. Each builds its output expression
  (`forward`) and the expression of its derivative by a variable name
  (`backward`), node by node, without calling the differentiator.
*/
module SymbolicNodes {
  import opened SymbolicExpression

  datatype Node =
    | VariableNode(name: string)
    | ConstantNode(value: int)
    | AddNode(left: Node, right: Node)
    | MultiplyNode(left: Node, right: Node)
    | SigmoidNode(input: Node)

  /** Names of the variable nodes in the graph. */
  function NodeVars(n: Node): set<string>
  {
    match n
    case VariableNode(x) => {x}
    case ConstantNode(_) => {}
    case AddNode(l, r) => NodeVars(l) + NodeVars(r)
    case MultiplyNode(l, r) => NodeVars(l) + NodeVars(r)
    case SigmoidNode(i) => NodeVars(i)
  }

  /** The graph has no sigmoid node. */
  predicate SigmoidFree(n: Node)
  {
    match n
    case VariableNode(_) => true
    case ConstantNode(_) => true
    case AddNode(l, r) => SigmoidFree(l) && SigmoidFree(r)
    case MultiplyNode(l, r) => SigmoidFree(l) && SigmoidFree(r)
    case SigmoidNode(_) => false
  }

  /**
    `forward()`. A sigmoid node builds 1 / (1 + e^(-x)) with e approximated
    by the term 2718281828459045235 / 10^18.
  */
  function Forward(n: Node): (r: Expr)
    ensures Vars(r) == NodeVars(n)
    ensures WellFormed(r)
  {
    match n
    case VariableNode(x) => Var(x)
    case ConstantNode(c) => Term(c, 1, 1)
    case AddNode(l, r) => Add(Forward(l), Forward(r))
    case MultiplyNode(l, r) => Mul(Forward(l), Forward(r))
    case SigmoidNode(i) =>
      var expNegX := Pow(EulerApprox, Negate(Forward(i)));
      assert Vars(EulerApprox) == {} && WellFormed(EulerApprox);
      assert Vars(One) == {} && WellFormed(One);
      assert Vars(expNegX) == Vars(Forward(i));
      Div(One, Add(One, expNegX))
  }

  /**
    `backward(v)`. Sums and products follow the sum and product rules on the
    children's own `backward`; a sigmoid node returns f * (1 - f) times its
    input's derivative, with f its own forward expression.
  */
  function Backward(n: Node, v: string): (r: Expr)
    ensures Vars(r) <= NodeVars(n)
    ensures WellFormed(r)
  {
    match n
    case VariableNode(x) => if x == v then One else Zero
    case ConstantNode(_) => Zero
    case AddNode(l, r) => Add(Backward(l, v), Backward(r, v))
    case MultiplyNode(l, r) =>
      Add(Mul(Backward(l, v), Forward(r)), Mul(Forward(l), Backward(r, v)))
    case SigmoidNode(i) =>
      var f := Forward(n);
      assert Vars(One) == {} && WellFormed(One);
      assert Vars(Sub(One, f)) == Vars(f);
      Mul(Mul(f, Sub(One, f)), Backward(i, v))
  }

  /**
    On graphs of variable, constant, sum and product nodes, `backward(v)` is
    structurally the differentiator applied to `forward()`.
  */
  lemma {:induction false} BackwardIsDifferentiate(n: Node, v: string)
    requires SigmoidFree(n)
    ensures Backward(n, v) == Differentiate(Forward(n), v)
  {
    match n
    case VariableNode(_) =>
    case ConstantNode(_) =>
    case AddNode(l, r) => BackwardIsDifferentiate(l, v); BackwardIsDifferentiate(r, v);
    case MultiplyNode(l, r) => BackwardIsDifferentiate(l, v); BackwardIsDifferentiate(r, v);
  }

  /**
    A sigmoid node's `backward` is a product, while differentiating its
    `forward` gives a quotient, so the two are never the same tree.
  */
  lemma SigmoidBackwardIsNotDifferentiate(i: Node, v: string)
    ensures Backward(SigmoidNode(i), v).Mul?
    ensures Differentiate(Forward(SigmoidNode(i)), v).Div?
    ensures Backward(SigmoidNode(i), v) != Differentiate(Forward(SigmoidNode(i)), v)
  {
  }

  /** A sigmoid of an input whose derivative simplifies to zero has a derivative that simplifies to zero. */
  lemma SigmoidBackwardVanishes(i: Node, v: string)
    requires Simplify(Backward(i, v)) == Zero
    ensures Simplify(Backward(SigmoidNode(i), v)) == Zero
  {
  }

  /** In particular the sigmoid of a constant. */
  lemma SigmoidOfConstantBackward(c: int, v: string)
    ensures Simplify(Backward(SigmoidNode(ConstantNode(c)), v)) == Zero
  {
    SigmoidBackwardVanishes(ConstantNode(c), v);
  }

  /** Two constant nodes build equal trees exactly when their values are equal. */
  lemma ConstantForwardInjective(a: int, b: int)
    ensures Forward(ConstantNode(a)) == Forward(ConstantNode(b)) <==> a == b
  {
  }

  /** The variables of a sum node's output are those of its two children together. */
  lemma AddNodeVars(l: Node, r: Node)
    ensures Vars(Forward(AddNode(l, r))) == Vars(Forward(l)) + Vars(Forward(r))
  {
  }

  /** The slope of c * x with respect to x simplifies to the term c, for every c. */
  lemma ScaledVariableSlope(c: int)
    ensures Simplify(Backward(MultiplyNode(ConstantNode(c), VariableNode("x")), "x")) == Term(c, 1, 1)
  {
    var slope := Mul(Term(c, 1, 1), One);
    assert Simplify(Mul(Zero, Var("x"))) == Zero;
    if c == 0 {
      assert Simplify(slope) == Zero;
    } else if c == 1 {
      assert Simplify(slope) == One;
    } else {
      assert Simplify(slope) == Term(c, 1, 1);
    }
  }
}
