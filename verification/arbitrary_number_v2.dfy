/**
  `ArbitraryNumberV2`: the same expression tree as `SymbolicExpression`
  without a variable leaf. Its operations are related to their
  `SymbolicExpression` counterparts through the embedding `Embed`; its
  `simplify` differs, because the TERM case falls through into the ADD case.
*/
module ArbitraryNumberV2 {
  import opened Wrappers
  import opened Json
  import Decimal
  import S = SymbolicExpression

  datatype Tree =
    | Term(coefficient: int, numerator: int, denominator: int)
    | Add(left: Tree, right: Tree)
    | Sub(left: Tree, right: Tree)
    | Mul(left: Tree, right: Tree)
    | Div(left: Tree, right: Tree)
    | Pow(base: Tree, exponent: Tree)
    | Log(arg: Tree)

  const Zero: Tree := Term(0, 1, 1)
  const One: Tree := Term(1, 1, 1)
  const Two: Tree := Term(2, 1, 1)
  const MinusOne: Tree := Term(-1, 1, 1)

  /** The 18-digit approximation of e that `exp` raises. */
  const EulerApprox: Tree := Term(1, 2718281828459045235, 1000000000000000000)

  /** A tree read as a `SymbolicExpression` tree; it has no variables. */
  function Embed(t: Tree): (e: S.Expr)
    ensures S.Vars(e) == {}
  {
    match t
    case Term(c, n, d) => S.Term(c, n, d)
    case Add(l, r) => S.Add(Embed(l), Embed(r))
    case Sub(l, r) => S.Sub(Embed(l), Embed(r))
    case Mul(l, r) => S.Mul(Embed(l), Embed(r))
    case Div(l, r) => S.Div(Embed(l), Embed(r))
    case Pow(b, x) => S.Pow(Embed(b), Embed(x))
    case Log(a) => S.Log(Embed(a))
  }

  /** Distinct trees embed as distinct trees. */
  lemma {:induction false} EmbedInjective(a: Tree, b: Tree)
    ensures Embed(a) == Embed(b) <==> a == b
  {
    match (a, b)
    case (Add(l1, r1), Add(l2, r2)) => EmbedInjective(l1, l2); EmbedInjective(r1, r2);
    case (Sub(l1, r1), Sub(l2, r2)) => EmbedInjective(l1, l2); EmbedInjective(r1, r2);
    case (Mul(l1, r1), Mul(l2, r2)) => EmbedInjective(l1, l2); EmbedInjective(r1, r2);
    case (Div(l1, r1), Div(l2, r2)) => EmbedInjective(l1, l2); EmbedInjective(r1, r2);
    case (Pow(l1, r1), Pow(l2, r2)) => EmbedInjective(l1, l2); EmbedInjective(r1, r2);
    case (Log(a1), Log(a2)) => EmbedInjective(a1, a2);
    case _ =>
  }

  // ---------------------------------------------------------------------
  // Derived builders
  // ---------------------------------------------------------------------

  /** `negate(x)`: the same tree as `SymbolicExpression.negate`. */
  function Negate(x: Tree): (r: Tree)
    ensures Embed(r) == S.Negate(Embed(x))
  {
    Mul(MinusOne, x)
  }

  /** `log(base, argument)`: the same tree as `SymbolicExpression.log(base, argument)`. */
  function LogBase(base: Tree, argument: Tree): (r: Tree)
    ensures Embed(r) == S.LogBase(Embed(base), Embed(argument))
  {
    Div(Log(argument), Log(base))
  }

  /** `log(bn, bd, an, ad)`: the same tree as its `SymbolicExpression` overload. */
  function LogOfRatios(baseNumerator: int, baseDenominator: int,
                       argNumerator: int, argDenominator: int): (r: Tree)
    ensures Embed(r) == S.LogOfRatios(baseNumerator, baseDenominator, argNumerator, argDenominator)
  {
    LogBase(Term(1, baseNumerator, baseDenominator), Term(1, argNumerator, argDenominator))
  }

  /**
    `exp(x)`: the approximation of e raised to `x`, the same base the
    sigmoid node uses.
  */
  function Exp(exponent: Tree): (r: Tree)
    ensures Embed(r) == S.Pow(S.EulerApprox, Embed(exponent))
  {
    Pow(EulerApprox, exponent)
  }

  // ---------------------------------------------------------------------
  // Simplifier
  // ---------------------------------------------------------------------

  predicate IsZero(t: Tree)
  {
    t.Term? && t.coefficient == 0
  }

  predicate IsOne(t: Tree)
  {
    t.Term? && t.coefficient == 1 && t.numerator == 1 && t.denominator == 1
  }

  /** `children.get(i)` on a node with fewer than i + 1 children. */
  datatype SimplifyError = ChildIndexOutOfBounds(index: nat)

  /**
    `simplify`. The TERM case has no body of its own and runs the ADD case,
    which first reads child 0; a Term has no children, so that read fails.
    The other cases are those of `SymbolicExpression.simplify`, with a
    failure in a child propagated unchanged.
  */
  function Simplify(t: Tree): Result<Tree, SimplifyError>
  {
    match t
    case Term(_, _, _) => Failure(ChildIndexOutOfBounds(0))
    case Add(l, r) =>
      var l' :- Simplify(l);
      var r' :- Simplify(r);
      Success(if IsZero(l') then r' else if IsZero(r') then l' else Add(l', r'))
    case Sub(l, r) =>
      var l' :- Simplify(l);
      var r' :- Simplify(r);
      Success(if IsZero(r') then l' else Sub(l', r'))
    case Mul(l, r) =>
      var l' :- Simplify(l);
      var r' :- Simplify(r);
      Success(if IsZero(l') || IsZero(r') then Zero
              else if IsOne(l') then r'
              else if IsOne(r') then l'
              else Mul(l', r'))
    case Div(l, r) =>
      var l' :- Simplify(l);
      var r' :- Simplify(r);
      Success(if IsZero(l') then Zero else if IsOne(r') then l' else Div(l', r'))
    case Pow(b, x) =>
      var b' :- Simplify(b);
      var x' :- Simplify(x);
      Success(if IsZero(x') then One else if IsOne(x') then b' else Pow(b', x'))
    case Log(a) =>
      var a' :- Simplify(a);
      Success(Log(a'))
  }

  /**
    `simplify` never returns normally: every tree's leftmost descent ends at
    a Term, whose child 0 is read first.
  */
  lemma {:induction false} SimplifyAlwaysFails(t: Tree)
    ensures Simplify(t) == Failure(ChildIndexOutOfBounds(0))
  {
    match t
    case Term(_, _, _) =>
    case Add(l, _) => SimplifyAlwaysFails(l);
    case Sub(l, _) => SimplifyAlwaysFails(l);
    case Mul(l, _) => SimplifyAlwaysFails(l);
    case Div(l, _) => SimplifyAlwaysFails(l);
    case Pow(b, _) => SimplifyAlwaysFails(b);
    case Log(a) => SimplifyAlwaysFails(a);
  }

  /** The zero and one tests read the same on a tree and on its embedding. */
  lemma EmbedLeafTests(t: Tree)
    ensures IsZero(t) <==> S.IsZero(Embed(t))
    ensures IsOne(t) <==> S.IsOne(Embed(t))
  {
  }

  /**
    `simplify` with a TERM case of its own that returns the term unchanged,
    as `SymbolicExpression.simplify` does. It never fails and builds the same
    tree as that simplifier on the embedding.
  */
  function SimplifyTermAsLeaf(t: Tree): (r: Tree)
    ensures Embed(r) == S.Simplify(Embed(t))
  {
    match t
    case Term(_, _, _) => t
    case Add(l, r) =>
      var l', r' := SimplifyTermAsLeaf(l), SimplifyTermAsLeaf(r);
      EmbedLeafTests(l'); EmbedLeafTests(r');
      if IsZero(l') then r' else if IsZero(r') then l' else Add(l', r')
    case Sub(l, r) =>
      var l', r' := SimplifyTermAsLeaf(l), SimplifyTermAsLeaf(r);
      EmbedLeafTests(r');
      if IsZero(r') then l' else Sub(l', r')
    case Mul(l, r) =>
      var l', r' := SimplifyTermAsLeaf(l), SimplifyTermAsLeaf(r);
      EmbedLeafTests(l'); EmbedLeafTests(r');
      if IsZero(l') || IsZero(r') then Zero
      else if IsOne(l') then r'
      else if IsOne(r') then l'
      else Mul(l', r')
    case Div(l, r) =>
      var l', r' := SimplifyTermAsLeaf(l), SimplifyTermAsLeaf(r);
      EmbedLeafTests(l'); EmbedLeafTests(r');
      if IsZero(l') then Zero else if IsOne(r') then l' else Div(l', r')
    case Pow(b, x) =>
      var b', x' := SimplifyTermAsLeaf(b), SimplifyTermAsLeaf(x);
      EmbedLeafTests(x');
      if IsZero(x') then One else if IsOne(x') then b' else Pow(b', x')
    case Log(a) => Log(SimplifyTermAsLeaf(a))
  }

  /** The corrected simplifier is idempotent, as its counterpart is. */
  lemma {:induction false} SimplifyTermAsLeafIdempotent(t: Tree)
    ensures SimplifyTermAsLeaf(SimplifyTermAsLeaf(t)) == SimplifyTermAsLeaf(t)
  {
    var r := SimplifyTermAsLeaf(t);
    S.SimplifyIdempotent(Embed(t));
    EmbedInjective(SimplifyTermAsLeaf(r), r);
  }

  // ---------------------------------------------------------------------
  // Differentiators
  // ---------------------------------------------------------------------

  /**
    `differentiate(x)`. Every one of the seven node kinds has a case, so the
    "not implemented" error is unreachable. With no variable leaf, the name
    is never consulted.
  */
  function Differentiate(t: Tree, x: string): Tree
  {
    match t
    case Term(_, _, _) => Zero
    case Add(u, v) => Add(Differentiate(u, x), Differentiate(v, x))
    case Sub(u, v) => Sub(Differentiate(u, x), Differentiate(v, x))
    case Mul(u, v) => Add(Mul(Differentiate(u, x), v), Mul(u, Differentiate(v, x)))
    case Div(u, v) =>
      Div(Sub(Mul(Differentiate(u, x), v), Mul(u, Differentiate(v, x))), Pow(v, Two))
    case Pow(b, p) => Mul(Mul(p, Pow(b, Sub(p, One))), Differentiate(b, x))
    case Log(u) => Div(Differentiate(u, x), u)
  }

  /** Every rule builds the same shape as `SymbolicExpression.differentiate`. */
  lemma {:induction false} DifferentiateAgrees(t: Tree, x: string)
    ensures Embed(Differentiate(t, x)) == S.Differentiate(Embed(t), x)
  {
    match t
    case Term(_, _, _) =>
    case Add(u, v) => DifferentiateAgrees(u, x); DifferentiateAgrees(v, x);
    case Sub(u, v) => DifferentiateAgrees(u, x); DifferentiateAgrees(v, x);
    case Mul(u, v) => DifferentiateAgrees(u, x); DifferentiateAgrees(v, x);
    case Div(u, v) =>
      DifferentiateAgrees(u, x); DifferentiateAgrees(v, x);
      assert Embed(Pow(v, Two)) == S.Pow(Embed(v), S.Two);
      assert Embed(Mul(Differentiate(u, x), v)) == S.Mul(S.Differentiate(Embed(u), x), Embed(v));
      assert Embed(Mul(u, Differentiate(v, x))) == S.Mul(Embed(u), S.Differentiate(Embed(v), x));
      assert Embed(Differentiate(t, x))
          == S.Div(S.Sub(S.Mul(S.Differentiate(Embed(u), x), Embed(v)),
                         S.Mul(Embed(u), S.Differentiate(Embed(v), x))),
                   S.Pow(Embed(v), S.Two));
    case Pow(b, p) =>
      DifferentiateAgrees(b, x);
      assert Embed(Sub(p, One)) == S.Sub(Embed(p), S.One);
      assert Embed(Mul(p, Pow(b, Sub(p, One)))) == S.Mul(Embed(p), S.Pow(Embed(b), S.Sub(Embed(p), S.One)));
    case Log(u) => DifferentiateAgrees(u, x);
  }

  /** The derivative does not depend on the variable name. */
  lemma {:induction false} DifferentiateIgnoresName(t: Tree, x: string, y: string)
    ensures Differentiate(t, x) == Differentiate(t, y)
  {
    match t
    case Term(_, _, _) =>
    case Add(u, v) => DifferentiateIgnoresName(u, x, y); DifferentiateIgnoresName(v, x, y);
    case Sub(u, v) => DifferentiateIgnoresName(u, x, y); DifferentiateIgnoresName(v, x, y);
    case Mul(u, v) => DifferentiateIgnoresName(u, x, y); DifferentiateIgnoresName(v, x, y);
    case Div(u, v) => DifferentiateIgnoresName(u, x, y); DifferentiateIgnoresName(v, x, y);
    case Pow(b, _) => DifferentiateIgnoresName(b, x, y);
    case Log(u) => DifferentiateIgnoresName(u, x, y);
  }

  /**
    Read as `SymbolicExpression` trees, every derivative simplifies to the
    zero term: there is nothing to differentiate by.
  */
  lemma DerivativeSimplifiesToZero(t: Tree, x: string)
    ensures S.Simplify(Embed(Differentiate(t, x))) == S.Zero
  {
    DifferentiateAgrees(t, x);
    S.DifferentiateConstant(Embed(t), x);
  }

  /**
    `symbolicGrad(inputVar)`: a Term's gradient is one exactly when it equals
    `inputVar`; powers use the general f^g rule.
  */
  function SymbolicGrad(t: Tree, inputVar: Tree): Tree
  {
    match t
    case Term(_, _, _) => if Equals(t, inputVar) then One else Zero
    case Add(l, r) => Add(SymbolicGrad(l, inputVar), SymbolicGrad(r, inputVar))
    case Sub(l, r) => Sub(SymbolicGrad(l, inputVar), SymbolicGrad(r, inputVar))
    case Mul(l, r) =>
      Add(Mul(SymbolicGrad(l, inputVar), r), Mul(l, SymbolicGrad(r, inputVar)))
    case Div(l, r) =>
      Div(Sub(Mul(SymbolicGrad(l, inputVar), r), Mul(l, SymbolicGrad(r, inputVar))), Pow(r, Two))
    case Pow(f, g) =>
      Mul(t, Add(Mul(SymbolicGrad(g, inputVar), Log(f)),
                 Mul(g, Div(SymbolicGrad(f, inputVar), f))))
    case Log(a) => Div(SymbolicGrad(a, inputVar), a)
  }

  /** Every rule builds the same shape as `SymbolicExpression.symbolicGrad`. */
  lemma {:induction false} SymbolicGradAgrees(t: Tree, inputVar: Tree)
    ensures Embed(SymbolicGrad(t, inputVar)) == S.SymbolicGrad(Embed(t), Embed(inputVar))
  {
    match t
    case Term(_, _, _) =>
      EqualsIsStructural(t, inputVar);
      S.EqualsIsStructural(Embed(t), Embed(inputVar));
      EmbedInjective(t, inputVar);
    case Add(l, r) => SymbolicGradAgrees(l, inputVar); SymbolicGradAgrees(r, inputVar);
    case Sub(l, r) => SymbolicGradAgrees(l, inputVar); SymbolicGradAgrees(r, inputVar);
    case Mul(l, r) => SymbolicGradAgrees(l, inputVar); SymbolicGradAgrees(r, inputVar);
    case Div(l, r) =>
      SymbolicGradAgrees(l, inputVar); SymbolicGradAgrees(r, inputVar);
      var gl, gr := S.SymbolicGrad(Embed(l), Embed(inputVar)), S.SymbolicGrad(Embed(r), Embed(inputVar));
      assert Embed(Pow(r, Two)) == S.Pow(Embed(r), S.Two);
      assert Embed(Mul(SymbolicGrad(l, inputVar), r)) == S.Mul(gl, Embed(r));
      assert Embed(Mul(l, SymbolicGrad(r, inputVar))) == S.Mul(Embed(l), gr);
      assert Embed(SymbolicGrad(t, inputVar))
          == S.Div(S.Sub(S.Mul(gl, Embed(r)), S.Mul(Embed(l), gr)), S.Pow(Embed(r), S.Two));
    case Pow(f, g) =>
      SymbolicGradAgrees(f, inputVar); SymbolicGradAgrees(g, inputVar);
      assert Embed(Mul(SymbolicGrad(g, inputVar), Log(f)))
          == S.Mul(S.SymbolicGrad(Embed(g), Embed(inputVar)), S.Log(Embed(f)));
      assert Embed(Mul(g, Div(SymbolicGrad(f, inputVar), f)))
          == S.Mul(Embed(g), S.Div(S.SymbolicGrad(Embed(f), Embed(inputVar)), Embed(f)));
    case Log(a) => SymbolicGradAgrees(a, inputVar);
  }

  // ---------------------------------------------------------------------
  // Structural equality and serialization
  // ---------------------------------------------------------------------

  /** `equals`: the Term triple, otherwise the same operation and children pairwise. */
  function Equals(a: Tree, b: Tree): bool
  {
    match (a, b)
    case (Term(c1, n1, d1), Term(c2, n2, d2)) => c1 == c2 && n1 == n2 && d1 == d2
    case (Add(l1, r1), Add(l2, r2)) => Equals(l1, l2) && Equals(r1, r2)
    case (Sub(l1, r1), Sub(l2, r2)) => Equals(l1, l2) && Equals(r1, r2)
    case (Mul(l1, r1), Mul(l2, r2)) => Equals(l1, l2) && Equals(r1, r2)
    case (Div(l1, r1), Div(l2, r2)) => Equals(l1, l2) && Equals(r1, r2)
    case (Pow(l1, r1), Pow(l2, r2)) => Equals(l1, l2) && Equals(r1, r2)
    case (Log(a1), Log(a2)) => Equals(a1, a2)
    case _ => false
  }

  /** `equals` gives the same answer as `SymbolicExpression.equals` on the embedded trees. */
  lemma {:induction false} EqualsAgrees(a: Tree, b: Tree)
    ensures Equals(a, b) == S.Equals(Embed(a), Embed(b))
  {
    match (a, b)
    case (Add(l1, r1), Add(l2, r2)) => EqualsAgrees(l1, l2); EqualsAgrees(r1, r2);
    case (Sub(l1, r1), Sub(l2, r2)) => EqualsAgrees(l1, l2); EqualsAgrees(r1, r2);
    case (Mul(l1, r1), Mul(l2, r2)) => EqualsAgrees(l1, l2); EqualsAgrees(r1, r2);
    case (Div(l1, r1), Div(l2, r2)) => EqualsAgrees(l1, l2); EqualsAgrees(r1, r2);
    case (Pow(l1, r1), Pow(l2, r2)) => EqualsAgrees(l1, l2); EqualsAgrees(r1, r2);
    case (Log(a1), Log(a2)) => EqualsAgrees(a1, a2);
    case _ =>
  }

  /** `equals` is exactly equality of trees. */
  lemma EqualsIsStructural(a: Tree, b: Tree)
    ensures Equals(a, b) <==> a == b
  {
    EqualsAgrees(a, b);
    S.EqualsIsStructural(Embed(a), Embed(b));
    EmbedInjective(a, b);
  }

  /** Hence `equals` is reflexive, symmetric and transitive. */
  lemma EqualsIsEquivalence(a: Tree, b: Tree, c: Tree)
    ensures Equals(a, a)
    ensures Equals(a, b) ==> Equals(b, a)
    ensures Equals(a, b) && Equals(b, c) ==> Equals(a, c)
  {
    EqualsAgrees(a, a);
    EqualsAgrees(a, b);
    EqualsAgrees(b, a);
    EqualsAgrees(b, c);
    EqualsAgrees(a, c);
    S.EqualsIsEquivalence(Embed(a), Embed(b), Embed(c));
  }

  /** The operation name under "op". */
  function OpName(t: Tree): string
  {
    match t
    case Term(_, _, _) => "TERM"
    case Add(_, _) => "ADD"
    case Sub(_, _) => "SUBTRACT"
    case Mul(_, _) => "MULTIPLY"
    case Div(_, _) => "DIVIDE"
    case Pow(_, _) => "POWER"
    case Log(_) => "LOG"
  }

  /**
    `toJson`: a Term carries its three integers as decimal strings, every
    other node its children's documents under "args", in order.
  */
  function ToJson(t: Tree): (j: Json)
    ensures j.JObject? && "op" in j.fields && j.fields["op"] == JString(OpName(t))
  {
    match t
    case Term(c, n, d) =>
      JObject(map["op" := JString("TERM"),
                  "coefficient" := JString(Decimal.IntToDecimal(c)),
                  "numerator" := JString(Decimal.IntToDecimal(n)),
                  "denominator" := JString(Decimal.IntToDecimal(d))])
    case Add(l, r) => S.OperatorNode("ADD", [ToJson(l), ToJson(r)])
    case Sub(l, r) => S.OperatorNode("SUBTRACT", [ToJson(l), ToJson(r)])
    case Mul(l, r) => S.OperatorNode("MULTIPLY", [ToJson(l), ToJson(r)])
    case Div(l, r) => S.OperatorNode("DIVIDE", [ToJson(l), ToJson(r)])
    case Pow(b, x) => S.OperatorNode("POWER", [ToJson(b), ToJson(x)])
    case Log(a) => S.OperatorNode("LOG", [ToJson(a)])
  }

  /** The document is the one `SymbolicExpression.toJson` gives the embedded tree. */
  lemma {:induction false} ToJsonAgrees(t: Tree)
    ensures ToJson(t) == S.ToJson(Embed(t))
  {
    match t
    case Term(_, _, _) =>
    case Add(l, r) => ToJsonAgrees(l); ToJsonAgrees(r);
    case Sub(l, r) => ToJsonAgrees(l); ToJsonAgrees(r);
    case Mul(l, r) => ToJsonAgrees(l); ToJsonAgrees(r);
    case Div(l, r) => ToJsonAgrees(l); ToJsonAgrees(r);
    case Pow(b, x) => ToJsonAgrees(b); ToJsonAgrees(x);
    case Log(a) => ToJsonAgrees(a);
  }

  /** Distinct trees give distinct documents. */
  lemma ToJsonInjective(a: Tree, b: Tree)
    ensures ToJson(a) == ToJson(b) <==> a == b
  {
    ToJsonAgrees(a);
    ToJsonAgrees(b);
    S.ToJsonInjective(Embed(a), Embed(b));
    EmbedInjective(a, b);
  }
}
