/**
  The expression tree of `SymbolicExpression`: exact rational term leaves,
  named variable leaves, and binary/unary operator nodes. Every operation is a
  pure structural recursion that returns a new tree.
*/
module SymbolicExpression {
  import opened Wrappers
  import opened Json
  import Decimal

  /**
    `Term(c, n, d)` stands for c * n / d. The `term` factory stores its three
    integers as given: it does not reject d == 0.
  */
  datatype Expr =
    | Term(coefficient: int, numerator: int, denominator: int)
    | Var(name: string)
    | Add(left: Expr, right: Expr)
    | Sub(left: Expr, right: Expr)
    | Mul(left: Expr, right: Expr)
    | Div(left: Expr, right: Expr)
    | Pow(base: Expr, exponent: Expr)
    | Log(arg: Expr)

  const Zero: Expr := Term(0, 1, 1)
  const One: Expr := Term(1, 1, 1)
  const Two: Expr := Term(2, 1, 1)
  const MinusOne: Expr := Term(-1, 1, 1)

  /** The 18-digit approximation of e used as the base of exponentials. */
  const EulerApprox: Expr := Term(1, 2718281828459045235, 1000000000000000000)

  /** Number of nodes in the tree. */
  function Size(e: Expr): nat
  {
    match e
    case Term(_, _, _) => 1
    case Var(_) => 1
    case Add(l, r) => 1 + Size(l) + Size(r)
    case Sub(l, r) => 1 + Size(l) + Size(r)
    case Mul(l, r) => 1 + Size(l) + Size(r)
    case Div(l, r) => 1 + Size(l) + Size(r)
    case Pow(b, x) => 1 + Size(b) + Size(x)
    case Log(a) => 1 + Size(a)
  }

  /** Names of the variables occurring in the tree. */
  function Vars(e: Expr): set<string>
  {
    match e
    case Term(_, _, _) => {}
    case Var(x) => {x}
    case Add(l, r) => Vars(l) + Vars(r)
    case Sub(l, r) => Vars(l) + Vars(r)
    case Mul(l, r) => Vars(l) + Vars(r)
    case Div(l, r) => Vars(l) + Vars(r)
    case Pow(b, x) => Vars(b) + Vars(x)
    case Log(a) => Vars(a)
  }

  /** Every Term leaf of the tree has a non-zero denominator. */
  predicate WellFormed(e: Expr)
  {
    match e
    case Term(_, _, d) => d != 0
    case Var(_) => true
    case Add(l, r) => WellFormed(l) && WellFormed(r)
    case Sub(l, r) => WellFormed(l) && WellFormed(r)
    case Mul(l, r) => WellFormed(l) && WellFormed(r)
    case Div(l, r) => WellFormed(l) && WellFormed(r)
    case Pow(b, x) => WellFormed(b) && WellFormed(x)
    case Log(a) => WellFormed(a)
  }

  /** The tree contains no power node. */
  predicate PowFree(e: Expr)
  {
    match e
    case Term(_, _, _) => true
    case Var(_) => true
    case Add(l, r) => PowFree(l) && PowFree(r)
    case Sub(l, r) => PowFree(l) && PowFree(r)
    case Mul(l, r) => PowFree(l) && PowFree(r)
    case Div(l, r) => PowFree(l) && PowFree(r)
    case Pow(_, _) => false
    case Log(a) => PowFree(a)
  }

  // ---------------------------------------------------------------------
  // Derived builders
  // ---------------------------------------------------------------------

  /** `negate(x)`: the product of the term -1 and `x`. */
  function Negate(x: Expr): (r: Expr)
    ensures Vars(r) == Vars(x)
    ensures WellFormed(r) <==> WellFormed(x)
  {
    Mul(MinusOne, x)
  }

  /** `log(base, argument)`: the change-of-base quotient ln(argument) / ln(base). */
  function LogBase(base: Expr, argument: Expr): (r: Expr)
    ensures Vars(r) == Vars(base) + Vars(argument)
    ensures WellFormed(r) <==> WellFormed(base) && WellFormed(argument)
    ensures Size(r) == 3 + Size(base) + Size(argument)
  {
    Div(Log(argument), Log(base))
  }

  /** `log(bn, bd, an, ad)`: logarithm to base bn/bd of an/ad. */
  function LogOfRatios(baseNumerator: int, baseDenominator: int,
                       argNumerator: int, argDenominator: int): (r: Expr)
    ensures Vars(r) == {}
    ensures WellFormed(r) <==> baseDenominator != 0 && argDenominator != 0
  {
    LogBase(Term(1, baseNumerator, baseDenominator), Term(1, argNumerator, argDenominator))
  }

  // ---------------------------------------------------------------------
  // Simplifier
  // ---------------------------------------------------------------------

  /** `isZero`: a Term whose coefficient is 0, whatever its other fields. */
  predicate IsZero(e: Expr)
  {
    e.Term? && e.coefficient == 0
  }

  /** `isOne`: exactly the Term (1, 1, 1). */
  predicate IsOne(e: Expr)
  {
    e.Term? && e.coefficient == 1 && e.numerator == 1 && e.denominator == 1
  }

  /**
    A tree in which none of the simplifier's identities applies anywhere:
    the normal form of `simplify`.
  */
  predicate NoRedex(e: Expr)
  {
    match e
    case Term(_, _, _) => true
    case Var(_) => true
    case Add(l, r) => !IsZero(l) && !IsZero(r) && NoRedex(l) && NoRedex(r)
    case Sub(l, r) => !IsZero(r) && NoRedex(l) && NoRedex(r)
    case Mul(l, r) =>
      !IsZero(l) && !IsZero(r) && !IsOne(l) && !IsOne(r) && NoRedex(l) && NoRedex(r)
    case Div(l, r) => !IsZero(l) && !IsOne(r) && NoRedex(l) && NoRedex(r)
    case Pow(b, x) => !IsZero(x) && !IsOne(x) && NoRedex(b) && NoRedex(x)
    case Log(a) => NoRedex(a)
  }

  /**
    `simplify`: one bottom-up pass. Both children are simplified first, then
    the node's identity (if any) is tried on the simplified children.
  */
  function Simplify(e: Expr): (r: Expr)
    ensures NoRedex(r)
    ensures Size(r) <= Size(e)
    ensures Vars(r) <= Vars(e)
    ensures WellFormed(e) ==> WellFormed(r)
  {
    match e
    case Term(_, _, _) => e
    case Var(_) => e
    case Add(l, r) =>
      var l', r' := Simplify(l), Simplify(r);
      if IsZero(l') then r' else if IsZero(r') then l' else Add(l', r')
    case Sub(l, r) =>
      var l', r' := Simplify(l), Simplify(r);
      if IsZero(r') then l' else Sub(l', r')
    case Mul(l, r) =>
      var l', r' := Simplify(l), Simplify(r);
      if IsZero(l') || IsZero(r') then Zero
      else if IsOne(l') then r'
      else if IsOne(r') then l'
      else Mul(l', r')
    case Div(l, r) =>
      var l', r' := Simplify(l), Simplify(r);
      if IsZero(l') then Zero else if IsOne(r') then l' else Div(l', r')
    case Pow(b, x) =>
      var b', x' := Simplify(b), Simplify(x);
      if IsZero(x') then One else if IsOne(x') then b' else Pow(b', x')
    case Log(a) => Log(Simplify(a))
  }

  /** The fixed points of `simplify` are exactly the redex-free trees. */
  lemma {:induction false} SimplifyFixedPoint(e: Expr)
    ensures Simplify(e) == e <==> NoRedex(e)
  {
    match e
    case Term(_, _, _) =>
    case Var(_) =>
    case Add(l, r) =>
      if NoRedex(e) { SimplifyFixedPoint(l); SimplifyFixedPoint(r); }
    case Sub(l, r) =>
      if NoRedex(e) { SimplifyFixedPoint(l); SimplifyFixedPoint(r); }
    case Mul(l, r) =>
      if NoRedex(e) { SimplifyFixedPoint(l); SimplifyFixedPoint(r); }
    case Div(l, r) =>
      if NoRedex(e) { SimplifyFixedPoint(l); SimplifyFixedPoint(r); }
    case Pow(b, x) =>
      if NoRedex(e) { SimplifyFixedPoint(b); SimplifyFixedPoint(x); }
    case Log(a) =>
      if NoRedex(e) { SimplifyFixedPoint(a); }
  }

  /** A second pass changes nothing. */
  lemma {:induction false} SimplifyIdempotent(e: Expr)
    ensures Simplify(Simplify(e)) == Simplify(e)
  {
    SimplifyFixedPoint(Simplify(e));
  }

  /**
    The order in which the identities are tried, and what counts as zero and
    one: the zero test of Mul wins over its one test, Div by anything with a
    zero left side is zero, a zero exponent wins over a zero base, Sub never
    drops a zero left side, and only the exact Term (1, 1, 1) is "one".
  */
  lemma SimplifyRuleOrder(x: string)
    ensures Simplify(Add(Zero, Var(x))) == Var(x)
    ensures Simplify(Add(Term(0, 5, 7), Var(x))) == Var(x)
    ensures Simplify(Mul(Zero, One)) == Zero
    ensures Simplify(Mul(One, Term(0, 3, 4))) == Zero
    ensures Simplify(Div(Zero, Zero)) == Zero
    ensures Simplify(Div(Var(x), One)) == Var(x)
    ensures Simplify(Pow(Zero, Zero)) == One
    ensures Simplify(Pow(Var(x), One)) == Var(x)
    ensures Simplify(Sub(Zero, Var(x))) == Sub(Zero, Var(x))
    ensures Simplify(Mul(Term(2, 1, 2), Var(x))) == Mul(Term(2, 1, 2), Var(x))
  {
  }

  // ---------------------------------------------------------------------
  // Differentiators
  // ---------------------------------------------------------------------

  /**
    `differentiate(x)`: derivative with respect to the variable `x`. The
    power case applies the constant-exponent rule e * b^(e-1) * b' whatever
    the exponent contains.
  */
  function Differentiate(e: Expr, x: string): (r: Expr)
    ensures Vars(r) <= Vars(e)
    ensures WellFormed(e) ==> WellFormed(r)
  {
    match e
    case Term(_, _, _) => Zero
    case Var(y) => if x == y then One else Zero
    case Add(u, v) => Add(Differentiate(u, x), Differentiate(v, x))
    case Sub(u, v) => Sub(Differentiate(u, x), Differentiate(v, x))
    case Mul(u, v) => Add(Mul(Differentiate(u, x), v), Mul(u, Differentiate(v, x)))
    case Div(u, v) =>
      var n := Sub(Mul(Differentiate(u, x), v), Mul(u, Differentiate(v, x)));
      assert Vars(n) == Vars(Differentiate(u, x)) + Vars(v) + Vars(u) + Vars(Differentiate(v, x));
      assert Vars(Two) == {} && WellFormed(Two);
      assert Vars(Pow(v, Two)) == Vars(v) && (WellFormed(v) ==> WellFormed(Pow(v, Two)));
      Div(n, Pow(v, Two))
    case Pow(b, p) =>
      var f := Mul(p, Pow(b, Sub(p, One)));
      assert Vars(One) == {} && WellFormed(One);
      assert Vars(Sub(p, One)) == Vars(p) && (WellFormed(p) ==> WellFormed(Sub(p, One)));
      assert Vars(f) == Vars(p) + Vars(b) && (WellFormed(e) ==> WellFormed(f));
      Mul(f, Differentiate(b, x))
    case Log(u) => Div(Differentiate(u, x), u)
  }

  /** A tree that does not mention `x` has a derivative that simplifies to zero. */
  lemma {:induction false} DifferentiateConstant(e: Expr, x: string)
    requires x !in Vars(e)
    ensures Simplify(Differentiate(e, x)) == Zero
  {
    match e
    case Term(_, _, _) =>
    case Var(_) =>
    case Add(u, v) => DifferentiateConstant(u, x); DifferentiateConstant(v, x);
    case Sub(u, v) => DifferentiateConstant(u, x); DifferentiateConstant(v, x);
    case Mul(u, v) => DifferentiateConstant(u, x); DifferentiateConstant(v, x);
    case Div(u, v) =>
      DifferentiateConstant(u, x); DifferentiateConstant(v, x);
      assert Simplify(Mul(Differentiate(u, x), v)) == Zero;
      assert Simplify(Sub(Mul(Differentiate(u, x), v), Mul(u, Differentiate(v, x)))) == Zero;
    case Pow(b, _) => DifferentiateConstant(b, x);
    case Log(u) => DifferentiateConstant(u, x);
  }

  /**
    The power case ignores the exponent: b^p with a base free of `x`
    differentiates to zero even when `x` occurs in the exponent.
  */
  lemma PowerRuleIgnoresExponent(b: Expr, p: Expr, x: string)
    requires x !in Vars(b)
    ensures Simplify(Differentiate(Pow(b, p), x)) == Zero
  {
    DifferentiateConstant(b, x);
  }

  /** d/dn (3n + 1) simplifies to 3. */
  lemma DifferentiateLinearExample()
    ensures Simplify(Differentiate(Add(Mul(Term(3, 1, 1), Var("n")), One), "n")) == Term(3, 1, 1)
  {
  }

  /** Negation commutes with differentiation once both sides are simplified. */
  lemma DifferentiateNegate(e: Expr, x: string)
    ensures Simplify(Differentiate(Negate(e), x)) == Simplify(Negate(Differentiate(e, x)))
  {
    var d := Differentiate(e, x);
    assert Differentiate(Negate(e), x) == Add(Mul(Zero, e), Mul(MinusOne, d));
    assert Simplify(Mul(Zero, e)) == Zero;
  }

  /**
    `symbolicGrad(inputVar)`: derivative with respect to an arbitrary tree.
    A Term counts as the variable when it equals `inputVar`; a Var counts
    when `inputVar` is a Var of the same name. Powers use the general rule
    f^g * (g' * ln f + g * f' / f) with the power node itself as left factor.
  */
  function SymbolicGrad(e: Expr, inputVar: Expr): (r: Expr)
    ensures Vars(r) <= Vars(e)
    ensures WellFormed(e) ==> WellFormed(r)
  {
    match e
    case Term(_, _, _) => if Equals(e, inputVar) then One else Zero
    case Var(y) => if inputVar.Var? && y == inputVar.name then One else Zero
    case Add(l, r) => Add(SymbolicGrad(l, inputVar), SymbolicGrad(r, inputVar))
    case Sub(l, r) => Sub(SymbolicGrad(l, inputVar), SymbolicGrad(r, inputVar))
    case Mul(l, r) =>
      Add(Mul(SymbolicGrad(l, inputVar), r), Mul(l, SymbolicGrad(r, inputVar)))
    case Div(l, r) =>
      var n := Sub(Mul(SymbolicGrad(l, inputVar), r), Mul(l, SymbolicGrad(r, inputVar)));
      assert Vars(n) == Vars(SymbolicGrad(l, inputVar)) + Vars(r) + Vars(l) + Vars(SymbolicGrad(r, inputVar));
      assert Vars(Two) == {} && WellFormed(Two);
      assert Vars(Pow(r, Two)) == Vars(r) && (WellFormed(r) ==> WellFormed(Pow(r, Two)));
      assert WellFormed(e) ==>
        WellFormed(Mul(SymbolicGrad(l, inputVar), r)) && WellFormed(Mul(l, SymbolicGrad(r, inputVar)));
      Div(n, Pow(r, Two))
    case Pow(f, g) =>
      var t1 := Mul(SymbolicGrad(g, inputVar), Log(f));
      var t2 := Mul(g, Div(SymbolicGrad(f, inputVar), f));
      assert Vars(t1) <= Vars(e) && Vars(t2) <= Vars(e);
      assert WellFormed(e) ==> WellFormed(t1) && WellFormed(t2);
      Mul(e, Add(t1, t2))
    case Log(a) => Div(SymbolicGrad(a, inputVar), a)
  }

  /**
    A Term leaf's gradient is one exactly when the leaf is `inputVar`
    itself; a Var leaf's gradient is one exactly when `inputVar` is that
    same variable.
  */
  lemma {:induction false} SymbolicGradLeaves(c: int, n: int, d: int, y: string, inputVar: Expr)
    ensures SymbolicGrad(Term(c, n, d), inputVar) == (if inputVar == Term(c, n, d) then One else Zero)
    ensures SymbolicGrad(Var(y), inputVar) == (if inputVar == Var(y) then One else Zero)
  {
    EqualsIsStructural(Term(c, n, d), inputVar);
  }

  /**
    Differentiating with respect to a Term treats every equal Term leaf as
    the variable: d(3 * 5)/d5 simplifies to 3.
  */
  lemma SymbolicGradByTermExample()
    ensures Simplify(SymbolicGrad(Mul(Term(3, 1, 1), Term(5, 1, 1)), Term(5, 1, 1))) == Term(3, 1, 1)
  {
    EqualsIsStructural(Term(3, 1, 1), Term(5, 1, 1));
    EqualsIsStructural(Term(5, 1, 1), Term(5, 1, 1));
  }

  /**
    The simplifier only removes zero and one identities, so the gradient of
    (x^2 + 3x + 2) / (x + 1), although it equals one as a function, does not
    simplify to the term one.
  */
  lemma RationalGradientIsNotOne()
    ensures Simplify(SymbolicGrad(Div(Add(Add(Pow(Var("x"), Two), Mul(Term(3, 1, 1), Var("x"))), Two),
                                      Add(Var("x"), One)), Var("x"))) != One
  {
  }

  // ---------------------------------------------------------------------
  // Structural equality
  // ---------------------------------------------------------------------

  /**
    `equals`: same operation, and then the three Term fields, the variable
    name, or the children pairwise.
  */
  function Equals(a: Expr, b: Expr): bool
  {
    match (a, b)
    case (Term(c1, n1, d1), Term(c2, n2, d2)) => c1 == c2 && n1 == n2 && d1 == d2
    case (Var(x1), Var(x2)) => x1 == x2
    case (Add(l1, r1), Add(l2, r2)) => Equals(l1, l2) && Equals(r1, r2)
    case (Sub(l1, r1), Sub(l2, r2)) => Equals(l1, l2) && Equals(r1, r2)
    case (Mul(l1, r1), Mul(l2, r2)) => Equals(l1, l2) && Equals(r1, r2)
    case (Div(l1, r1), Div(l2, r2)) => Equals(l1, l2) && Equals(r1, r2)
    case (Pow(l1, r1), Pow(l2, r2)) => Equals(l1, l2) && Equals(r1, r2)
    case (Log(a1), Log(a2)) => Equals(a1, a2)
    case _ => false
  }

  /** `equals` is exactly equality of trees. */
  lemma {:induction false} EqualsIsStructural(a: Expr, b: Expr)
    ensures Equals(a, b) <==> a == b
  {
    match (a, b)
    case (Add(l1, r1), Add(l2, r2)) => EqualsIsStructural(l1, l2); EqualsIsStructural(r1, r2);
    case (Sub(l1, r1), Sub(l2, r2)) => EqualsIsStructural(l1, l2); EqualsIsStructural(r1, r2);
    case (Mul(l1, r1), Mul(l2, r2)) => EqualsIsStructural(l1, l2); EqualsIsStructural(r1, r2);
    case (Div(l1, r1), Div(l2, r2)) => EqualsIsStructural(l1, l2); EqualsIsStructural(r1, r2);
    case (Pow(l1, r1), Pow(l2, r2)) => EqualsIsStructural(l1, l2); EqualsIsStructural(r1, r2);
    case (Log(a1), Log(a2)) => EqualsIsStructural(a1, a2);
    case _ =>
  }

  /** `equals` is reflexive, symmetric and transitive. */
  lemma EqualsIsEquivalence(a: Expr, b: Expr, c: Expr)
    ensures Equals(a, a)
    ensures Equals(a, b) ==> Equals(b, a)
    ensures Equals(a, b) && Equals(b, c) ==> Equals(a, c)
  {
    EqualsIsStructural(a, a);
    EqualsIsStructural(a, b);
    EqualsIsStructural(b, a);
    EqualsIsStructural(b, c);
    EqualsIsStructural(a, c);
  }

  /** Numerically equal but differently built trees are not equal. */
  lemma EqualsIsSyntactic()
    ensures !Equals(Add(One, One), Two)
    ensures !Equals(Term(2, 1, 2), One)
  {
  }

  // ---------------------------------------------------------------------
  // Serialization
  // ---------------------------------------------------------------------

  /** The name `Operation.toString()` gives the node's kind. */
  function OpName(e: Expr): string
  {
    match e
    case Term(_, _, _) => "TERM"
    case Var(_) => "VARIABLE"
    case Add(_, _) => "ADD"
    case Sub(_, _) => "SUBTRACT"
    case Mul(_, _) => "MULTIPLY"
    case Div(_, _) => "DIVIDE"
    case Pow(_, _) => "POWER"
    case Log(_) => "LOG"
  }

  /** Children of the node, in order. */
  function Children(e: Expr): seq<Expr>
  {
    match e
    case Term(_, _, _) => []
    case Var(_) => []
    case Add(l, r) => [l, r]
    case Sub(l, r) => [l, r]
    case Mul(l, r) => [l, r]
    case Div(l, r) => [l, r]
    case Pow(b, x) => [b, x]
    case Log(a) => [a]
  }

  function OperatorNode(op: string, args: seq<Json>): Json
  {
    JObject(map["op" := JString(op), "args" := JArray(args)])
  }

  /**
    `toJson`: every node carries its kind under "op"; a Term carries its
    three integers as decimal strings, a Var its name, and every operator
    node its children's documents under "args", in order.
  */
  function ToJson(e: Expr): (j: Json)
    ensures j.JObject? && "op" in j.fields && j.fields["op"] == JString(OpName(e))
    ensures !e.Term? && !e.Var? ==>
              "args" in j.fields && j.fields["args"].JArray?
              && |j.fields["args"].items| == |Children(e)|
  {
    match e
    case Term(c, n, d) =>
      JObject(map["op" := JString("TERM"),
                  "coefficient" := JString(Decimal.IntToDecimal(c)),
                  "numerator" := JString(Decimal.IntToDecimal(n)),
                  "denominator" := JString(Decimal.IntToDecimal(d))])
    case Var(x) => JObject(map["op" := JString("VARIABLE"), "name" := JString(x)])
    case Add(l, r) => OperatorNode("ADD", [ToJson(l), ToJson(r)])
    case Sub(l, r) => OperatorNode("SUBTRACT", [ToJson(l), ToJson(r)])
    case Mul(l, r) => OperatorNode("MULTIPLY", [ToJson(l), ToJson(r)])
    case Div(l, r) => OperatorNode("DIVIDE", [ToJson(l), ToJson(r)])
    case Pow(b, x) => OperatorNode("POWER", [ToJson(b), ToJson(x)])
    case Log(a) => OperatorNode("LOG", [ToJson(a)])
  }

  /** The decimal integer stored as a string under `key`. */
  function IntField(fields: map<string, Json>, key: string): Option<int>
  {
    if key in fields && fields[key].JString? then Decimal.ParseDecimal(fields[key].str) else None
  }

  /** Rebuilds a tree from a document of the shape `toJson` produces. */
  function FromJson(j: Json): Option<Expr>
  {
    match j
    case JObject(fields) =>
      if "op" !in fields || !fields["op"].JString? then None
      else
        var op := fields["op"].str;
        if op == "TERM" then
          var c :- IntField(fields, "coefficient");
          var n :- IntField(fields, "numerator");
          var d :- IntField(fields, "denominator");
          Some(Term(c, n, d))
        else if op == "VARIABLE" then
          if "name" in fields && fields["name"].JString? then Some(Var(fields["name"].str)) else None
        else if "args" !in fields || !fields["args"].JArray? then None
        else
          var args := fields["args"].items;
          (
            if op == "LOG" then
              if |args| != 1 then None
              else
                var a :- FromJson(args[0]);
                Some(Log(a))
            else if |args| != 2 then None
            else
              var l :- FromJson(args[0]);
              var r :- FromJson(args[1]);
              BinaryNode(op, l, r))
    case _ => None
  }

  /** The binary node a kind name stands for, if any. */
  function BinaryNode(op: string, l: Expr, r: Expr): Option<Expr>
  {
    if op == "ADD" then Some(Add(l, r))
    else if op == "SUBTRACT" then Some(Sub(l, r))
    else if op == "MULTIPLY" then Some(Mul(l, r))
    else if op == "DIVIDE" then Some(Div(l, r))
    else if op == "POWER" then Some(Pow(l, r))
    else None
  }

  lemma JsonRoundTripTerm(c: int, n: int, d: int)
    ensures FromJson(ToJson(Term(c, n, d))) == Some(Term(c, n, d))
  {
    Decimal.DecimalRoundTrip(c);
    Decimal.DecimalRoundTrip(n);
    Decimal.DecimalRoundTrip(d);
  }

  lemma JsonRoundTripBinary(e: Expr)
    requires |Children(e)| == 2
    requires FromJson(ToJson(Children(e)[0])) == Some(Children(e)[0])
    requires FromJson(ToJson(Children(e)[1])) == Some(Children(e)[1])
    ensures FromJson(ToJson(e)) == Some(e)
  {
    var l, r := Children(e)[0], Children(e)[1];
    assert ToJson(e) == OperatorNode(OpName(e), [ToJson(l), ToJson(r)]);
    assert BinaryNode(OpName(e), l, r) == Some(e);
    FromOperatorNode(OpName(e), ToJson(l), ToJson(r), l, r);
  }

  lemma FromOperatorNode(op: string, jl: Json, jr: Json, l: Expr, r: Expr)
    requires op != "TERM" && op != "VARIABLE" && op != "LOG"
    requires FromJson(jl) == Some(l) && FromJson(jr) == Some(r)
    ensures FromJson(OperatorNode(op, [jl, jr])) == BinaryNode(op, l, r)
  {
    var fields := map["op" := JString(op), "args" := JArray([jl, jr])];
    assert fields["op"].str == op && fields["args"].items == [jl, jr];
  }

  /** Reading a document back gives the tree it was made from. */
  lemma {:induction false} JsonRoundTrip(e: Expr)
    ensures FromJson(ToJson(e)) == Some(e)
  {
    match e
    case Term(c, n, d) => JsonRoundTripTerm(c, n, d);
    case Var(_) =>
    case Add(l, r) => JsonRoundTrip(l); JsonRoundTrip(r); JsonRoundTripBinary(e);
    case Sub(l, r) => JsonRoundTrip(l); JsonRoundTrip(r); JsonRoundTripBinary(e);
    case Mul(l, r) => JsonRoundTrip(l); JsonRoundTrip(r); JsonRoundTripBinary(e);
    case Div(l, r) => JsonRoundTrip(l); JsonRoundTrip(r); JsonRoundTripBinary(e);
    case Pow(b, x) => JsonRoundTrip(b); JsonRoundTrip(x); JsonRoundTripBinary(e);
    case Log(a) => JsonRoundTrip(a);
  }

  /** Distinct trees give distinct documents. */
  lemma ToJsonInjective(a: Expr, b: Expr)
    ensures ToJson(a) == ToJson(b) <==> a == b
  {
    JsonRoundTrip(a);
    JsonRoundTrip(b);
  }
}
