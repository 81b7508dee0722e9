/**
  `ArbitraryNumber`: an exact rational kept as a list of terms c * a / b whose
  sum is the number. Addition concatenates term lists, multiplication forms
  every pairwise product, and division is only by a single term. The value
  of a number is stated as a `real`, so the arithmetic laws can be proved.
*/
module ArbitraryNumber {
  import opened Wrappers
  import RowMajor

  /** A term c * a / b: scalar c, numerator a, denominator b. */
  datatype Term = Term(c: int, a: int, b: int)

  /** A term the constructor accepts: its denominator is not zero. */
  type ValidTerm = t: Term | t.b != 0 witness Term(0, 0, 1)

  /** A number: the sum of its terms, in insertion order. */
  type Number = seq<ValidTerm>

  /** The exceptions the Java class throws. */
  datatype Error =
    | ZeroDenominator      // the Term constructor was given b == 0
    | EmptyDivisor         // division by a number with no terms
    | MultiTermDivisor     // division by a number with more than one term
    | ZeroValuedDivisor    // division by a term whose numerator a is zero
    | ZeroTermDenominator  // a quotient term came out with denominator zero

  /** 64-bit signed integers, the argument type of the `long` overloads. */
  newtype Long = x: int | -0x8000_0000_0000_0000 <= x < 0x8000_0000_0000_0000

  // ---------------------------------------------------------------------
  // Terms
  // ---------------------------------------------------------------------

  /** The `Term(c, a, b)` constructor: rejects a zero denominator, keeps the fields otherwise. */
  function NewTerm(c: int, a: int, b: int): (r: Result<ValidTerm, Error>)
    ensures r.Success? <==> b != 0
    ensures r.Success? ==> r.value.c == c && r.value.a == a && r.value.b == b
    ensures r.Failure? ==> r.error == ZeroDenominator
  {
    if b == 0 then Failure(ZeroDenominator) else Success(Term(c, a, b))
  }

  /** The `long` overload widens its arguments and behaves as the constructor above. */
  function NewTermFromLongs(c: Long, a: Long, b: Long): (r: Result<ValidTerm, Error>)
    ensures r.Success? <==> b != 0
    ensures r.Success? ==> r.value == Term(c as int, a as int, b as int)
    ensures r.Failure? ==> r.error == ZeroDenominator
  {
    NewTerm(c as int, a as int, b as int)
  }

  /** `evaluateNumerator()`: c * a. */
  function EvaluateNumerator(t: ValidTerm): int
  {
    t.c * t.a
  }

  /** `evaluateDenominator()`: b, never zero. */
  function EvaluateDenominator(t: ValidTerm): (d: int)
    ensures d != 0
  {
    t.b
  }

  /** The exact value of a term. */
  function TermValue(t: ValidTerm): real
  {
    EvaluateNumerator(t) as real / EvaluateDenominator(t) as real
  }

  /**
    Real multiplication under a name of its own: the solver matches two
    applications with equal arguments, which it does not reliably do for
    products, so every product of values below is written with it.
  */
  function Times(x: real, y: real): real
  {
    x * y
  }

  /** Multiplication distributes over a sum v = x + y, on either side. */
  lemma Distribute(v: real, x: real, y: real, z: real)
    requires v == x + y
    ensures Times(v, z) == Times(x, z) + Times(y, z)
    ensures Times(z, v) == Times(z, x) + Times(z, y)
  {
  }

  /** A term is zero exactly when its scalar or its numerator is zero. */
  lemma TermValueZero(t: ValidTerm)
    ensures TermValue(t) == 0.0 <==> t.c == 0 || t.a == 0
  {
    var n := EvaluateNumerator(t);
    if TermValue(t) == 0.0 {
      assert n as real == TermValue(t) * t.b as real;
    }
  }

  /** The product of two terms, fieldwise. */
  function TermProduct(t1: ValidTerm, t2: ValidTerm): Term
  {
    Term(t1.c * t2.c, t1.a * t2.a, t1.b * t2.b)
  }

  /** A product term has a non-zero denominator and the product value. */
  lemma TermProductValue(t1: ValidTerm, t2: ValidTerm)
    ensures TermProduct(t1, t2).b != 0
    ensures TermValue(TermProduct(t1, t2)) == Times(TermValue(t1), TermValue(t2))
  {
    var p: ValidTerm := TermProduct(t1, t2);
    var n1, n2 := (t1.c * t1.a) as real, (t2.c * t2.a) as real;
    var d1, d2 := t1.b as real, t2.b as real;
    assert EvaluateNumerator(p) == (t1.c * t1.a) * (t2.c * t2.a);
    assert EvaluateNumerator(p) as real == n1 * n2;
    assert EvaluateDenominator(p) as real == d1 * d2;
    assert TermValue(p) == (n1 * n2) / (d1 * d2);
  }

  /** The quotient term of t by d, as `divideBy` builds it. */
  function TermQuotient(t: ValidTerm, d: ValidTerm): Term
  {
    Term(1, t.c * t.a * d.b, t.b * d.c * d.a)
  }

  /** A quotient term by a non-zero term has the quotient value. */
  lemma TermQuotientValue(t: ValidTerm, d: ValidTerm)
    requires d.c != 0 && d.a != 0
    ensures TermQuotient(t, d).b != 0
    ensures TermValue(TermQuotient(t, d)) == TermValue(t) / TermValue(d)
  {
    var q: ValidTerm := TermQuotient(t, d);
    var n, dn := (t.c * t.a) as real, (d.c * d.a) as real;
    var b, db := t.b as real, d.b as real;
    TermValueZero(d);
    assert EvaluateNumerator(q) as real == n * db;
    assert EvaluateDenominator(q) as real == b * dn;
    assert TermValue(q) == (n * db) / (b * dn);
  }

  // ---------------------------------------------------------------------
  // Numbers
  // ---------------------------------------------------------------------

  /** The exact value of a number: the sum of its terms' values. */
  function Value(n: Number): real
  {
    if |n| == 0 then 0.0 else TermValue(n[0]) + Value(n[1..])
  }

  lemma {:induction false} ValueAppend(x: Number, y: Number)
    ensures Value(x + y) == Value(x) + Value(y)
  {
    if |x| > 0 {
      assert (x + y)[0] == x[0];
      assert (x + y)[1..] == x[1..] + y;
      ValueAppend(x[1..], y);
    } else {
      assert x + y == y;
    }
  }

  /** `addTerm(term)`: appends exactly one term at the end. */
  function AddTerm(n: Number, t: ValidTerm): (r: Number)
    ensures |r| == |n| + 1 && r[..|n|] == n && r[|n|] == t
    ensures Value(r) == Value(n) + TermValue(t)
  {
    ValueAppend(n, [t]);
    n + [t]
  }

  /** `addTerm(c, a, b)`: constructs the term first, so a zero denominator fails. */
  function AddTermParts(n: Number, c: int, a: int, b: int): (r: Result<Number, Error>)
    ensures r.Success? <==> b != 0
    ensures r.Failure? ==> r.error == ZeroDenominator
    ensures r.Success? ==> |r.value| == |n| + 1 && r.value[..|n|] == n
                           && r.value[|n|] == Term(c, a, b)
  {
    var t :- NewTerm(c, a, b);
    Success(AddTerm(n, t))
  }

  /** `add`: this number's terms followed by the other's. */
  function Add(x: Number, y: Number): (r: Number)
    ensures |r| == |x| + |y| && r[..|x|] == x && r[|x|..] == y
    ensures Value(r) == Value(x) + Value(y)
  {
    ValueAppend(x, y);
    x + y
  }

  /**
    One row of `multiply`: t times each term of `ys`. Each product term goes
    through the constructor, whose zero-denominator check always passes.
  */
  function MultiplyRow(t: ValidTerm, ys: Number): (r: Number)
    ensures |r| == |ys|
    ensures forall j :: 0 <= j < |ys| ==> r[j] == TermProduct(t, ys[j])
    ensures Value(r) == Times(TermValue(t), Value(ys))
  {
    if |ys| == 0 then []
    else
      TermProductValue(t, ys[0]);
      var p := TermProduct(t, ys[0]);
      var head := NewTerm(p.c, p.a, p.b).value;
      var rest := MultiplyRow(t, ys[1..]);
      assert ([head] + rest)[1..] == rest;
      [head] + rest
  }

  /**
    `multiply`: every product of a term of `xs` with a term of `ys`, in
    row-major order, so its value is the product of the values. It never
    throws: a product of non-zero denominators is non-zero.
  */
  function Multiply(xs: Number, ys: Number): (r: Number)
    ensures |r| == |xs| * |ys|
    ensures Value(r) == Times(Value(xs), Value(ys))
  {
    if |xs| == 0 then []
    else
      var row := MultiplyRow(xs[0], ys);
      var rest := Multiply(xs[1..], ys);
      RowMajor.RowsLength(|xs|, |ys|);
      MultiplyValueStep(xs, ys, row, rest);
      row + rest
  }

  /**
    The product term of xs[i] and ys[j] sits at offset i * |ys| + j of
    `Multiply(xs, ys)`: the products are laid out row by row.
  */
  lemma {:induction false} MultiplyCells(xs: Number, ys: Number)
    ensures forall i, j :: 0 <= i < |xs| && 0 <= j < |ys| ==>
              RowMajor.Offset(i, j, |ys|) < |Multiply(xs, ys)|
              && Multiply(xs, ys)[RowMajor.Offset(i, j, |ys|)] == TermProduct(xs[i], ys[j])
  {
    if |xs| > 0 {
      var row, rest := MultiplyRow(xs[0], ys), Multiply(xs[1..], ys);
      MultiplyCells(xs[1..], ys);
      assert Multiply(xs, ys) == row + rest;
      RowMajor.RowMajorIndex(xs, ys, TermProduct, row, rest);
    }
  }

  /** The value step of `Multiply`: the first row plus the remaining rows. */
  lemma {:induction false} MultiplyValueStep(xs: Number, ys: Number, row: Number, rest: Number)
    requires |xs| > 0
    requires Value(row) == Times(TermValue(xs[0]), Value(ys))
    requires Value(rest) == Times(Value(xs[1..]), Value(ys))
    ensures Value(row + rest) == Times(Value(xs), Value(ys))
  {
    ValueAppend(row, rest);
    Distribute(Value(xs), TermValue(xs[0]), Value(xs[1..]), Value(ys));
  }

  /** The loop of `divideBy` over the dividend's terms, after the divisor checks. */
  function DivideTerms(xs: Number, d: ValidTerm): (r: Result<Number, Error>)
    requires d.a != 0
    ensures r.Success? <==> |xs| == 0 || d.c != 0
    ensures r.Failure? ==> r.error == ZeroTermDenominator
    ensures r.Success? ==> |r.value| == |xs|
    ensures r.Success? ==> forall i :: 0 <= i < |xs| ==> r.value[i] == TermQuotient(xs[i], d)
    ensures r.Success? && d.c != 0 ==> Value(r.value) == Value(xs) / TermValue(d)
  {
    if |xs| == 0 then Success([])
    else
      var t := xs[0];
      var q := TermQuotient(t, d);
      if q.b == 0 then Failure(ZeroTermDenominator)
      else
        var head := NewTerm(q.c, q.a, q.b).value;
        var rest := DivideTerms(xs[1..], d).value;
        assert ([head] + rest)[1..] == rest;
        DivideTermsValue(t, d, head, xs[1..], rest);
        Success([head] + rest)
  }

  /** The value step of `DivideTerms`: dividing a sum divides each summand. */
  lemma DivideTermsValue(t: ValidTerm, d: ValidTerm, head: ValidTerm, xs: Number, rest: Number)
    requires d.c != 0 && d.a != 0
    requires head == TermQuotient(t, d)
    requires Value(rest) == Value(xs) / TermValue(d)
    ensures Value([head] + rest) == Value([t] + xs) / TermValue(d)
  {
    TermQuotientValue(t, d);
    TermValueZero(d);
    assert ([head] + rest)[1..] == rest;
    assert ([t] + xs)[1..] == xs;
    DivideSum(TermValue(t), Value(xs), TermValue(d));
  }

  lemma DivideSum(x: real, y: real, d: real)
    requires d != 0.0
    ensures (x + y) / d == x / d + y / d
  {
  }

  /**
    `divideBy`, as written: rejects an empty divisor, a divisor of several
    terms and a divisor term with a == 0, then divides term by term. A
    divisor term with c == 0 is only caught while dividing a term, so it
    goes unnoticed when the dividend has no terms.
  */
  function DivideBy(xs: Number, ys: Number): (r: Result<Number, Error>)
    ensures r.Failure? <==> |ys| != 1 || ys[0].a == 0 || (ys[0].c == 0 && |xs| > 0)
    ensures |ys| == 0 ==> r == Failure(EmptyDivisor)
    ensures |ys| > 1 ==> r == Failure(MultiTermDivisor)
    ensures |ys| == 1 && ys[0].a == 0 ==> r == Failure(ZeroValuedDivisor)
    ensures |ys| == 1 && ys[0].a != 0 && ys[0].c == 0 && |xs| > 0 ==> r == Failure(ZeroTermDenominator)
    ensures r.Success? ==> |r.value| == |xs|
                           && forall i :: 0 <= i < |xs| ==> r.value[i] == TermQuotient(xs[i], ys[0])
    ensures r.Success? && |xs| > 0 ==> Value(r.value) == Value(xs) / Value(ys)
  {
    if |ys| == 0 then Failure(EmptyDivisor)
    else if |ys| != 1 then Failure(MultiTermDivisor)
    else if ys[0].a == 0 then Failure(ZeroValuedDivisor)
    else
      assert Value(ys) == TermValue(ys[0]);
      DivideTerms(xs, ys[0])
  }

  /** The empty number divided by the zero term (0, 1, 1) succeeds with the empty number. */
  lemma DivideByAcceptsZeroDivisor()
    ensures Value([Term(0, 1, 1)]) == 0.0
    ensures DivideBy([], [Term(0, 1, 1)]) == Success([])
  {
  }

  /**
    `divideBy` with the zero-value check the error message describes: any
    divisor term whose value is zero (c == 0 or a == 0) is rejected up front,
    so every success carries the exact quotient.
  */
  function DivideByChecked(xs: Number, ys: Number): (r: Result<Number, Error>)
    ensures r.Failure? <==> |ys| != 1 || Value(ys) == 0.0
    ensures |ys| == 0 ==> r == Failure(EmptyDivisor)
    ensures |ys| > 1 ==> r == Failure(MultiTermDivisor)
    ensures |ys| == 1 && Value(ys) == 0.0 ==> r == Failure(ZeroValuedDivisor)
    ensures r.Success? ==> |r.value| == |xs|
                           && forall i :: 0 <= i < |xs| ==> r.value[i] == TermQuotient(xs[i], ys[0])
    ensures r.Success? ==> Value(ys) != 0.0 && Value(r.value) == Value(xs) / Value(ys)
  {
    if |ys| == 0 then Failure(EmptyDivisor)
    else if |ys| != 1 then Failure(MultiTermDivisor)
    else
      assert Value(ys) == TermValue(ys[0]);
      TermValueZero(ys[0]);
      if ys[0].c == 0 || ys[0].a == 0 then Failure(ZeroValuedDivisor)
      else DivideTerms(xs, ys[0])
  }
}
