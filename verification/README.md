# arbitrary-number: symbolic expressions and exact term lists, in Dafny

This project models the core of the `arbitrary_number` Java library:

- `SymbolicExpression` is an immutable expression tree with these parts:
  - Leaves are exact rational terms c · n / d or named variables.
  - Nodes are add, subtract, multiply, divide, power and log.
  - Operations: a one-pass simplifier, two differentiators, structural equality and JSON serialization.
- `SymbolicGradient.computeGradient` is a third differentiator. It uses the general power rule.
- `ArbitraryNumberV2` is the same tree without a variable leaf.
  - It is related to `SymbolicExpression` through an embedding `Embed`.
  - Its `simplify` always fails (see Findings).
- `ArbitraryNumber` is an exact rational held as a list of terms c · a / b, which sum to the number.
  - The operations are the term constructor, `addTerm`, `add`, `multiply` and `divideBy`.
  - The value of a number is stated as a Dafny `real`, so the arithmetic laws are proved exactly.
- The computation-graph nodes are `VariableNode`, `ConstantNode`, `AddNode`, `MultiplyNode` and `SigmoidNode`. Each builds a `forward` expression and a `backward` derivative expression.

How the Java is represented:

- Java's `BigInteger` is Dafny's unbounded `int`.
- The `long` overload of the term constructor takes a 64-bit `Long` newtype.
- Exceptions become `Result` failures. Each failure names the exception's cause.
- Mutable Java objects become values:
  - `addTerm` returns the extended term list.
  - Tree builders return new trees.

Files:

| file | module | models |
|---|---|---|
| `wrappers.dfy` | `Wrappers` | `Option` and `Result` |
| `decimal.dfy` | `Decimal` | `BigInteger.toString()` and its inverse |
| `json.dfy` | `Json` | the JSON documents `toJson` builds |
| `symbolic_expression.dfy` | `SymbolicExpression` | `SymbolicExpression.java` |
| `symbolic_gradient.dfy` | `SymbolicGradient` | `SymbolicGradient.java` |
| `arbitrary_number_v2.dfy` | `ArbitraryNumberV2` | `ArbitraryNumberV2.java` |
| `row_major.dfy` | `RowMajor` | the index arithmetic of a nested loop |
| `arbitrary_number.dfy` | `ArbitraryNumber` | `ArbitraryNumber.java` |
| `symbolic_nodes.dfy` | `SymbolicNodes` | the five node classes |

Where the code and its documentation disagree, the model follows the code:

- `SymbolicExpression.term` stores a zero denominator without complaint. Among the modelled classes, only `ArbitraryNumber.Term` rejects one (the term node of `ArbitraryNumberV2Alpha`, which is left out, does too). `WellFormed` states the non-zero-denominator condition separately. `Negate`, `LogBase`, `Simplify`, `Differentiate`, `SymbolicGrad`, `ComputeGradient`, `Forward` and `Backward` are each shown to keep it.
- `SymbolicGradient.computeGradient` is declared over `ArbitraryNumberV2`, yet it has a `VARIABLE` case, which that enum lacks. Its test calls it with a `SymbolicExpression`. It is therefore modelled over `SymbolicExpression` trees.

`SymbolicExpression.FromJson` is a reader that exists only in the model. It is defined so that the round trip `FromJson(ToJson(e)) == Some(e)` can be stated. That round trip is what makes `toJson` injective.

## Model

| member | source | states |
|---|---|---|
| `SymbolicExpression.Negate` | src/main/java/com/github/arbitrary_number/SymbolicExpression.java:77-82 | the negation has exactly the variables of its operand and is well formed exactly when the operand is |
| `SymbolicExpression.LogBase` | src/main/java/com/github/arbitrary_number/SymbolicExpression.java:85-90 | log(base, argument) mentions exactly the variables of both inputs, is well formed exactly when both are, and adds three nodes |
| `SymbolicExpression.LogOfRatios` | src/main/java/com/github/arbitrary_number/SymbolicExpression.java:93-98 | the four-integer log has no variables and is well formed exactly when both denominators are non-zero |
| `SymbolicExpression.Simplify` | src/main/java/com/github/arbitrary_number/SymbolicExpression.java:138-197 | the result has no redex left, never has more nodes, never gains a variable, and keeps well-formedness |
| `SymbolicExpression.SimplifyFixedPoint` | src/main/java/com/github/arbitrary_number/SymbolicExpression.java:138-188 | simplify leaves a tree unchanged if and only if the tree has no redex |
| `SymbolicExpression.SimplifyIdempotent` | src/main/java/com/github/arbitrary_number/SymbolicExpression.java:138-188 | a second simplify pass changes nothing |
| `SymbolicExpression.SimplifyRuleOrder` | src/main/java/com/github/arbitrary_number/SymbolicExpression.java:153-197 | rule order and tests: a multiply's zero test wins over its one test; 0/0 is zero; x^0 is one even for a zero base; a zero left side of a subtraction is kept; "zero" is any zero coefficient; "one" is only the term (1,1,1) |
| `SymbolicExpression.Differentiate` | src/main/java/com/github/arbitrary_number/SymbolicExpression.java:200-257 | the derivative introduces no new variable and keeps well-formedness |
| `SymbolicExpression.DifferentiateConstant` | src/main/java/com/github/arbitrary_number/SymbolicExpression.java:200-257 | a tree not mentioning x has a derivative by x that simplifies to the zero term |
| `SymbolicExpression.PowerRuleIgnoresExponent` | src/main/java/com/github/arbitrary_number/SymbolicExpression.java:239-250 | b^p with x absent from b differentiates to zero, even when x occurs in p |
| `SymbolicExpression.DifferentiateLinearExample` | src/test/java/com/github/arbitrary_number/CollatzTest2.java:66-84 | d/dn (3n + 1) simplifies to the term 3 |
| `SymbolicExpression.DifferentiateNegate` | src/main/java/com/github/arbitrary_number/SymbolicExpression.java:218-226 | after simplifying, differentiating a negation equals negating the derivative |
| `SymbolicExpression.SymbolicGrad` | src/main/java/com/github/arbitrary_number/SymbolicExpression.java:259-321 | the gradient introduces no new variable and keeps well-formedness |
| `SymbolicExpression.SymbolicGradLeaves` | src/main/java/com/github/arbitrary_number/SymbolicExpression.java:261-275 | a term leaf's gradient is one exactly when the leaf equals inputVar; a variable leaf's is one exactly when inputVar is that same variable; otherwise zero |
| `SymbolicExpression.SymbolicGradByTermExample` | src/main/java/com/github/arbitrary_number/SymbolicExpression.java:261-288 | taking the gradient by a term treats equal term leaves as the variable: d(3·5)/d5 simplifies to 3 |
| `SymbolicExpression.RationalGradientIsNotOne` | src/test/java/com/github/arbitrary_number/SymbolicExpressionTest.java:14-40 | the gradient of (x^2 + 3x + 2) / (x + 1) by x does not simplify to the term one, since the simplifier only removes zero and one identities |
| `SymbolicExpression.EqualsIsStructural` | src/main/java/com/github/arbitrary_number/SymbolicExpression.java:323-346 | equals holds if and only if the two trees are identical |
| `SymbolicExpression.EqualsIsEquivalence` | src/main/java/com/github/arbitrary_number/SymbolicExpression.java:323-346 | equals is reflexive, symmetric and transitive |
| `SymbolicExpression.EqualsIsSyntactic` | src/main/java/com/github/arbitrary_number/SymbolicExpression.java:333-336 | numerically equal trees can differ: 1+1 is not 2, and 2·(1/2) is not 1 |
| `SymbolicExpression.ToJson` | src/main/java/com/github/arbitrary_number/SymbolicExpression.java:350-374 | the document is an object whose "op" is the node's kind; operator nodes carry one "args" entry per child |
| `SymbolicExpression.JsonRoundTrip` | src/main/java/com/github/arbitrary_number/SymbolicExpression.java:350-374 | reading a document back gives the tree it was made from |
| `SymbolicExpression.ToJsonInjective` | src/main/java/com/github/arbitrary_number/SymbolicExpression.java:350-374 | two trees give the same document if and only if they are equal |
| `Decimal.IntToDecimal` | src/main/java/com/github/arbitrary_number/SymbolicExpression.java:357-359 | the decimal string is non-empty, starts with '-' exactly for negative numbers, and is digits after the first character |
| `Decimal.DecimalRoundTrip` | src/main/java/com/github/arbitrary_number/SymbolicExpression.java:357-359 | parsing a rendered integer gives the integer back |
| `Decimal.IntToDecimalInjective` | src/main/java/com/github/arbitrary_number/SymbolicExpression.java:357-359 | two integers render alike if and only if they are equal |
| `SymbolicGradient.ComputeGradient` | src/main/java/com/github/arbitrary_number/SymbolicGradient.java:6-88 | the gradient introduces no new variable and keeps well-formedness |
| `SymbolicGradient.ComputeGradientIsSymbolicGrad` | src/main/java/com/github/arbitrary_number/SymbolicGradient.java:6-88 | computeGradient(e, v) is the same tree as e.symbolicGrad(variable(v)), for every tree |
| `SymbolicGradient.ComputeGradientIsDifferentiateWithoutPow` | src/main/java/com/github/arbitrary_number/SymbolicGradient.java:6-88 | on trees without a power node, computeGradient gives the same tree as differentiate |
| `SymbolicGradient.DifferentiatorsDisagreeAtPow` | src/main/java/com/github/arbitrary_number/SymbolicGradient.java:54-77 | at 2^x the general rule simplifies to 2^x · ln 2, while the constant-exponent rule simplifies to zero |
| `SymbolicGradient.ComputeGradientConstant` | src/main/java/com/github/arbitrary_number/SymbolicGradient.java:6-88 | a tree not mentioning v has a gradient that simplifies to the zero term |
| `SymbolicGradient.GradientOfSquare` | src/test/java/com/github/arbitrary_number/SymbolicExpressionGradientTest.java:18-33 | the gradient of x^2 is x^2 · (0 · ln x + 2 · (1 / x)), which is not the tree 2 · x |
| `ArbitraryNumberV2.Embed` | src/main/java/com/github/arbitrary_number/ArbitraryNumberV2.java:13-15 | a V2 tree, read as a `SymbolicExpression`, has no variables |
| `ArbitraryNumberV2.EmbedInjective` | src/main/java/com/github/arbitrary_number/ArbitraryNumberV2.java:13-22 | two V2 trees embed alike if and only if they are equal |
| `ArbitraryNumberV2.Negate` | src/main/java/com/github/arbitrary_number/ArbitraryNumberV2.java:70-75 | negate builds the tree that `SymbolicExpression.negate` builds |
| `ArbitraryNumberV2.LogBase` | src/main/java/com/github/arbitrary_number/ArbitraryNumberV2.java:78-83 | log(base, argument) builds the tree of its `SymbolicExpression` counterpart |
| `ArbitraryNumberV2.LogOfRatios` | src/main/java/com/github/arbitrary_number/ArbitraryNumberV2.java:86-91 | the four-integer log builds the tree of its `SymbolicExpression` counterpart |
| `ArbitraryNumberV2.Exp` | src/main/java/com/github/arbitrary_number/ArbitraryNumberV2.java:321-327 | exp(x) is the power with base 2718281828459045235 / 10^18 and exponent x |
| `ArbitraryNumberV2.SimplifyAlwaysFails` | src/main/java/com/github/arbitrary_number/ArbitraryNumberV2.java:130-142 | simplify fails on every tree, reading child 0 of a term |
| `ArbitraryNumberV2.SimplifyTermAsLeaf` | src/main/java/com/github/arbitrary_number/ArbitraryNumberV2.java:130-187 | with a term returned unchanged, simplify builds the same tree as `SymbolicExpression.simplify` |
| `ArbitraryNumberV2.SimplifyTermAsLeafIdempotent` | src/main/java/com/github/arbitrary_number/ArbitraryNumberV2.java:130-178 | with a term returned unchanged, a second simplify pass changes nothing |
| `ArbitraryNumberV2.DifferentiateAgrees` | src/main/java/com/github/arbitrary_number/ArbitraryNumberV2.java:190-241 | every differentiation rule builds the same tree as `SymbolicExpression.differentiate`; there is no unreachable case |
| `ArbitraryNumberV2.DifferentiateIgnoresName` | src/main/java/com/github/arbitrary_number/ArbitraryNumberV2.java:190-241 | the derivative is the same whatever variable name is given |
| `ArbitraryNumberV2.DerivativeSimplifiesToZero` | src/main/java/com/github/arbitrary_number/ArbitraryNumberV2.java:190-241 | read as a `SymbolicExpression`, every V2 derivative simplifies to the zero term |
| `ArbitraryNumberV2.SymbolicGradAgrees` | src/main/java/com/github/arbitrary_number/ArbitraryNumberV2.java:243-296 | every gradient rule builds the same tree as `SymbolicExpression.symbolicGrad` on the embedded trees |
| `ArbitraryNumberV2.EqualsAgrees` | src/main/java/com/github/arbitrary_number/ArbitraryNumberV2.java:298-319 | equals answers as `SymbolicExpression.equals` does on the embedded trees: the missing variable case changes nothing |
| `ArbitraryNumberV2.EqualsIsStructural` | src/main/java/com/github/arbitrary_number/ArbitraryNumberV2.java:298-319 | equals holds if and only if the two trees are identical |
| `ArbitraryNumberV2.EqualsIsEquivalence` | src/main/java/com/github/arbitrary_number/ArbitraryNumberV2.java:298-319 | equals is reflexive, symmetric and transitive |
| `ArbitraryNumberV2.ToJson` | src/main/java/com/github/arbitrary_number/ArbitraryNumberV2.java:331-352 | the document is an object whose "op" is the node's kind |
| `ArbitraryNumberV2.ToJsonAgrees` | src/main/java/com/github/arbitrary_number/ArbitraryNumberV2.java:331-352 | the document is the one `SymbolicExpression.toJson` gives the embedded tree |
| `ArbitraryNumberV2.ToJsonInjective` | src/main/java/com/github/arbitrary_number/ArbitraryNumberV2.java:331-352 | two trees give the same document if and only if they are equal |
| `ArbitraryNumber.NewTerm` | src/main/java/com/github/arbitrary_number/ArbitraryNumber.java:16-21 | construction succeeds if and only if b is non-zero, keeps the three fields, and otherwise fails with a zero-denominator error |
| `ArbitraryNumber.NewTermFromLongs` | src/main/java/com/github/arbitrary_number/ArbitraryNumber.java:23-25 | the long overload succeeds if and only if b is non-zero, keeps the widened fields, and otherwise fails the same way |
| `ArbitraryNumber.EvaluateDenominator` | src/main/java/com/github/arbitrary_number/ArbitraryNumber.java:31-33 | the denominator of a constructed term is never zero |
| `ArbitraryNumber.TermValueZero` | src/main/java/com/github/arbitrary_number/ArbitraryNumber.java:27-33 | a term's value c·a/b is zero if and only if c or a is zero |
| `ArbitraryNumber.TermProductValue` | src/main/java/com/github/arbitrary_number/ArbitraryNumber.java:73-76 | the fieldwise product term has a non-zero denominator, and its value is the product of the two values |
| `ArbitraryNumber.TermQuotientValue` | src/main/java/com/github/arbitrary_number/ArbitraryNumber.java:108-117 | by a term with non-zero c and a, the quotient term (1, c·a·b2, b·c2·a2) has a non-zero denominator and the quotient value |
| `ArbitraryNumber.AddTerm` | src/main/java/com/github/arbitrary_number/ArbitraryNumber.java:54-56 | exactly one term is appended at the end, the earlier terms are unchanged, and the value grows by the term's value |
| `ArbitraryNumber.AddTermParts` | src/main/java/com/github/arbitrary_number/ArbitraryNumber.java:46-52 | appending from parts succeeds if and only if b is non-zero, appends exactly that term, and otherwise fails with a zero-denominator error |
| `ArbitraryNumber.Add` | src/main/java/com/github/arbitrary_number/ArbitraryNumber.java:62-67 | the result is this number's terms followed by the other's, and its value is the sum of the two values |
| `ArbitraryNumber.MultiplyRow` | src/main/java/com/github/arbitrary_number/ArbitraryNumber.java:72-77 | one pass of the inner loop gives one product term per term of the other number, in order; its value is the term's value times the other number's value |
| `ArbitraryNumber.Multiply` | src/main/java/com/github/arbitrary_number/ArbitraryNumber.java:69-80 | multiply never fails, gives (terms of this) · (terms of other) terms, and its value is the product of the two values |
| `ArbitraryNumber.MultiplyCells` | src/main/java/com/github/arbitrary_number/ArbitraryNumber.java:69-80 | the product of the i-th and j-th terms sits at position i · (terms of other) + j (row-major order) |
| `ArbitraryNumber.DivideTerms` | src/main/java/com/github/arbitrary_number/ArbitraryNumber.java:105-120 | the division loop fails if and only if the dividend has a term and the divisor's c is zero; otherwise it gives one quotient term per dividend term and the quotient value |
| `ArbitraryNumber.DivideBy` | src/main/java/com/github/arbitrary_number/ArbitraryNumber.java:92-121 | divideBy fails if and only if: the divisor is empty; or it has several terms; or its a is zero; or its c is zero and the dividend is non-empty. Each case has its own error; a success gives the quotient terms and, for a non-empty dividend, the quotient value |
| `ArbitraryNumber.DivideByAcceptsZeroDivisor` | src/main/java/com/github/arbitrary_number/ArbitraryNumber.java:100-118 | dividing the empty number by the zero-valued term (0, 1, 1) succeeds |
| `ArbitraryNumber.DivideByChecked` | src/main/java/com/github/arbitrary_number/ArbitraryNumber.java:92-121 | with the zero-value check on c as well as a, division fails if and only if the divisor is not a single non-zero term; every success has the exact quotient value |
| `SymbolicNodes.Forward` | src/main/java/com/github/arbitrary_number/SigmoidNode.java:13-29 | a node's forward expression mentions exactly the graph's variable names and is well formed. It models `forward()` of all five node classes: VariableNode.java:13-15, ConstantNode.java:13-15, AddNode.java:13-15, MultiplyNode.java:13-15 and SigmoidNode.java:13-29 (the sigmoid is 1 / (1 + e^(-x))) |
| `SymbolicNodes.Backward` | src/main/java/com/github/arbitrary_number/VariableNode.java:17-23 | backward introduces no variable outside the graph and is well formed. It models `backward(v)` of all five node classes: VariableNode.java:17-23, ConstantNode.java:17-20, AddNode.java:17-20, MultiplyNode.java:17-28 and SigmoidNode.java:31-41 |
| `SymbolicNodes.BackwardIsDifferentiate` | src/main/java/com/github/arbitrary_number/MultiplyNode.java:17-28 | on graphs without a sigmoid node, backward(v) is the same tree as differentiate(forward(), v) |
| `SymbolicNodes.SigmoidBackwardIsNotDifferentiate` | src/main/java/com/github/arbitrary_number/SigmoidNode.java:31-41 | a sigmoid's backward is a product, while differentiating its forward gives a quotient, so they always differ |
| `SymbolicNodes.SigmoidBackwardVanishes` | src/main/java/com/github/arbitrary_number/SigmoidNode.java:31-41 | if the input's backward simplifies to zero, so does the sigmoid's |
| `SymbolicNodes.SigmoidOfConstantBackward` | src/main/java/com/github/arbitrary_number/ConstantNode.java:17-20 | the sigmoid of a constant node has a backward that simplifies to zero |
| `SymbolicNodes.ConstantForwardInjective` | src/main/java/com/github/arbitrary_number/ConstantNode.java:12-15 | two constant nodes have equal forward trees if and only if their values are equal |
| `SymbolicNodes.AddNodeVars` | src/main/java/com/github/arbitrary_number/AddNode.java:12-15 | a sum node's forward variables are exactly the union of its children's |
| `SymbolicNodes.ScaledVariableSlope` | src/main/java/com/github/arbitrary_number/MultiplyNode.java:17-28 | for every c, backward("x") of c · x simplifies to the term c |

## Left out

- Numeric evaluation is not modelled. This covers:
  - the `evaluate(precision)` methods of `SymbolicExpression` and `ArbitraryNumberV2`;
  - `SymbolicNode.evaluate`;
  - `ArbitraryNumber.evaluateToDecimal`.
  
  These rely on `BigDecimal` rounding and on `Math.pow`/`Math.log` over doubles. The exact `real` value of term lists stands in for them.
- `toString` renderings: they are output formatting only.
- `ArbitraryNumberV2Alpha`: it evaluates only, with decimal rounding and doubles.
- `SymbolicNode` is not part of this model: its only logic is the evaluator. The `Node` datatype captures the `forward`/`backward` interface.
- Not modelled, because each is a fixed composition of the modelled constructors:
  - the dense layers, which take a `java.util.Random` for their weights;
  - the activation helpers;
  - the demo and test `main` programs.
- The `org.json` library is replaced by a small JSON datatype, with objects as maps from keys to values.
  - `BigInteger.toString()` is modelled by `Decimal.IntToDecimal`.
  - Key order and the textual form of a document are not modelled.
- Variadic `node(...)`, null variable names and an unset `op`: the model has fixed arities and non-null names.
- Mutation is not modelled:
  - Java's `Term` fields are public and mutable. The model's terms are values.
  - `addTerm` mutates the list in place. The model returns the extended list.
  - Aliasing between numbers is not modelled.
- The factories `term`, `variable`, `add`, `subtract`, `multiply`, `divide`, `power` and `log(arg)` have no rows. They are the datatype's constructors.
- `ArbitraryNumber.EvaluateNumerator` has no row: it is the product c·a, stated through `TermValue`.
- `SymbolicExpression.IsZero` and `SymbolicExpression.IsOne` have no row. They model `isZero`/`isOne` (SymbolicExpression.java:190-197); `SimplifyRuleOrder` and `NoRedex` state what they accept.
- `ArbitraryNumberV2.Simplify`, `ArbitraryNumberV2.Differentiate`, `ArbitraryNumberV2.SymbolicGrad` and `ArbitraryNumberV2.Equals` have no contract of their own. Their rows are the lemmas about them: `SimplifyAlwaysFails`, `DifferentiateAgrees`, `SymbolicGradAgrees`, `EqualsAgrees`.
- Two test claims do not hold, and are not proved:
  - the claim that the gradient of (x²+3x+2)/(x+1) simplifies to one;
  - the first structural assertion of the gradient-of-square test.
  
  `RationalGradientIsNotOne` proves that the first claim fails. `GradientOfSquare` proves the tree that is actually produced in the second case.

## Findings

| source | as written | input that shows it | evidently intended | confidence | as-written member | corrected member |
|---|---|---|---|---|---|---|
| src/main/java/com/github/arbitrary_number/ArbitraryNumber.java:100-118 | the zero-valued-divisor check tests only the divisor's `a`; a divisor with `c == 0` is caught only inside the loop | the empty number divided by the single term (0, 1, 1) returns the empty number, i.e. 0 / 0 = 0 | reject every divisor term whose value c·a/b is zero | not executed | `ArbitraryNumber.DivideByAcceptsZeroDivisor` | `ArbitraryNumber.DivideByChecked` |
| src/main/java/com/github/arbitrary_number/ArbitraryNumberV2.java:132-142 | `case TERM:` has no body and falls through into the `ADD` case, which reads `children.get(0)` of a leaf | `term(1,1,1).simplify()`, and with it every tree, throws an index-out-of-bounds exception | a term is returned unchanged, as in `SymbolicExpression.simplify` | not executed | `ArbitraryNumberV2.SimplifyAlwaysFails` | `ArbitraryNumberV2.SimplifyTermAsLeaf` |
