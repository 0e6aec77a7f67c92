# SimPoly core in Dafny

This project models SimPoly, a C++ polynomial library. The model covers its
exact algebra on dense coefficient arrays: index i holds the coefficient of
x^i. It then proves properties of that model.

The modelled core consists of these parts:

- **The arithmetic kernel** (`simpoly::basic`, `src/basic/operations.cpp`):
  - the sum, with its trailing-coefficient trimming, and the scalar sum;
  - the differences;
  - the convolution product and the scalar product;
  - long division with remainder, and division by a scalar;
  - conversion of real arrays to complex ones;
  - the expansion of `l·(x − r0)…(x − rn−1)` into coefficients.
- **Calculus and evaluation** (`src/basic/calculus.cpp`,
  `src/basic/evaluations.cpp`):
  - term-by-term derivative and antiderivative;
  - Horner evaluation in pointer/length and array form, with the
    `CHECK_COEFS` rejection of an empty array or a negligible leading
    coefficient;
  - evaluation from the roots.
- **The older valarray operations** (`simpoly::op`, `src/operations.cpp`):
  - the untrimmed sum;
  - product, division, evaluation, derivative and integral;
  - the real-part extraction that ends `find_roots`.
- **The `Polynomial` operator layer** (`src/polynomial/operators.cpp`):
  - the class state (coefficients, degree, type tag, real and complex roots,
    their counts, and the flags saying whether roots are known and used for
    evaluation);
  - `+=`, `*=` by a polynomial and by a scalar, `/=` by a scalar;
  - `==` and `!=`;
  - scalar and array evaluation;
  - the free `divide`, `quotient` and `remainder`.
- **The orthogonal-polynomial generators** (`src/polynomial/legendre.cpp`,
  `jacobi.cpp`, `radau.cpp`):
  - Legendre uses an exact table up to degree 6, then a three-term
    recurrence loop;
  - Jacobi checks its parameters, then runs a three-term recurrence loop;
  - Radau is an end-node factor times a Jacobi polynomial, scaled.

Coefficients are Dafny `real`s, so every identity the code relies on holds
exactly. The complex template instances run the same code, and the real
model covers them. The library's 1e-12 thresholds are the constant
`Coefficients.ZeroTol`. The model follows the debug build, with `NDEBUG`
undefined: the `ZeroCoeffsLength`, `NegativeCoeffsLength`, `NegativeDegree`
and `JacobiParameters` checks happen and become `Err` results. A thrown
exception is an `Err(e)` of `Result`, or a `Fail(e)` of `Outcome` for a
state change.

## Module layout

- `coefficients.dfy` (`Coefficients`) holds the shared meaning:
  - zero-padded `Sum`, `Scaled`, `Divided`, `Trimmed`;
  - the product coefficient `ConvAt` and the array `Convolution`;
  - `Horner`, `PowerSum`, `RootProduct`;
  - the algebra between them: evaluation turns sums into sums and
    convolutions into products.
- `basic_operations.dfy`, `calculus.dfy` and `evaluations.dfy` follow the
  three files under `src/basic/`.
- `valarray_operations.dfy` follows `src/operations.cpp`.
- `polynomial.dfy` holds the `Polynomial` class and its operators.
- `recurrence.dfy` holds the loop body shared by Legendre and Jacobi:
  `Pim1 *= -a4; Pim1 += Polynomial({a2, a3}) * Pi; Pim1 /= a1`.
- `legendre.dfy`, `jacobi.dfy` and `radau.dfy` hold the three generators.

The loops of the source are methods with loop invariants in the model:
- the sum's copy, add and pop loops;
- the product's accumulation;
- the long division's descending elimination;
- the scalar loops, derivative and integral;
- the `==` scan, the root-extraction loop and the array evaluation;
- the generators' recurrence loops, in which `Pi` and `Pim1` are swapped
  objects.

Each method is proved against a function, such as `Trimmed(Sum(p1, p2))`,
`Convolution`, `IsDivision`, `Derived`, `LegendreCoefficients` or
`JacobiFrom`. Lemmas then give that function its meaning.

## Model

| member | source | states |
|---|---|---|
| BasicOperations.Add | src/basic/operations.cpp:24-45 | The result is the zero-padded sum with trailing entries below 1e-12 popped. |
| BasicOperations.PaddedSum | src/basic/operations.cpp:28-36 | The copy and transform produce the sum padded to the longer operand: p1[i]+p2[i] on the overlap, the longer operand's entry beyond it. |
| BasicOperations.SumEntry | src/basic/operations.cpp:28-36 | The padded sum has the longer operand's length. Entry i is shorter[i]+longer[i] on the overlap and longer[i] past it. |
| BasicOperations.PopTiny | src/basic/operations.cpp:38-42 | The pop loop removes exactly the trailing entries below 1e-12. |
| BasicOperations.TrimmedPop | src/basic/operations.cpp:38-42 | Popping a negligible top entry does not change the final trimmed array. `PopTiny` calls it on every pass to keep its loop invariant. |
| Coefficients.Trimmed | src/basic/operations.cpp:38-42 | The trimmed array is a prefix of the input. A non-empty result ends in an entry of magnitude at least 1e-12, and every dropped entry is below 1e-12. |
| Coefficients.TrimmedNonEmpty | src/basic/operations.cpp:38-42 | Any entry of magnitude at least 1e-12 survives trimming. |
| BasicOperations.AddCommutes | src/basic/operations.cpp:24-45 | The sum does not depend on the order of its operands. |
| BasicOperations.AddValue | src/basic/operations.cpp:24-45 | When the top entry of the sum is significant nothing is trimmed, and the sum evaluates to p1(x)+p2(x). |
| BasicOperations.AddScalar | src/basic/operations.cpp:47-61 | Adding a constant changes only the constant coefficient, by c, and keeps the length. |
| BasicOperations.AddScalarValue | src/basic/operations.cpp:47-61 | Adding c shifts the value at every x by c. |
| BasicOperations.Subtract | src/basic/operations.cpp:64-68 | p1 − p2 is the trimmed sum of p1 and (−1)·p2. |
| BasicOperations.SubtractValue | src/basic/operations.cpp:64-68 | Without trimming the difference evaluates to p1(x) − p2(x). |
| BasicOperations.SubtractScalar | src/basic/operations.cpp:70-74 | p − c keeps the length. |
| BasicOperations.SubtractScalarValue | src/basic/operations.cpp:70-74 | p − c evaluates to p(x) − c. |
| BasicOperations.SubtractFromScalar | src/basic/operations.cpp:76-80 | c − p is (−1)·p with c added to its constant coefficient. |
| BasicOperations.SubtractFromScalarValue | src/basic/operations.cpp:76-80 | c − p evaluates to c − p(x). |
| BasicOperations.MultiplyScalar | src/basic/operations.cpp:107-121 | Every coefficient is multiplied by c and the length is kept. |
| Coefficients.HornerScaled | src/basic/operations.cpp:107-121 | The scaled array evaluates to c·p(x). |
| BasicOperations.Multiply | src/basic/operations.cpp:84-105 | An empty operand gives ZeroCoeffsLength. Otherwise the accumulation loop yields the convolution: length \|p1\|+\|p2\|−1, entry k the sum of p1[i]·p2[j] over i+j=k. |
| Coefficients.ConvolutionAt | src/basic/operations.cpp:92-102 | Entry k of the product array is Σ p1[i]·p2[k−i]. |
| Coefficients.ConvolutionCommutes | src/basic/operations.cpp:84-105 | The product is commutative. |
| BasicOperations.MultiplyValue | src/basic/operations.cpp:84-105 | The product evaluates to p1(x)·p2(x). |
| BasicOperations.MultiplyExample | src/basic/operations.cpp:84-105 | [0,0,3]·[7,−5,4] is [0,0,21,−15,12], the value the multiplication tests expect. |
| BasicOperations.Divide | src/basic/operations.cpp:125-157 | An empty operand gives ZeroCoeffsLength. If p1 is shorter than p2, the quotient is [0] and the remainder is p1. Otherwise \|Q\| = \|p1\|−\|p2\|+1, \|R\| = \|p2\|−1, and Q·p2 + R equals p1 exactly. |
| BasicOperations.DivideStep | src/basic/operations.cpp:147-152 | One elimination step keeps the loop invariant: quotient entries not yet computed are zero, remainder entries from qi+\|p2\| upwards are zero, and p1 = Q·p2 + r holds entrywise. |
| BasicOperations.SubtractShifted | src/basic/operations.cpp:150-151 | The transform subtracts factor·p2, shifted by qi, from the running remainder and leaves the other entries alone. |
| BasicOperations.DivideDone | src/basic/operations.cpp:152-156 | After the last step the slice of the first \|p2\|−1 remainder entries completes the division. |
| BasicOperations.DivisionValue | src/basic/operations.cpp:125-157 | Division is exact on values: p1(x) = Q(x)·p2(x) + R(x). |
| BasicOperations.DivisionUnique | src/basic/operations.cpp:125-157 | When p2's top coefficient is nonzero, the quotient and remainder are unique, so any IsDivision result is the one divide computes. |
| BasicOperations.DivideExample | src/basic/operations.cpp:125-157 | [−10,−9,1] ÷ [1,1] can only give Q = [−10,1] and R = [0], the values the division tests expect. |
| BasicOperations.DivideQuotient | src/basic/operations.cpp:159-164 | The two-argument divide returns the quotient of that division. |
| BasicOperations.DivideScalar | src/basic/operations.cpp:166-172 | Every coefficient is divided by c and the length is kept. |
| Coefficients.HornerDivided | src/basic/operations.cpp:166-172 | The divided array evaluates to p(x)/c. |
| BasicOperations.ToCArry | src/basic/operations.cpp:175-178 | The complex copy has the same length and zero imaginary parts. |
| BasicOperations.ToCArryRoundTrip | src/basic/operations.cpp:175-178 | Taking real parts of the complex copy gives back the original array. |
| BasicOperations.ToCoefficients | src/basic/operations.cpp:213-225 | A negative length gives NegativeCoeffsLength. Otherwise the result has len+1 entries and its top entry is l. |
| BasicOperations.ToCoefficientsValue | src/basic/operations.cpp:213-225 | The expanded coefficients evaluate to l·(x − r0)…(x − rlen−1) at every x. |
| BasicOperations.RootFactorTimes | src/basic/operations.cpp:224 | Multiplying by [−r, 1] multiplies the value by x − r. |
| BasicOperations.ToCoefficientsArray | src/basic/operations.cpp:227-231 | The array form uses every root: \|rts\|+1 entries, top entry l. |
| BasicOperations.ToCoefficientsArrayValue | src/basic/operations.cpp:227-231 | The array form evaluates to l·Π(x − ri). |
| Calculus.Derivative | src/basic/calculus.cpp:23-46 | An empty array gives ZeroCoeffsLength and a constant gives [0]. Otherwise the copy-and-scale loop yields the formal derivative. |
| Calculus.Derived | src/basic/calculus.cpp:33-43 | The derivative of a constant is [0]. Otherwise it has one fewer entry. |
| Calculus.DerivedAt | src/basic/calculus.cpp:36-43 | Entry i of the derivative is (i+1)·p[i+1]. |
| Calculus.Integral | src/basic/calculus.cpp:49-70 | An empty array gives ZeroCoeffsLength. Otherwise the loop yields the antiderivative with zero constant term. |
| Calculus.Integrated | src/basic/calculus.cpp:60-67 | The antiderivative has one more entry, and entry 0 is 0. |
| Calculus.IntegratedAt | src/basic/calculus.cpp:60-67 | Entry i+1 of the antiderivative is p[i]/(i+1). |
| Calculus.DerivedIntegrated | src/basic/calculus.cpp:23-70 | derivative(integral(p)) = p for every non-empty p. |
| Calculus.IntegratedDerived | src/basic/calculus.cpp:23-70 | integral(derivative(p)) is p with its constant coefficient set to 0. |
| Calculus.DerivedSum | src/basic/calculus.cpp:23-46 | The derivative of a padded sum is the sum of the derivatives. |
| Calculus.DerivedScaled | src/basic/calculus.cpp:23-46 | The derivative of c·p is c times the derivative of p. |
| Evaluations.CheckCoefs | src/basic/evaluations.cpp:37 | `CHECK_COEFS` rejects exactly an empty array (ZeroCoeffsLength) and a longer array whose top coefficient is below the tolerance (ZeroLeadingCoeff). |
| Evaluations.Evaluate | src/basic/evaluations.cpp:19-31 | len = 0 gives ZeroCoeffsLength and len < 0 gives NegativeCoeffsLength. Otherwise the result is Horner's rule over the first len coefficients. |
| Evaluations.EvaluateIsPowerSum | src/basic/evaluations.cpp:27-30 | The recursion computes Σ c[i]·x^i. |
| Evaluations.EvaluateArray | src/basic/evaluations.cpp:34-40 | The array form passes exactly the arrays CHECK_COEFS accepts and then returns Horner's value. |
| Evaluations.EvaluateFromRoot | src/basic/evaluations.cpp:43-54 | degree < 0 gives NegativeDegree. Otherwise the result is l·(x − r0)…(x − rdegree−1), which is l at degree 0. |
| Evaluations.EvaluateFromRootArray | src/basic/evaluations.cpp:57-61 | The array form is l·Π(x − ri) over every root. |
| Evaluations.RootIsZero | src/basic/evaluations.cpp:57-61 | Every listed root is a zero of the factored form. |
| Evaluations.NonRootIsNonZero | src/basic/evaluations.cpp:50-53 | Away from every listed root, the product Π(x − ri) is nonzero. |
| Evaluations.EvaluateFromRootMatchesCoefficients | src/basic/evaluations.cpp:43-61 | Evaluating to_coefficients(l, rts) gives evaluate_from_root(l, rts, x). |
| ValarrayOperations.Add | src/operations.cpp:26-44 | The valarray sum copies the shorter operand into a zero array of the longer length and adds the longer one. It is the padded sum, untrimmed. |
| ValarrayOperations.AddValue | src/operations.cpp:26-44 | The untrimmed sum has length max(\|p1\|,\|p2\|) and evaluates to p1(x)+p2(x). |
| ValarrayOperations.Multiply | src/operations.cpp:47-70 | An empty operand gives ZeroCoeffsLength. Otherwise the length is \|p1\|+\|p2\|−1 and the product evaluates to p1(x)·p2(x) everywhere. |
| ValarrayOperations.Divide | src/operations.cpp:73-108 | An empty operand gives ZeroCoeffsLength. Otherwise the result is a division of p1 by p2, and p1(x) = Q(x)·p2(x) + R(x). |
| ValarrayOperations.DivideQuotient | src/operations.cpp:111-116 | The quotient of that division. |
| ValarrayOperations.Evaluate | src/operations.cpp:119-130 | The same length errors as the kernel. Otherwise the result is Σ bg[i]·x^i over the first len entries. |
| ValarrayOperations.EvaluateArray | src/operations.cpp:133-136 | Only the empty array is rejected. Otherwise the result is Horner's value. |
| ValarrayOperations.EvaluateArrayAgrees | src/operations.cpp:133-136 | Where the kernel array evaluation succeeds the two forms agree. The valarray form also accepts arrays with a negligible top coefficient, which the kernel rejects. |
| ValarrayOperations.EvaluateRoot | src/operations.cpp:161-172 | degree < 0 gives NegativeDegree. Otherwise the value is l·(x − r0)…(x − rdegree−1), which is l at degree 0. It is zero iff l = 0 or x is one of the first degree roots. |
| ValarrayOperations.RootProductZeros | src/operations.cpp:161-172 | Π(x − ri) vanishes exactly when x is a root. |
| ValarrayOperations.EvaluateRootArray | src/operations.cpp:175-179 | The value is l·Π(x − ri) over every root. It is zero iff l = 0 or x is a root. |
| ValarrayOperations.Derivative | src/operations.cpp:182-205 | An empty array gives ZeroCoeffsLength and length 1 gives [0]. Otherwise the length is len−1 with entry i equal to (i+1)·c[i+1]. |
| ValarrayOperations.Integral | src/operations.cpp:208-228 | An empty array gives ZeroCoeffsLength. Otherwise the length is len+1, entry 0 is 0 and entry i is c[i−1]/i. |
| ValarrayOperations.FindRoots | src/operations.cpp:334-357 | A length-1 input gives no roots. Otherwise the result is an error iff some computed root has \|imag\| ≥ tol, and ComplexRoot is the error. On success the entries are the real parts, in order. |
| ValarrayOperations.FindRootsOfRealRoots | src/operations.cpp:344-354 | Real roots passed in complex form are all accepted and come back unchanged. |
| Polynomials.ProductDegree | src/polynomial/operators.cpp:98-99 | The degree of the product is the sum of the degrees, and its leading coefficient is the product of the leading ones. This is what `_d += rhs._d` relies on. |
| Polynomials.Polynomial.FromCoef | src/polynomial/operators.cpp:212-213 | Constructing from coefficients gives a general polynomial with those coefficients, their degree and no roots. |
| Polynomials.Polynomial.AddAssign | src/polynomial/operators.cpp:68-72 | `+=` stores the trimmed sum of the coefficient arrays, keeps the type and forgets the roots. |
| Polynomials.Polynomial.MulAssign | src/polynomial/operators.cpp:96-122 | Coefficients become the product, the degree the sum of the degrees, and the type GENERAL. If both operands know their roots, the root lists are concatenated, the counts summed, and roots stay in use only if both used them. Otherwise the lists are cleared, the counts become 0 and both flags become false. When both operands' coefficients agree with their factored forms, so do the product's (the comment at line 102: multiplication does not change roots). |
| Coefficients.FactoredIsScaled | src/polynomial/operators.cpp:43 | The factored form l·(x − r0)…(x − rn−1) equals the leading coefficient times the product over the roots, which is what evaluation by roots computes. |
| Coefficients.FactoredTimes | src/polynomial/operators.cpp:102-105 | The product of two factored forms is the factored form over the concatenated roots, with the product of the leading coefficients. |
| Polynomials.ProductExpands | src/polynomial/operators.cpp:98-105 | When both factors' coefficients agree with their factored forms over their real roots, the convolution agrees with the factored form over the concatenated roots. |
| Polynomials.Polynomial.SetState | src/polynomial/operators.cpp:98-119 | The field updates of `*=` keep the bookkeeping invariant: the degree matches the coefficients, the counts match the lists, and a known root set has one root per degree. |
| Polynomials.Polynomial.ScaleAssign | src/polynomial/operators.cpp:124-129 | `*= c` scales every coefficient and forgets the roots. |
| Polynomials.Polynomial.DivAssign | src/polynomial/operators.cpp:131-136 | `/= c` divides every coefficient and forgets the roots. |
| Polynomials.Polynomial.Call | src/polynomial/operators.cpp:40-45 | With roots in use, the value is top coefficient · Π(x − ri). Otherwise the value is Horner's, after the CHECK_COEFS test. |
| Polynomials.Polynomial.CallAgrees | src/polynomial/operators.cpp:40-45 | When the coefficients are the expansion of l·Π(x − ri) over the stored real roots, evaluation by roots gives Horner's value. |
| Polynomials.Polynomial.ExpandedRoots | src/polynomial/operators.cpp:40-45 | Coefficients expanded from real roots agree everywhere with their factored form, so the object keeps that invariant. |
| Polynomials.Polynomial.CallAtRoot | src/polynomial/operators.cpp:43 | Evaluated by roots, every stored real root is a zero. |
| Polynomials.Polynomial.CallArray | src/polynomial/operators.cpp:47-59 | Array evaluation gives one value per point. The second loop overwrites whatever the roots loop wrote, so every value comes from the coefficients. The call fails exactly when there is a point and CHECK_COEFS rejects the coefficients. |
| Polynomials.RelDiffExceeds | src/polynomial/operators.cpp:144 | The relative test fails exactly when \|a − b\| ≤ 1e-12·\|a\|, with IEEE division by zero written out. |
| Polynomials.Polynomial.Equals | src/polynomial/operators.cpp:138-148 | `==` holds iff the degrees are equal and every coefficient passes the relative test against the matching one. |
| Polynomials.Polynomial.NotEquals | src/polynomial/operators.cpp:150-154 | `!=` is exactly the negation of `==`. |
| Polynomials.CoefficientsCloseReflexive | src/polynomial/operators.cpp:143-145 | Every coefficient array passes the relative test against itself. |
| Polynomials.EqualsItself | src/polynomial/operators.cpp:138-148 | Every polynomial equals itself. |
| Polynomials.CloseZeroIsExact | src/polynomial/operators.cpp:143-145 | A zero coefficient matches only an exact zero. |
| Polynomials.Divide | src/polynomial/operators.cpp:207-214 | Returns fresh general polynomials holding the quotient and remainder of the kernel division, or ZeroCoeffsLength. |
| Polynomials.Quotient | src/polynomial/operators.cpp:216-222 | Returns a fresh general polynomial holding the quotient of the kernel division. |
| Polynomials.Remainder | src/polynomial/operators.cpp:224-230 | Returns a fresh general polynomial holding the remainder of the kernel division. |
| Polynomials.DivisionOfValue | src/polynomial/operators.cpp:207-230 | The returned Q and R satisfy p1(x) = Q(x)·p2(x) + R(x). |
| Recurrences.NextTermIs | src/polynomial/legendre.cpp:92-94 | When the new top coefficient is significant, the body `Pim1 *= -a4; Pim1 += {a2,a3}·Pi; Pim1 /= a1` gives (−a4·Pim1[k] + a2·Pi[k] + a3·Pi[k−1])/a1 at every entry, one entry longer than Pi. |
| Recurrences.NextTermTop | src/polynomial/jacobi.cpp:58-60 | The new top coefficient is a3·Pi[last]/a1. |
| Recurrences.NextTermValue | src/polynomial/jacobi.cpp:58-60 | As a function, the new member is ((a2 + a3·x)·Pi(x) − a4·Pim1(x))/a1. |
| Recurrences.Advance | src/polynomial/jacobi.cpp:58-60 | The three statements overwrite Pim1 with the next member and leave Pi untouched. |
| LegendrePolynomials.Table | src/polynomial/legendre.cpp:28-73 | The exact table for degrees 0…6 has degree+1 entries and a leading coefficient of at least 1. |
| LegendrePolynomials.TableFollowsRecurrence | src/polynomial/legendre.cpp:28-97 | Each table entry from degree 2 to 6 is what the recurrence gives from the two before it. |
| LegendrePolynomials.StepMultipliers | src/polynomial/legendre.cpp:82-88 | a1 = 4i(i+1)² is positive, a3 ≥ a1, and a3 − a4 = a1, so the division is defined and the top coefficient never shrinks. |
| LegendrePolynomials.Legendre | src/polynomial/legendre.cpp:25-103 | `Legendre(n)` returns a fresh LEGENDRE polynomial of degree n holding the table for n ≤ 6 and the loop's result otherwise. |
| LegendrePolynomials.Step | src/polynomial/legendre.cpp:80-97 | One pass of the loop turns Pim1 into P(i+1), with i+2 entries and a leading coefficient of at least 1. |
| LegendrePolynomials.LegendreCoefficients | src/polynomial/legendre.cpp:80-98 | P(n) has n+1 entries and a leading coefficient of at least 1, so the degree is n. |
| LegendrePolynomials.LegendreEndValues | src/polynomial/legendre.cpp:25-103 | P(n)(1) = 1 and P(n)(−1) = (−1)^n. |
| LegendrePolynomials.LegendreParity | src/polynomial/legendre.cpp:25-103 | The coefficient of x^k is zero when k and n have different parity. |
| JacobiPolynomials.JacobiMultipliers | src/polynomial/jacobi.cpp:52-54 | With α, β > −1 and i ≥ 1, a1 and a3 are positive, and from i = 2 on a3 > a1 and a3 > 24. |
| JacobiPolynomials.JacobiP1 | src/polynomial/jacobi.cpp:36 | P(1) is [(α−β)/2, (α+β)/2+1]. |
| JacobiPolynomials.JacobiCoefficients | src/polynomial/jacobi.cpp:33-64 | P(n) has n+1 entries and a positive leading coefficient. |
| JacobiPolynomials.Jacobi | src/polynomial/jacobi.cpp:25-69 | α ≤ −1 or β ≤ −1 gives JacobiParameters. Otherwise the result is a fresh polynomial of degree n holding P(n), typed JACOBI for n ≥ 2 and GENERAL for the early returns at n = 0 and n = 1. |
| JacobiPolynomials.Members | src/polynomial/jacobi.cpp:38-64 | Started from P(1) and P(0), the loop produces JacobiFrom(P(1), P(0), 1, n). |
| JacobiPolynomials.Iterate | src/polynomial/jacobi.cpp:45-64 | The swap loop from step i0 reaches the member JacobiFrom promises. |
| JacobiPolynomials.Step | src/polynomial/jacobi.cpp:46-63 | One pass keeps the top coefficient and moves the loop state one member on. |
| JacobiPolynomials.JacobiStepKeepsLead | src/polynomial/jacobi.cpp:52-60 | Every step divides by a positive a1 and keeps the new top coefficient significant. |
| JacobiPolynomials.FromValue | src/polynomial/jacobi.cpp:45-64 | Evaluating the member the loop produces is the same as running the recurrence on values. |
| JacobiPolynomials.JacobiEndValues | src/polynomial/jacobi.cpp:25-69 | P(n)(1) = C(n+α, n) and P(n)(−1) = (−1)^n·C(n+β, n). |
| RadauPolynomials.Radau | src/polynomial/radau.cpp:25-53 | A tag other than LEFTRADAU or RIGHTRADAU gives IllegalType. Otherwise the result has degree n, the requested type, and the end-node factor times P(n−1) times the scaling as coefficients. |
| RadauPolynomials.JacobiFactor | src/polynomial/radau.cpp:35-40 | P(n−1; α, β) has n entries and a positive top coefficient. |
| RadauPolynomials.RadauValue | src/polynomial/radau.cpp:34-50 | As a function the result is 0.5·(1+x)·P(n−1; 0, 1) on the left, and s·(1−x)·P(n−1; 1, 0) on the right with s = −0.5 for even n and 0.5 for odd n. |
| RadauPolynomials.EndFactorValue | src/polynomial/radau.cpp:36-41 | The end-node factor is 1+x on the left and 1−x on the right. |
| RadauPolynomials.RadauEndValues | src/polynomial/radau.cpp:25-53 | Left Radau vanishes at −1 and is 1 at +1. Right Radau vanishes at +1 and is 1 at −1. |
| RadauPolynomials.RadauLeading | src/polynomial/radau.cpp:48-49 | The top coefficient is nonzero, so the degree is exactly n. |
| Coefficients.HornerSum | src/basic/operations.cpp:24-45 | The padded sum evaluates to the sum of the values. |
| Coefficients.HornerConvolution | src/basic/operations.cpp:84-105 | The convolution evaluates to the product of the values. |

## Left out

- `GCD` (src/basic/operations.cpp:182-209): it stops on a floating-point norm ratio and re-normalises by a top coefficient that can be zero, so its termination is not a property of exact arithmetic.
- Root finding (src/basic/root_findings.cpp) and `find_roots_complex` (src/operations.cpp:231-331): these are floating-point iterations with tolerances and iteration caps. `ValarrayOperations.FindRoots` takes the roots the complex solver returned as its parameter.
- Stream output (`operator<<`): I/O.
- `Arry` is `std::valarray` (include/basic.h:23), but the source calls `back`, `pop_back`, `insert` and `clear` on it (src/basic/operations.cpp:40,145; src/polynomial/operators.cpp:104-105,114-115), which valarray does not provide. The model reads these arrays as growable sequences, the behaviour those calls have on a `std::vector`.
- `PolyType` (include/polynomial.h:21) has only GENERAL, JACOBI, LEGENDRE and LAGRANGE. The model adds `LeftRadau` and `RightRadau` for the tags that src/polynomial/radau.cpp:34,39 assigns, which the header does not declare.
- src/polynomial/polynomial.cpp: every constructor, `set` and accessor there is a `NotImplemented` stub. The model's constructor `FromCoef` and `SetCoef` replace the coefficients, recompute the degree and forget the roots. `SetCoef` keeps the tag and the constructor tags GENERAL. `SetType` changes only the tag.
- `Polynomial::divide`, `quotient`, `remainder` (src/polynomial/operators.cpp:25-38), `+=`/`-=` by a scalar, `-=` by a polynomial, and the free operators `+ - * / %` (lines 74-93 and 156-198): they forward to members that are modelled.
- Copy and move assignment: C++ value semantics, which the model has by construction.
- Floating point: coefficients are exact reals. Rounding, overflow, `long double`, NaN and infinity are not modelled. The exception is the relative test of `==`, which writes out division by zero.
- Complex instantiations of the templates: the same code, covered by the real model.
- The release build (`NDEBUG` defined), where the length and parameter checks are compiled out.
- BasicOperations.Add: requires that the trimmed sum is non-empty, because the source reads the top entry of an empty array when every entry of the sum is below 1e-12. `Polynomial.AddAssign`, `Subtract` and `Recurrences.Advance` inherit this.
- BasicOperations.Divide: requires p2's top coefficient to be nonzero when p1 is at least as long as p2, because the source divides by it. The division methods of `ValarrayOperations` and `Polynomials` inherit this.
- BasicOperations.DivideScalar: requires c ≠ 0 for a non-empty array, because the source divides by c. `Polynomial.DivAssign` inherits this.
- BasicOperations.AddScalar: requires a non-empty array, because the source writes entry 0. `SubtractScalar` and `SubtractFromScalar` inherit this.
- Evaluations.Evaluate, Evaluations.EvaluateFromRoot, BasicOperations.ToCoefficients: require the length not to exceed the sequence, because the source reads through a pointer with no bound.
- Polynomials.Polynomial.Equals: requires, when the degrees are equal, that the coefficients of `this` are no more than those of `rhs`, because the source reads `rhs._coef` at every index of `_coef`. With equal degrees this only excludes comparing [c] with an empty array.
- Polynomials.Quotient and Polynomials.Remainder: state that the result is a quotient or a remainder of the division, rather than the exact array of the internal call. `BasicOperations.DivisionUnique` shows that no other quotient or remainder exists when p2's top coefficient is nonzero.
- JacobiPolynomials.Jacobi: requires for n ≥ 2 that the first step keeps its top coefficient, which excludes α + β within about 1e-6 of −2. There the source's `+=` pops near-zero top entries, giving a shorter array or reading the top of an empty one.
- RadauPolynomials.Radau: requires n ≥ 1, because the source computes the unsigned n − 1, which wraps at n = 0.
