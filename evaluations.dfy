/** Evaluation of a polynomial from its coefficients (Horner's rule) and from
    its roots (src/basic/evaluations.cpp). A pointer and a length are modelled
    as a sequence and an int no larger than the sequence. */
module Evaluations {
  import opened Coefficients
  import BasicOperations

  /** The rejection CHECK_COEFS performs before an array is used as a polynomial:
      no coefficients, or a leading coefficient below the tolerance when there
      is more than one. */
  function CheckCoefs(c: seq<real>, tol: real): (o: Outcome)
    ensures o == Fail(ZeroCoeffsLength) <==> |c| == 0
    ensures o == Fail(ZeroLeadingCoeff) <==> |c| > 1 && Abs(c[|c| - 1]) < tol
    ensures o.Pass? <==> |c| == 1 || (|c| > 1 && Abs(c[|c| - 1]) >= tol)
  {
    if |c| == 0 then Fail(ZeroCoeffsLength)
    else if |c| > 1 && Abs(c[|c| - 1]) < tol then Fail(ZeroLeadingCoeff)
    else Pass
  }

  /** `evaluate(bg, len, x)`: the first len coefficients read from bg, summed by
      Horner's rule; a single coefficient is returned as it is. */
  function Evaluate(bg: seq<real>, len: int, x: real): (r: Result<real>)
    requires len <= |bg|
    ensures len == 0 <==> r == Err(ZeroCoeffsLength)
    ensures len < 0 <==> r == Err(NegativeCoeffsLength)
    ensures len > 0 ==> r.Ok? && r.value == Horner(bg[..len], x)
    decreases len
  {
    if len == 0 then Err(ZeroCoeffsLength)
    else if len < 0 then Err(NegativeCoeffsLength)
    else if len == 1 then
      assert bg[..1][1..] == [];
      Ok(bg[0])
    else
      assert bg[..len][1..] == bg[1..][..len - 1];
      var rest := Evaluate(bg[1..], len - 1, x);
      assert Horner(bg[..len], x) == bg[0] + x * rest.value;
      Ok(bg[0] + x * rest.value)
  }

  /** Horner's rule agrees with the monomial sum c[0] + c[1]*x + ... + c[n-1]*x^(n-1). */
  lemma {:induction false} EvaluateIsPowerSum(c: seq<real>, x: real)
    requires |c| > 0
    ensures Evaluate(c, |c|, x).Ok? && Evaluate(c, |c|, x).value == PowerSum(c, 0, x)
  {
    HornerIsPowerSum(c, 0, x);
    assert Pow(x, 0) == 1.0;
    assert c[..|c|] == c;
  }

  /** `evaluate(coeffs, x)`: CHECK_COEFS with tolerance 1e-12, then Horner. */
  function EvaluateArray(coeffs: seq<real>, x: real): (r: Result<real>)
    ensures |coeffs| == 0 <==> r == Err(ZeroCoeffsLength)
    ensures r == Err(ZeroLeadingCoeff) <==> |coeffs| > 1 && Abs(coeffs[|coeffs| - 1]) < ZeroTol
    ensures r.Ok? ==> r.value == Horner(coeffs, x)
    ensures CheckCoefs(coeffs, ZeroTol).Pass? <==> r.Ok?
  {
    match CheckCoefs(coeffs, ZeroTol)
    case Fail(e) => Err(e)
    case Pass =>
      assert coeffs[..|coeffs|] == coeffs;
      Evaluate(coeffs, |coeffs|, x)
  }

  /** `evaluate_from_root(l, bg, degree, x)`: l*(x - bg[0])*...*(x - bg[degree-1]). */
  function EvaluateFromRoot(l: real, bg: seq<real>, degree: int, x: real): (r: Result<real>)
    requires degree <= |bg|
    ensures degree < 0 <==> r == Err(NegativeDegree)
    ensures degree >= 0 ==> r.Ok? && r.value == l * RootProduct(bg[..degree], x)
    decreases degree
  {
    if degree < 0 then Err(NegativeDegree)
    else if degree == 0 then Ok(l)
    else
      var rest := EvaluateFromRoot(l, bg[1..], degree - 1, x);
      var tail := RootProduct(bg[1..][..degree - 1], x);
      assert bg[..degree][1..] == bg[1..][..degree - 1];
      assert RootProduct(bg[..degree], x) == (x - bg[0]) * tail;
      FactorOut(x - bg[0], l, tail);
      Ok((x - bg[0]) * rest.value)
  }

  lemma {:induction false} FactorOut(a: real, l: real, p: real)
    ensures a * (l * p) == l * (a * p)
  {
  }

  /** `evaluate_from_root(l, roots, x)`: every root of the array is used. */
  function EvaluateFromRootArray(l: real, roots: seq<real>, x: real): (r: real)
    ensures r == l * RootProduct(roots, x)
  {
    assert roots[..|roots|] == roots;
    EvaluateFromRoot(l, roots, |roots|, x).value
  }

  /** Every listed root is a zero of the factored form. */
  lemma {:induction false} RootIsZero(roots: seq<real>, i: int)
    requires 0 <= i < |roots|
    ensures RootProduct(roots, roots[i]) == 0.0
    decreases |roots|
  {
    if i > 0 {
      RootIsZero(roots[1..], i - 1);
    }
  }

  /** Away from its roots the factored form does not vanish. */
  lemma {:induction false} NonRootIsNonZero(roots: seq<real>, x: real)
    requires forall i :: 0 <= i < |roots| ==> roots[i] != x
    ensures RootProduct(roots, x) != 0.0
    decreases |roots|
  {
    if |roots| > 0 {
      NonRootIsNonZero(roots[1..], x);
    }
  }

  /** Evaluating from the roots agrees with expanding the roots into
      coefficients and evaluating those. */
  lemma {:induction false} EvaluateFromRootMatchesCoefficients(l: real, roots: seq<real>, x: real)
    ensures EvaluateArray(BasicOperations.ToCoefficientsArray(l, roots), x).Ok?
            ==> EvaluateArray(BasicOperations.ToCoefficientsArray(l, roots), x).value
                == EvaluateFromRootArray(l, roots, x)
    ensures Horner(BasicOperations.ToCoefficientsArray(l, roots), x) == EvaluateFromRootArray(l, roots, x)
  {
    BasicOperations.ToCoefficientsArrayValue(l, roots, x);
  }
}
