/** The real-valued operations on std::valarray<double> (namespace
    simpoly::op, src/operations.cpp). Multiplication, division, evaluation
    from roots, differentiation and integration compute what the kernel
    routines compute and are modelled by calling them; the sum does not trim,
    array evaluation skips the leading-coefficient check, and find_roots keeps
    the real parts of the roots the complex solver returns. */
module ValarrayOperations {
  import opened Coefficients
  import BasicOperations
  import Calculus
  import Evaluations

  /** `op::add`: copy the shorter operand into a zero array as long as the
      longer one, then add the longer one entrywise; nothing is trimmed. */
  method Add(p1: seq<real>, p2: seq<real>) returns (r: seq<real>)
    ensures r == Sum(p1, p2)
  {
    var longer, shorter := p1, p2;
    if |p1| < |p2| {
      longer, shorter := p2, p1;
    }
    var result := new real[|longer|](_ => 0.0);
    for i := 0 to |shorter|
      invariant forall k :: 0 <= k < i ==> result[k] == shorter[k]
      invariant forall k :: i <= k < |longer| ==> result[k] == 0.0
    {
      result[i] := shorter[i];
    }
    for i := 0 to |longer|
      invariant forall k :: 0 <= k < i ==> result[k] == At(shorter, k) + longer[k]
      invariant forall k :: i <= k < |longer| ==> result[k] == At(shorter, k)
    {
      result[i] := result[i] + longer[i];
    }
    forall k | 0 <= k < |longer|
      ensures result[k] == Sum(p1, p2)[k]
    {
      SumAt(p1, p2, k);
    }
    r := result[..];
  }

  /** The untrimmed sum evaluates to the sum of the values and is longer than
      neither operand by more than the difference of their lengths. */
  lemma {:induction false} AddValue(p1: seq<real>, p2: seq<real>, x: real)
    ensures |Sum(p1, p2)| == Max(|p1|, |p2|)
    ensures Horner(Sum(p1, p2), x) == Horner(p1, x) + Horner(p2, x)
  {
    HornerSum(p1, p2, x);
  }

  /** `op::multiply`: the kernel convolution. */
  method Multiply(p1: seq<real>, p2: seq<real>) returns (res: Result<seq<real>>)
    ensures |p1| == 0 || |p2| == 0 ==> res == Err(ZeroCoeffsLength)
    ensures |p1| > 0 && |p2| > 0 ==> res.Ok? && |res.value| == |p1| + |p2| - 1
    ensures |p1| > 0 && |p2| > 0 ==>
      forall x :: Horner(res.value, x) == Horner(p1, x) * Horner(p2, x)
  {
    res := BasicOperations.Multiply(p1, p2);
    if res.Ok? {
      forall x {
        HornerConvolution(p1, p2, x);
      }
    }
  }

  /** `op::divide(p1, p2, r)`: the kernel long division. */
  method Divide(p1: seq<real>, p2: seq<real>) returns (res: Result<BasicOperations.Division>)
    requires |p1| >= |p2| > 0 ==> p2[|p2| - 1] != 0.0
    ensures |p1| == 0 || |p2| == 0 ==> res == Err(ZeroCoeffsLength)
    ensures |p1| > 0 && |p2| > 0 ==> res.Ok? && BasicOperations.IsDivision(p1, p2, res.value)
    ensures |p1| > 0 && |p2| > 0 ==> forall x ::
      Horner(p1, x) == Horner(res.value.quotient, x) * Horner(p2, x) + Horner(res.value.remainder, x)
  {
    res := BasicOperations.Divide(p1, p2);
    if res.Ok? {
      forall x {
        BasicOperations.DivisionValue(p1, p2, res.value, x);
      }
    }
  }

  /** `op::divide(p1, p2)`: the quotient only. */
  method DivideQuotient(p1: seq<real>, p2: seq<real>) returns (res: Result<seq<real>>)
    requires |p1| >= |p2| > 0 ==> p2[|p2| - 1] != 0.0
    ensures |p1| == 0 || |p2| == 0 ==> res == Err(ZeroCoeffsLength)
    ensures |p1| > 0 && |p2| > 0 ==>
      res.Ok? && exists d :: BasicOperations.IsDivision(p1, p2, d) && d.quotient == res.value
  {
    res := BasicOperations.DivideQuotient(p1, p2);
  }

  /** `op::evaluate(bg, len, x)`: Horner's rule over len coefficients. */
  function Evaluate(bg: seq<real>, len: int, x: real): (r: Result<real>)
    requires len <= |bg|
    ensures len == 0 <==> r == Err(ZeroCoeffsLength)
    ensures len < 0 <==> r == Err(NegativeCoeffsLength)
    ensures len > 0 ==> r.Ok? && r.value == PowerSum(bg[..len], 0, x)
  {
    if len > 0 then
      Evaluations.EvaluateIsPowerSum(bg[..len], x);
      assert bg[..len][..len] == bg[..len];
      Evaluations.Evaluate(bg, len, x)
    else
      Evaluations.Evaluate(bg, len, x)
  }

  /** `op::evaluate(coeffs, x)`: unlike the kernel form there is no check of
      the leading coefficient, only the empty-array error of the pointer form. */
  function EvaluateArray(coeffs: seq<real>, x: real): (r: Result<real>)
    ensures |coeffs| == 0 <==> r == Err(ZeroCoeffsLength)
    ensures |coeffs| > 0 ==> r.Ok? && r.value == Horner(coeffs, x)
  {
    assert coeffs[..|coeffs|] == coeffs;
    Evaluations.Evaluate(coeffs, |coeffs|, x)
  }

  /** Wherever the kernel evaluation accepts the array the two forms agree,
      and the valarray form also accepts arrays the kernel rejects. */
  lemma {:induction false} EvaluateArrayAgrees(coeffs: seq<real>, x: real)
    ensures Evaluations.EvaluateArray(coeffs, x).Ok? ==> EvaluateArray(coeffs, x) == Evaluations.EvaluateArray(coeffs, x)
    ensures |coeffs| > 1 && Abs(coeffs[|coeffs| - 1]) < ZeroTol ==>
      Evaluations.EvaluateArray(coeffs, x).Err? && EvaluateArray(coeffs, x).Ok?
  {
  }

  /** `op::evaluate_root(l, bg, degree, x)`. */
  function EvaluateRoot(l: real, bg: seq<real>, degree: int, x: real): (r: Result<real>)
    requires degree <= |bg|
    ensures degree < 0 <==> r == Err(NegativeDegree)
    ensures 0 <= degree ==> r.Ok? && r.value == l * RootProduct(bg[..degree], x)
    ensures 0 <= degree ==> r.Ok? && (r.value == 0.0 <==> l == 0.0 || x in bg[..degree])
  {
    if degree >= 0 then
      RootProductZeros(bg[..degree], x);
      Evaluations.EvaluateFromRoot(l, bg, degree, x)
    else
      Evaluations.EvaluateFromRoot(l, bg, degree, x)
  }

  /** The factored form vanishes exactly at the listed roots. */
  lemma {:induction false} RootProductZeros(roots: seq<real>, x: real)
    ensures RootProduct(roots, x) == 0.0 <==> x in roots
    decreases |roots|
  {
    if |roots| > 0 {
      RootProductZeros(roots[1..], x);
      assert x in roots <==> x == roots[0] || x in roots[1..];
    }
  }

  /** `op::evaluate_root(l, roots, x)`. */
  function EvaluateRootArray(l: real, roots: seq<real>, x: real): (r: real)
    ensures r == l * RootProduct(roots, x)
    ensures r == 0.0 <==> l == 0.0 || x in roots
  {
    RootProductZeros(roots, x);
    Evaluations.EvaluateFromRootArray(l, roots, x)
  }

  /** `op::derivative`. */
  method Derivative(coeffs: seq<real>) returns (res: Result<seq<real>>)
    ensures |coeffs| == 0 ==> res == Err(ZeroCoeffsLength)
    ensures |coeffs| == 1 ==> res == Ok([0.0])
    ensures |coeffs| > 1 ==> res.Ok? && |res.value| == |coeffs| - 1
    ensures |coeffs| > 1 ==>
      forall i :: 0 <= i < |res.value| ==> res.value[i] == coeffs[i + 1] * ((i + 1) as real)
  {
    res := Calculus.Derivative(coeffs);
    if |coeffs| > 1 {
      forall i | 0 <= i < |res.value|
        ensures res.value[i] == coeffs[i + 1] * ((i + 1) as real)
      {
        Calculus.DerivedAt(coeffs, i);
      }
    }
  }

  /** `op::integral`. */
  method Integral(coeffs: seq<real>) returns (res: Result<seq<real>>)
    ensures |coeffs| == 0 ==> res == Err(ZeroCoeffsLength)
    ensures |coeffs| > 0 ==> res.Ok? && |res.value| == |coeffs| + 1 && res.value[0] == 0.0
    ensures |coeffs| > 0 ==>
      forall i :: 0 < i <= |coeffs| ==> res.value[i] == coeffs[i - 1] / (i as real)
  {
    res := Calculus.Integral(coeffs);
    if |coeffs| > 0 {
      forall i | 0 < i <= |coeffs|
        ensures res.value[i] == coeffs[i - 1] / (i as real)
      {
        Calculus.IntegratedAt(coeffs, i - 1);
      }
    }
  }

  /** `op::find_roots` after the complex solver: a constant has no roots;
      otherwise each root z of the solver's result must have an imaginary part
      below tol, and its real part is kept. The solver's output is the
      parameter z. */
  method FindRoots(coeffs: seq<real>, tol: real, z: seq<Complex>) returns (res: Result<seq<real>>)
    ensures |coeffs| == 1 ==> res == Ok([])
    ensures |coeffs| != 1 ==>
      (res.Err? <==> exists i :: 0 <= i < |z| && Abs(z[i].im) >= tol)
    ensures |coeffs| != 1 && res.Err? ==> res.error == ComplexRoot
    ensures |coeffs| != 1 && res.Ok? ==> res.value == BasicOperations.RealParts(z)
  {
    if |coeffs| == 1 {
      return Ok([]);
    }
    var roots := new real[|z|](_ => 0.0);
    for i := 0 to |z|
      invariant forall k :: 0 <= k < i ==> Abs(z[k].im) < tol && roots[k] == z[k].re
    {
      if Abs(z[i].im) >= tol {
        return Err(ComplexRoot);
      }
      roots[i] := z[i].re;
    }
    forall k | 0 <= k < |z|
      ensures roots[k] == BasicOperations.RealParts(z)[k]
    {
      BasicOperations.RealPartsAt(z, k);
    }
    return Ok(roots[..]);
  }

  /** Real roots handed over as complex numbers come back unchanged. */
  lemma {:induction false} FindRootsOfRealRoots(rts: seq<real>, tol: real)
    requires tol > 0.0
    ensures forall i :: 0 <= i < |rts| ==> Abs(BasicOperations.ToCArry(rts)[i].im) < tol
    ensures BasicOperations.RealParts(BasicOperations.ToCArry(rts)) == rts
  {
    BasicOperations.ToCArryRoundTrip(rts);
  }
}
