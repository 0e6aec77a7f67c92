/** The kernel arithmetic on coefficient arrays (namespace simpoly::basic,
    src/basic/operations.cpp): sums with trailing-entry trimming, scalar
    shifts and scalings, the convolution product, long division, and the
    expansion of a root list into coefficients. The release-mode behaviour
    (checks compiled out by NDEBUG) is not modelled: the checks are. */
module BasicOperations {
  import opened Coefficients

  // ---------------------------------------------------------------------
  // Addition and subtraction

  /** Sum of two coefficient arrays, trailing entries below ZeroTol popped. */
  method Add(p1: seq<real>, p2: seq<real>) returns (r: seq<real>)
    requires Trimmed(Sum(p1, p2)) != []
    ensures r == Trimmed(Sum(p1, p2))
  {
    var sum := PaddedSum(p1, p2);
    r := PopTiny(sum);
  }

  /** The `transform` and `copy` of the sum: the shorter operand added
      entrywise to the longer one, the rest of the longer one copied. */
  method PaddedSum(p1: seq<real>, p2: seq<real>) returns (sum: seq<real>)
    ensures sum == Sum(p1, p2)
  {
    var longer, shorter := p1, p2;
    if |p1| < |p2| {
      longer, shorter := p2, p1;
    }
    var result := new real[|longer|](_ => 0.0);
    var i := 0;
    while i < |shorter|
      invariant 0 <= i <= |shorter|
      invariant forall k :: 0 <= k < i ==> result[k] == shorter[k] + longer[k]
    {
      result[i] := shorter[i] + longer[i];
      i := i + 1;
    }
    while i < |longer|
      invariant |shorter| <= i <= |longer|
      invariant forall k :: 0 <= k < |shorter| ==> result[k] == shorter[k] + longer[k]
      invariant forall k :: |shorter| <= k < i ==> result[k] == longer[k]
    {
      result[i] := longer[i];
      i := i + 1;
    }
    sum := result[..];
    forall k | 0 <= k < |longer|
      ensures sum[k] == Sum(p1, p2)[k]
    {
      SumEntry(p1, p2, longer, shorter, k);
    }
    if |longer| > 0 {
      SumEntry(p1, p2, longer, shorter, 0);
    }
  }

  /** Entry i of the sum, read off the longer and the shorter operand. */
  lemma {:induction false} SumEntry(p1: seq<real>, p2: seq<real>, longer: seq<real>, shorter: seq<real>, i: int)
    requires (longer, shorter) == (p1, p2) || (longer, shorter) == (p2, p1)
    requires |shorter| <= |longer| && 0 <= i < |longer|
    ensures |Sum(p1, p2)| == |longer|
    ensures i < |shorter| ==> Sum(p1, p2)[i] == shorter[i] + longer[i]
    ensures |shorter| <= i ==> Sum(p1, p2)[i] == longer[i]
  {
    SumAt(p1, p2, i);
  }

  /** The trimming loop of the sum: pops trailing entries below ZeroTol. */
  method PopTiny(sum: seq<real>) returns (r: seq<real>)
    requires Trimmed(sum) != []
    ensures r == Trimmed(sum)
  {
    ghost var t := Trimmed(sum);
    var n := |sum|;
    assert sum[..n] == sum;
    while true
      invariant |t| <= n <= |sum|
      invariant Trimmed(sum[..n]) == t
      decreases n
    {
      if Abs(sum[n - 1]) < ZeroTol {
        TrimmedPop(sum[..n]);
        assert sum[..n][..n - 1] == sum[..n - 1];
        n := n - 1;
      } else {
        break;
      }
    }
    TrimmedKeeps(sum[..n]);
    r := sum[..n];
  }

  /** Popping a tiny top entry does not change the trimmed form. */
  lemma {:induction false} TrimmedPop(s: seq<real>)
    requires |s| > 0 && Abs(s[|s| - 1]) < ZeroTol
    ensures Trimmed(s) == Trimmed(s[..|s| - 1])
  {
  }

  /** The sum is symmetric in its two operands. */
  lemma {:induction false} AddCommutes(p1: seq<real>, p2: seq<real>)
    ensures Trimmed(Sum(p1, p2)) == Trimmed(Sum(p2, p1))
  {
    var a, b := Sum(p1, p2), Sum(p2, p1);
    forall i | 0 <= i < |a|
      ensures a[i] == b[i]
    {
      SumAt(p1, p2, i);
      SumAt(p2, p1, i);
    }
    assert a == b;
  }

  /** When the top entry of the sum is significant nothing is trimmed and the
      result evaluates to the sum of the values. */
  lemma {:induction false} AddValue(p1: seq<real>, p2: seq<real>, x: real)
    requires |Sum(p1, p2)| > 0 && Abs(Sum(p1, p2)[|Sum(p1, p2)| - 1]) >= ZeroTol
    ensures Trimmed(Sum(p1, p2)) == Sum(p1, p2)
    ensures Horner(Trimmed(Sum(p1, p2)), x) == Horner(p1, x) + Horner(p2, x)
  {
    HornerSum(p1, p2, x);
  }

  /** The constant coefficient shifted by c (both `p + c` and `c + p`). */
  function AddScalar(p: seq<real>, c: real): (r: seq<real>)
    requires |p| > 0
    ensures |r| == |p| && r[0] == p[0] + c
    ensures forall i :: 0 < i < |p| ==> r[i] == p[i]
  {
    p[0 := p[0] + c]
  }

  /** A scalar shift moves the value of the polynomial by c everywhere. */
  lemma {:induction false} AddScalarValue(p: seq<real>, c: real, x: real)
    requires |p| > 0
    ensures Horner(AddScalar(p, c), x) == Horner(p, x) + c
  {
    assert AddScalar(p, c)[1..] == p[1..];
  }

  /** p1 - p2, computed as p1 + (-1)*p2 and trimmed. */
  method Subtract(p1: seq<real>, p2: seq<real>) returns (r: seq<real>)
    requires Trimmed(Sum(p1, Scaled(p2, -1.0))) != []
    ensures r == Trimmed(Sum(p1, Scaled(p2, -1.0)))
  {
    var negated := MultiplyScalar(p2, -1.0);
    r := Add(p1, negated);
  }

  /** Without trimming, the difference evaluates to the difference of the values. */
  lemma {:induction false} SubtractValue(p1: seq<real>, p2: seq<real>, x: real)
    requires |Sum(p1, Scaled(p2, -1.0))| > 0
    requires Abs(Sum(p1, Scaled(p2, -1.0))[|Sum(p1, Scaled(p2, -1.0))| - 1]) >= ZeroTol
    ensures Horner(Trimmed(Sum(p1, Scaled(p2, -1.0))), x) == Horner(p1, x) - Horner(p2, x)
  {
    var negated := Scaled(p2, -1.0);
    HornerScaled(p2, -1.0, x);
    assert Horner(negated, x) == -Horner(p2, x);
    AddValue(p1, negated, x);
  }

  /** p - c. */
  function SubtractScalar(p: seq<real>, c: real): (r: seq<real>)
    requires |p| > 0
    ensures |r| == |p|
  {
    AddScalar(p, -c)
  }

  lemma {:induction false} SubtractScalarValue(p: seq<real>, c: real, x: real)
    requires |p| > 0
    ensures Horner(SubtractScalar(p, c), x) == Horner(p, x) - c
  {
    AddScalarValue(p, -c, x);
  }

  /** c - p, computed as c + (-1)*p. */
  method SubtractFromScalar(c: real, p: seq<real>) returns (r: seq<real>)
    requires |p| > 0
    ensures r == AddScalar(Scaled(p, -1.0), c)
  {
    var negated := MultiplyScalar(p, -1.0);
    r := AddScalar(negated, c);
  }

  lemma {:induction false} SubtractFromScalarValue(c: real, p: seq<real>, x: real)
    requires |p| > 0
    ensures Horner(AddScalar(Scaled(p, -1.0), c), x) == c - Horner(p, x)
  {
    AddScalarValue(Scaled(p, -1.0), c, x);
    HornerScaled(p, -1.0, x);
  }

  // ---------------------------------------------------------------------
  // Multiplication

  /** Every coefficient multiplied by c (both `p * c` and `c * p`). */
  method MultiplyScalar(p: seq<real>, c: real) returns (r: seq<real>)
    ensures r == Scaled(p, c)
  {
    var result := new real[|p|](i requires 0 <= i < |p| => p[i]);
    for i := 0 to |p|
      invariant forall k :: 0 <= k < i ==> result[k] == p[k] * c
      invariant forall k :: i <= k < |p| ==> result[k] == p[k]
    {
      result[i] := result[i] * c;
    }
    forall k | 0 <= k < |p|
      ensures result[k] == Scaled(p, c)[k]
    {
      ScaledAt(p, c, k);
    }
    r := result[..];
  }

  /** The product of two coefficient arrays; an empty operand is an error. */
  method Multiply(p1: seq<real>, p2: seq<real>) returns (res: Result<seq<real>>)
    ensures |p1| == 0 || |p2| == 0 ==> res == Err(ZeroCoeffsLength)
    ensures |p1| > 0 && |p2| > 0 ==> res == Ok(Convolution(p1, p2))
  {
    if |p1| == 0 || |p2| == 0 {
      return Err(ZeroCoeffsLength);
    }
    var len := |p1| + |p2| - 1;
    var result := new real[len](_ => 0.0);
    for i := 0 to |p1|
      invariant forall k :: 0 <= k < len ==> result[k] == ConvAt(p1[..i], p2, k)
    {
      var c := p1[i];
      for j := 0 to |p2|
        invariant forall k :: 0 <= k < len ==>
          result[k] == ConvAt(p1[..i], p2, k) + (if k < i + j then c * At(p2, k - i) else 0.0)
      {
        result[i + j] := c * p2[j] + result[i + j];
      }
      forall k | 0 <= k < len
        ensures result[k] == ConvAt(p1[..i + 1], p2, k)
      {
        assert p1[..i + 1] == p1[..i] + [c];
        ConvAtSnoc(p1[..i], c, p2, k);
      }
    }
    forall k | 0 <= k < len
      ensures result[k] == Convolution(p1, p2)[k]
    {
      assert p1[..|p1|] == p1;
      ConvolutionAt(p1, p2, k);
    }
    assert result[..] == Convolution(p1, p2);
    return Ok(result[..]);
  }

  /** The product evaluates to the product of the values. */
  lemma {:induction false} MultiplyValue(p1: seq<real>, p2: seq<real>, x: real)
    requires |p1| > 0 && |p2| > 0
    ensures Horner(Convolution(p1, p2), x) == Horner(p1, x) * Horner(p2, x)
  {
    HornerConvolution(p1, p2, x);
  }

  // ---------------------------------------------------------------------
  // Division

  datatype Division = Division(quotient: seq<real>, remainder: seq<real>)

  /** What long division promises: p1 == Q*p2 + R with R shorter than p2,
      or Q == [0] and R == p1 when p2 is the longer operand. */
  predicate IsDivision(p1: seq<real>, p2: seq<real>, d: Division)
    requires |p2| > 0
  {
    if |p1| < |p2| then d.quotient == [0.0] && d.remainder == p1
    else
      && |d.quotient| == |p1| - |p2| + 1
      && |d.remainder| == |p2| - 1
      && Sum(Convolution(d.quotient, p2), d.remainder) == p1
  }

  /** A zero quotient contributes nothing. */
  lemma {:induction false} ConvAtZero(p: seq<real>, q: seq<real>, k: int)
    requires forall i :: 0 <= i < |p| ==> p[i] == 0.0
    ensures ConvAt(p, q, k) == 0.0
    decreases |p|
  {
    if |p| > 0 && k >= 0 {
      ConvAtZero(p[1..], q, k - 1);
    }
  }

  lemma {:induction false} CancelDivision(a: real, c: real)
    requires c != 0.0
    ensures a - c * (a / c) == 0.0
  {
  }

  /** The running remainder after `factor * p2`, shifted by qi, is
      subtracted from it. */
  function Subtracted(r: seq<real>, p2: seq<real>, qi: nat, factor: real): (s: seq<real>)
    ensures |s| == |r|
  {
    seq(|r|, k requires 0 <= k < |r| => if qi <= k < qi + |p2| then r[k] - p2[k - qi] * factor else r[k])
  }

  /** The loop invariant of long division: the quotient entries not yet
      computed are 0, the running remainder r is 0 above entry qi + |p2| - 1,
      and Q*p2 + r == p1 entry by entry. */
  predicate DivisionInvariant(p1: seq<real>, p2: seq<real>, q: seq<real>, r: seq<real>, qi: int)
  {
    && 0 < |p2| <= |p1| && |r| == |p1| && |q| == |p1| - |p2| + 1 && -1 <= qi < |q|
    && (forall k :: 0 <= k <= qi ==> q[k] == 0.0)
    && (forall k :: qi + |p2| <= k < |p1| ==> r[k] == 0.0)
    && (forall k :: 0 <= k < |p1| ==> p1[k] == r[k] + ConvAt(q, p2, k))
  }

  /** One elimination step of long division: with factor = r0[top] / c the
      running remainder loses its top entry and Q*p2 + R stays equal to p1. */
  lemma {:induction false} DivideStep(p1: seq<real>, p2: seq<real>, q0: seq<real>, r0: seq<real>, qi: int,
                                      factor: real, q1: seq<real>, r1: seq<real>)
    requires DivisionInvariant(p1, p2, q0, r0, qi) && qi >= 0 && p2[|p2| - 1] != 0.0
    requires factor == r0[qi + |p2| - 1] / p2[|p2| - 1]
    requires q1 == q0[qi := factor] && r1 == Subtracted(r0, p2, qi, factor)
    ensures DivisionInvariant(p1, p2, q1, r1, qi - 1)
  {
    forall k | qi - 1 + |p2| <= k < |p1|
      ensures r1[k] == 0.0
    {
      SubtractedAt(r0, p2, qi, factor, k);
      if k == qi + |p2| - 1 {
        CancelDivision(r0[k], p2[|p2| - 1]);
      }
    }
    forall k | 0 <= k < |p1|
      ensures p1[k] == r1[k] + ConvAt(q1, p2, k)
    {
      SubtractedAt(r0, p2, qi, factor, k);
      EntryKept(p2, q0, qi, factor, q1, k, p1[k], r0[k], r1[k]);
    }
  }

  /** Entry k of the subtracted remainder, with p2 read as 0 outside. */
  lemma {:induction false} SubtractedAt(r: seq<real>, p2: seq<real>, qi: nat, factor: real, k: int)
    requires 0 <= k < |r|
    ensures Subtracted(r, p2, qi, factor)[k] == r[k] - At(p2, k - qi) * factor
  {
  }

  /** Moving factor * x^qi * p2 from the remainder to the quotient keeps
      entry k of Q*p2 + R. */
  lemma {:induction false} EntryKept(p2: seq<real>, q0: seq<real>, qi: nat, factor: real, q1: seq<real>, k: int,
                                     p1k: real, r0k: real, r1k: real)
    requires qi < |q0| && q0[qi] == 0.0 && q1 == q0[qi := factor]
    requires p1k == r0k + ConvAt(q0, p2, k) && r1k == r0k - At(p2, k - qi) * factor
    ensures p1k == r1k + ConvAt(q1, p2, k)
  {
    ConvAtUpdate(q0, qi, factor, p2, k);
  }

  /** When the loop ends the first |p2| - 1 entries of the running remainder
      are the remainder proper. */
  lemma {:induction false} DivideDone(p1: seq<real>, p2: seq<real>, q: seq<real>, r: seq<real>)
    requires DivisionInvariant(p1, p2, q, r, -1)
    ensures Sum(Convolution(q, p2), r[..|p2| - 1]) == p1
  {
    var s := Sum(Convolution(q, p2), r[..|p2| - 1]);
    forall k | 0 <= k < |p1|
      ensures s[k] == p1[k]
    {
      SumAt(Convolution(q, p2), r[..|p2| - 1], k);
      ConvolutionAt(q, p2, k);
    }
  }

  /** r[qi + j] -= p2[j] * factor for every j: the transform inside the division loop. */
  method SubtractShifted(r: array<real>, p2: seq<real>, qi: nat, factor: real)
    requires qi + |p2| <= r.Length
    modifies r
    ensures r[..] == Subtracted(old(r[..]), p2, qi, factor)
  {
    ghost var r0 := r[..];
    for j := 0 to |p2|
      invariant forall k :: qi <= k < qi + j ==> r[k] == r0[k] - p2[k - qi] * factor
      invariant forall k :: 0 <= k < qi || qi + j <= k < r.Length ==> r[k] == r0[k]
    {
      r[qi + j] := r[qi + j] - p2[j] * factor;
    }
    assert forall k :: 0 <= k < r.Length ==> r[k] == Subtracted(r0, p2, qi, factor)[k];
  }

  /** Long division of p1 by p2, eliminating the top entry of the running
      remainder once per quotient coefficient. */
  method Divide(p1: seq<real>, p2: seq<real>) returns (res: Result<Division>)
    requires |p1| >= |p2| > 0 ==> p2[|p2| - 1] != 0.0
    ensures |p1| == 0 || |p2| == 0 ==> res == Err(ZeroCoeffsLength)
    ensures |p1| > 0 && |p2| > 0 ==> res.Ok? && IsDivision(p1, p2, res.value)
  {
    if |p1| == 0 || |p2| == 0 {
      return Err(ZeroCoeffsLength);
    }
    if |p1| < |p2| {
      return Ok(Division([0.0], p1));
    }
    var m := |p2|;
    var len := |p1| - m + 1;
    var r := new real[|p1|](i requires 0 <= i < |p1| => p1[i]);
    var q := new real[len](_ => 0.0);
    var c := p2[m - 1];
    var qi := len - 1;
    forall k | 0 <= k < |p1|
      ensures ConvAt(q[..], p2, k) == 0.0
    {
      ConvAtZero(q[..], p2, k);
    }
    while qi >= 0
      invariant DivisionInvariant(p1, p2, q[..], r[..], qi)
      decreases qi
    {
      var ri := qi + m - 1;
      var factor := r[ri] / c;
      ghost var q0, r0 := q[..], r[..];
      q[qi] := factor;
      SubtractShifted(r, p2, qi, factor);
      assert q[..] == q0[qi := factor];
      DivideStep(p1, p2, q0, r0, qi, factor, q[..], r[..]);
      qi := qi - 1;
    }
    var quotient, remainder := q[..], r[..m - 1];
    DivideDone(p1, p2, quotient, r[..]);
    return Ok(Division(quotient, remainder));
  }

  /** The quotient alone (the two-argument `divide`). */
  method DivideQuotient(p1: seq<real>, p2: seq<real>) returns (res: Result<seq<real>>)
    requires |p1| >= |p2| > 0 ==> p2[|p2| - 1] != 0.0
    ensures |p1| == 0 || |p2| == 0 ==> res == Err(ZeroCoeffsLength)
    ensures |p1| > 0 && |p2| > 0 ==>
      res.Ok? && exists d :: IsDivision(p1, p2, d) && d.quotient == res.value
  {
    var full := Divide(p1, p2);
    if full.Err? {
      return Err(full.error);
    }
    return Ok(full.value.quotient);
  }

  /** Division is exact on values: p1(x) == Q(x)*p2(x) + R(x). */
  lemma {:induction false} DivisionValue(p1: seq<real>, p2: seq<real>, d: Division, x: real)
    requires |p2| > 0 && IsDivision(p1, p2, d)
    ensures Horner(p1, x) == Horner(d.quotient, x) * Horner(p2, x) + Horner(d.remainder, x)
  {
    if |p1| < |p2| {
      assert Horner(d.quotient, x) == 0.0 + x * Horner([], x);
    } else {
      HornerSum(Convolution(d.quotient, p2), d.remainder, x);
      HornerConvolution(d.quotient, p2, x);
    }
  }

  /** Entry k of p1 is entry k of Q*p2 plus entry k of R. */
  lemma {:induction false} DivisionEntry(p1: seq<real>, p2: seq<real>, d: Division, k: int)
    requires 0 < |p2| <= |p1| && IsDivision(p1, p2, d) && 0 <= k < |p1|
    ensures p1[k] == ConvAt(d.quotient, p2, k) + At(d.remainder, k)
  {
    SumAt(Convolution(d.quotient, p2), d.remainder, k);
    ConvolutionAt(d.quotient, p2, k);
  }

  /** Entrywise difference of two arrays of the same length. */
  function Difference(a: seq<real>, b: seq<real>): (d: seq<real>)
    requires |a| == |b|
    ensures |d| == |a|
  {
    seq(|a|, i requires 0 <= i < |a| => a[i] - b[i])
  }

  /** The product coefficient is linear in its first factor. */
  lemma {:induction false} ConvAtDifference(a: seq<real>, b: seq<real>, q: seq<real>, k: int)
    requires |a| == |b|
    ensures ConvAt(a, q, k) - ConvAt(b, q, k) == ConvAt(Difference(a, b), q, k)
    decreases |a|
  {
    if |a| > 0 && k >= 0 {
      var d := Difference(a, b);
      assert d[1..] == Difference(a[1..], b[1..]);
      ConvAtDifference(a[1..], b[1..], q, k - 1);
      ConvAtUnfold(a, q, k);
      ConvAtUnfold(b, q, k);
      ConvAtUnfold(d, q, k);
      assert d[0] * At(q, k) == a[0] * At(q, k) - b[0] * At(q, k);
    }
  }

  /** When d[t] is the last nonzero entry of d, the product of d and q has
      d[t] * q[last] at index t + |q| - 1. */
  lemma {:induction false} ConvAtTopEntry(d: seq<real>, q: seq<real>, t: int)
    requires |q| > 0 && 0 <= t < |d|
    requires forall j :: t < j < |d| ==> d[j] == 0.0
    ensures ConvAt(d, q, t + |q| - 1) == d[t] * q[|q| - 1]
    decreases t
  {
    ConvAtUnfold(d, q, t + |q| - 1);
    if t == 0 {
      ConvAtZero(d[1..], q, |q| - 2);
    } else {
      assert forall j :: t - 1 < j < |d| - 1 ==> d[1..][j] == d[j + 1];
      ConvAtTopEntry(d[1..], q, t - 1);
    }
  }

  /** Two quotients whose products with p2 agree from index |p2| - 1 upwards
      agree from index t upwards. */
  lemma {:induction false} QuotientsAgree(q1: seq<real>, q2: seq<real>, p2: seq<real>, t: nat)
    requires |q1| == |q2| && |p2| > 0 && p2[|p2| - 1] != 0.0 && t <= |q1|
    requires forall k :: |p2| - 1 <= k < |q1| + |p2| - 1 ==> ConvAt(q1, p2, k) == ConvAt(q2, p2, k)
    ensures forall j :: t <= j < |q1| ==> q1[j] == q2[j]
    decreases |q1| - t
  {
    if t < |q1| {
      QuotientsAgree(q1, q2, p2, t + 1);
      var d := Difference(q1, q2);
      ConvAtTopEntry(d, p2, t);
      ConvAtDifference(q1, q2, p2, t + |p2| - 1);
      assert d[t] * p2[|p2| - 1] == 0.0;
    }
  }

  /** The quotient and remainder are unique: two divisions of p1 by a p2 with
      a nonzero top coefficient are the same division. */
  lemma {:induction false} DivisionUnique(p1: seq<real>, p2: seq<real>, d1: Division, d2: Division)
    requires |p2| > 0 && p2[|p2| - 1] != 0.0
    requires IsDivision(p1, p2, d1) && IsDivision(p1, p2, d2)
    ensures d1 == d2
  {
    if |p1| >= |p2| {
      forall k | |p2| - 1 <= k < |d1.quotient| + |p2| - 1
        ensures ConvAt(d1.quotient, p2, k) == ConvAt(d2.quotient, p2, k)
      {
        DivisionEntry(p1, p2, d1, k);
        DivisionEntry(p1, p2, d2, k);
      }
      QuotientsAgree(d1.quotient, d2.quotient, p2, 0);
      assert d1.quotient == d2.quotient;
      forall k | 0 <= k < |p2| - 1
        ensures d1.remainder[k] == d2.remainder[k]
      {
        DivisionEntry(p1, p2, d1, k);
        DivisionEntry(p1, p2, d2, k);
      }
      assert d1.remainder == d2.remainder;
    }
  }

  /** The product the multiplication tests expect: 3x^2 (7 - 5x + 4x^2). */
  lemma {:induction false} MultiplyExample()
    ensures Convolution([0.0, 0.0, 3.0], [7.0, -5.0, 4.0]) == [0.0, 0.0, 21.0, -15.0, 12.0]
  {
    var p, q := [0.0, 0.0, 3.0], [7.0, -5.0, 4.0];
    var c := Convolution(p, q);
    forall k | 0 <= k < 5
      ensures c[k] == [0.0, 0.0, 21.0, -15.0, 12.0][k]
    {
      ConvolutionAt(p, q, k);
      assert p[1..] == [0.0, 3.0] && p[1..][1..] == [3.0] && p[1..][1..][1..] == [];
    }
  }

  /** The division the tests expect: x^2 - 9x - 10 == (x - 10)(x + 1) + 0, and
      no other quotient and remainder are possible. */
  lemma {:induction false} DivideExample(d: Division)
    requires IsDivision([-10.0, -9.0, 1.0], [1.0, 1.0], d)
    ensures d == Division([-10.0, 1.0], [0.0])
  {
    var p1, p2, e := [-10.0, -9.0, 1.0], [1.0, 1.0], Division([-10.0, 1.0], [0.0]);
    var c := Convolution(e.quotient, p2);
    forall k | 0 <= k < 3
      ensures c[k] == [-10.0, -9.0, 1.0][k]
    {
      ConvolutionAt(e.quotient, p2, k);
      assert e.quotient[1..] == [1.0] && e.quotient[1..][1..] == [];
    }
    assert c == [-10.0, -9.0, 1.0];
    assert Sum(c, e.remainder) == p1;
    DivisionUnique(p1, p2, d, e);
  }

  /** Every coefficient divided by c. */
  method DivideScalar(p: seq<real>, c: real) returns (r: seq<real>)
    requires |p| > 0 ==> c != 0.0
    ensures r == Divided(p, c)
  {
    var result := new real[|p|](i requires 0 <= i < |p| => p[i]);
    for i := 0 to |p|
      invariant forall k :: 0 <= k < i ==> result[k] == p[k] / c
      invariant forall k :: i <= k < |p| ==> result[k] == p[k]
    {
      result[i] := result[i] / c;
    }
    forall k | 0 <= k < |p|
      ensures result[k] == Divided(p, c)[k]
    {
      DividedAt(p, c, k);
    }
    r := result[..];
  }

  // ---------------------------------------------------------------------
  // Conversions

  /** Real coefficients as complex ones with zero imaginary parts. */
  function ToCArry(p: seq<real>): (r: seq<Complex>)
    ensures |r| == |p|
    ensures forall i :: 0 <= i < |p| ==> r[i].im == 0.0
  {
    if |p| == 0 then [] else [Complex(p[0], 0.0)] + ToCArry(p[1..])
  }

  function RealParts(z: seq<Complex>): (r: seq<real>)
    ensures |r| == |z|
  {
    if |z| == 0 then [] else [z[0].re] + RealParts(z[1..])
  }

  lemma {:induction false} RealPartsAt(z: seq<Complex>, i: int)
    requires 0 <= i < |z|
    ensures RealParts(z)[i] == z[i].re
    decreases |z|
  {
    if i > 0 {
      RealPartsAt(z[1..], i - 1);
    }
  }

  /** The complex copy loses nothing: its real parts are the original array. */
  lemma {:induction false} ToCArryRoundTrip(p: seq<real>)
    ensures RealParts(ToCArry(p)) == p
    decreases |p|
  {
    if |p| > 0 {
      ToCArryRoundTrip(p[1..]);
      assert [p[0]] + p[1..] == p;
    }
  }

  /** Coefficients of l*(x - rts[0])*...*(x - rts[len-1]): the pointer form,
      reading len roots from the buffer rts. */
  function ToCoefficients(l: real, rts: seq<real>, len: int): (r: Result<seq<real>>)
    requires len <= |rts|
    ensures len < 0 <==> r == Err(NegativeCoeffsLength)
    ensures len >= 0 ==> r.Ok? && |r.value| == len + 1 && r.value[len] == l
    decreases len
  {
    if len < 0 then Err(NegativeCoeffsLength)
    else if len == 0 then Ok([l])
    else
      var rest := ToCoefficients(l, rts[1..], len - 1).value;
      ConvAtLinear(-rts[0], 1.0, rest, len);
      ConvolutionAt([-rts[0], 1.0], rest, len);
      Ok(Convolution([-rts[0], 1.0], rest))
  }

  /** The expanded coefficients evaluate to the factored form. */
  lemma {:induction false} ToCoefficientsValue(l: real, rts: seq<real>, len: nat, x: real)
    requires len <= |rts|
    ensures Horner(ToCoefficients(l, rts, len).value, x) == l * RootProduct(rts[..len], x)
  {
    ToCoefficientsFactored(l, rts, len, x);
    FactoredIsScaled(l, rts[..len], x);
  }

  /** The expansion evaluates to the factored form over the first len roots. */
  lemma {:induction false} ToCoefficientsFactored(l: real, rts: seq<real>, len: nat, x: real)
    requires len <= |rts|
    ensures Horner(ToCoefficients(l, rts, len).value, x) == Factored(l, rts[..len], x)
    decreases len
  {
    if len == 0 {
      assert Horner([l], x) == l + x * Horner([], x);
    } else {
      var tail := rts[1..];
      ToCoefficientsFactored(l, tail, len - 1, x);
      ToCoefficientsFactoredStep(l, rts, len, x, ToCoefficients(l, rts, len).value, ToCoefficients(l, tail, len - 1).value);
    }
  }

  lemma {:induction false} ToCoefficientsFactoredStep(l: real, rts: seq<real>, len: nat, x: real, c: seq<real>, rest: seq<real>)
    requires 0 < len <= |rts|
    requires c == ToCoefficients(l, rts, len).value && rest == ToCoefficients(l, rts[1..], len - 1).value
    requires Horner(rest, x) == Factored(l, rts[1..][..len - 1], x)
    ensures Horner(c, x) == Factored(l, rts[..len], x)
  {
    var lin := [-rts[0], 1.0];
    assert c == Convolution(lin, rest);
    RootFactorTimes(lin, rest, rts[0], x);
    assert rts[..len][1..] == rts[1..][..len - 1];
  }

  /** Multiplying by the coefficients of x - r multiplies the value by x - r. */
  lemma {:induction false} RootFactorTimes(lin: seq<real>, rest: seq<real>, r: real, x: real)
    requires lin == [-r, 1.0] && |rest| > 0
    ensures Horner(Convolution(lin, rest), x) == (x - r) * Horner(rest, x)
  {
    HornerConvolution(lin, rest, x);
    HornerLinear(-r, 1.0, x);
  }

  /** The array form: every root of rts is used. */
  function ToCoefficientsArray(l: real, rts: seq<real>): (r: seq<real>)
    ensures |r| == |rts| + 1 && r[|rts|] == l
  {
    ToCoefficients(l, rts, |rts|).value
  }

  lemma {:induction false} ToCoefficientsArrayValue(l: real, rts: seq<real>, x: real)
    ensures Horner(ToCoefficientsArray(l, rts), x) == l * RootProduct(rts, x)
  {
    ToCoefficientsValue(l, rts, |rts|, x);
    assert rts[..|rts|] == rts;
  }
}
