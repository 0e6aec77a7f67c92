/** Dense coefficient arrays: index i holds the coefficient of x^i.

    This module holds the mathematical meaning that the kernel routines are
    proved against: zero-padded sums, scalings, the convolution product,
    trailing-entry trimming and Horner evaluation, together with the algebra
    that connects them (evaluation turns sums into sums and convolutions into
    products). */
module Coefficients {

  /** The error kinds the kernel raises (the exception classes of exceptions.h). */
  datatype Error =
    | ZeroCoeffsLength
    | NegativeCoeffsLength
    | ZeroLeadingCoeff
    | NegativeDegree
    | JacobiParameters
    | IllegalType
    | ComplexRoot

  datatype Result<T> = Ok(value: T) | Err(error: Error)

  /** Outcome of a routine that changes state and may throw. */
  datatype Outcome = Pass | Fail(error: Error)

  datatype Complex = Complex(re: real, im: real)

  /** The absolute 1e-12 threshold below which the kernel treats a coefficient as zero. */
  const ZeroTol: real := 0.000000000001

  function Abs(x: real): real { if x < 0.0 then -x else x }

  function Max(a: nat, b: nat): nat { if a < b then b else a }

  /** Sign(n) is (-1)^n. */
  function Sign(n: nat): real { if n % 2 == 0 then 1.0 else -1.0 }

  lemma {:induction false} SignFlips(i: nat)
    ensures Sign(i + 1) == -Sign(i)
  {
  }

  function Pow(x: real, n: nat): real { if n == 0 then 1.0 else x * Pow(x, n - 1) }

  /** Coefficient i of p, with p extended by zeros on both sides. */
  function At(p: seq<real>, i: int): real { if 0 <= i < |p| then p[i] else 0.0 }

  function Tail(p: seq<real>): seq<real> { if |p| == 0 then [] else p[1..] }

  /** Zero-padded entrywise sum: the polynomial p + q before any trimming. */
  function Sum(p: seq<real>, q: seq<real>): (s: seq<real>)
    ensures |s| == Max(|p|, |q|)
    decreases |p| + |q|
  {
    if |p| == 0 then q
    else if |q| == 0 then p
    else [p[0] + q[0]] + Sum(p[1..], q[1..])
  }

  /** Every entry multiplied by c (the scalar `it *= c`). */
  function Scaled(p: seq<real>, c: real): (s: seq<real>)
    ensures |s| == |p|
  {
    if |p| == 0 then [] else [p[0] * c] + Scaled(p[1..], c)
  }

  /** Every entry divided by c (the scalar `it /= c`). */
  function Divided(p: seq<real>, c: real): (s: seq<real>)
    requires |p| > 0 ==> c != 0.0
    ensures |s| == |p|
  {
    if |p| == 0 then [] else [p[0] / c] + Divided(p[1..], c)
  }

  /** Pops trailing entries of magnitude below ZeroTol. */
  function Trimmed(s: seq<real>): (t: seq<real>)
    ensures |t| <= |s| && t == s[..|t|]
    ensures |t| > 0 ==> Abs(t[|t| - 1]) >= ZeroTol
    ensures forall i :: |t| <= i < |s| ==> Abs(s[i]) < ZeroTol
    decreases |s|
  {
    if |s| > 0 && Abs(s[|s| - 1]) < ZeroTol then Trimmed(s[..|s| - 1]) else s
  }

  /** Coefficient k of the product of p and q: the sum of p[i]*q[j] over i + j == k. */
  function ConvAt(p: seq<real>, q: seq<real>, k: int): real
    decreases |p|
  {
    if |p| == 0 || k < 0 then 0.0
    else p[0] * At(q, k) + ConvAt(p[1..], q, k - 1)
  }

  lemma {:induction false} ConvAtUnfold(p: seq<real>, q: seq<real>, k: int)
    requires |p| > 0 && k >= 0
    ensures ConvAt(p, q, k) == p[0] * At(q, k) + ConvAt(p[1..], q, k - 1)
  {
  }

  /** The coefficient array of the product polynomial: p[0]*q plus x*(p[1..]*q). */
  function Convolution(p: seq<real>, q: seq<real>): (r: seq<real>)
    requires |p| > 0 && |q| > 0
    ensures |r| == |p| + |q| - 1
    decreases |p|
  {
    if |p| == 1 then Scaled(q, p[0])
    else Sum(Scaled(q, p[0]), [0.0] + Convolution(p[1..], q))
  }

  /** Horner's rule: c[0] + x*(c[1] + x*(c[2] + ...)). */
  function Horner(c: seq<real>, x: real): real
  {
    if |c| == 0 then 0.0 else c[0] + x * Horner(c[1..], x)
  }

  /** The monomial sum c[0]*x^e + c[1]*x^(e+1) + ... : evaluation term by term. */
  function PowerSum(c: seq<real>, e: nat, x: real): real
  {
    if |c| == 0 then 0.0 else c[0] * Pow(x, e) + PowerSum(c[1..], e + 1, x)
  }

  /** The product (x - r[0]) * ... * (x - r[n-1]). */
  function RootProduct(r: seq<real>, x: real): real
  {
    if |r| == 0 then 1.0 else (x - r[0]) * RootProduct(r[1..], x)
  }

  // ---------------------------------------------------------------------
  // Trimming

  /** Trimming changes nothing when the last entry is significant. */
  lemma {:induction false} TrimmedKeeps(s: seq<real>)
    requires |s| > 0 && Abs(s[|s| - 1]) >= ZeroTol
    ensures Trimmed(s) == s
  {
  }

  /** Trimming leaves a non-empty array exactly when some entry is significant. */
  lemma {:induction false} TrimmedNonEmpty(s: seq<real>, i: int)
    requires 0 <= i < |s| && Abs(s[i]) >= ZeroTol
    ensures |Trimmed(s)| > i
  {
  }

  // ---------------------------------------------------------------------
  // Convolution algebra

  lemma {:induction false} ConvAtEmptyRight(p: seq<real>, k: int)
    ensures ConvAt(p, [], k) == 0.0
    decreases |p|
  {
    if |p| > 0 && k >= 0 {
      ConvAtEmptyRight(p[1..], k - 1);
    }
  }

  /** ConvAt is zero outside the index range of the product. */
  lemma {:induction false} ConvAtOutside(p: seq<real>, q: seq<real>, k: int)
    requires k >= |p| + |q| - 1
    ensures ConvAt(p, q, k) == 0.0
    decreases |p|
  {
    if |p| > 0 && k >= 0 {
      ConvAtOutside(p[1..], q, k - 1);
    }
  }

  /** The product coefficient is symmetric in its two factors. */
  lemma {:induction false} ConvAtCommutes(p: seq<real>, q: seq<real>, k: int)
    ensures ConvAt(p, q, k) == ConvAt(q, p, k)
    decreases |p| + |q|
  {
    if |p| == 0 || k < 0 {
      ConvAtEmptyRight(q, k);
    } else if |q| == 0 {
      ConvAtEmptyRight(p, k);
    } else if k == 0 {
      ConvAtUnfold(p, q, 0);
      ConvAtUnfold(q, p, 0);
    } else {
      ConvAtCommutes(p[1..], q, k - 1);
      ConvAtCommutes(q[1..], p, k - 1);
      ConvAtCommutes(q[1..], p[1..], k - 2);
      ConvAtExpand(p, q, k);
      ConvAtExpand(q, p, k);
    }
  }

  /** Two levels of ConvAt, with the inner level already commuted. */
  lemma {:induction false} ConvAtExpand(p: seq<real>, q: seq<real>, k: int)
    requires |p| > 0 && |q| > 0 && k > 0
    requires ConvAt(p[1..], q, k - 1) == ConvAt(q, p[1..], k - 1)
    ensures ConvAt(p, q, k) == p[0] * At(q, k) + q[0] * At(p, k) + ConvAt(q[1..], p[1..], k - 2)
  {
    ConvAtUnfold(p, q, k);
    ConvAtUnfold(q, p[1..], k - 1);
    assert At(p[1..], k - 1) == At(p, k);
  }

  /** Appending a coefficient to p adds one row of the product. */
  lemma {:induction false} ConvAtSnoc(p: seq<real>, a: real, q: seq<real>, k: int)
    ensures ConvAt(p + [a], q, k) ==
      ConvAt(p, q, k) + a * At(q, k - |p|)
    decreases |p|
  {
    if |p| == 0 {
      assert ([] + [a])[1..] == [];
    } else if k >= 0 {
      assert (p + [a])[1..] == p[1..] + [a];
      ConvAtSnoc(p[1..], a, q, k - 1);
    }
  }

  /** Setting a zero coefficient p[m] to v adds v times q shifted by m. */
  lemma {:induction false} ConvAtUpdate(p: seq<real>, m: nat, v: real, q: seq<real>, k: int)
    requires m < |p| && p[m] == 0.0
    ensures ConvAt(p[m := v], q, k) ==
      ConvAt(p, q, k) + v * At(q, k - m)
    decreases |p|
  {
    if k >= 0 {
      if m == 0 {
        assert p[m := v][1..] == p[1..];
      } else {
        assert p[m := v][1..] == p[1..][m - 1 := v];
        ConvAtUpdate(p[1..], m - 1, v, q, k - 1);
      }
    }
  }

  /** Entry k of the product is the sum of p[i]*q[j] over i + j == k. */
  lemma {:induction false} ConvolutionAt(p: seq<real>, q: seq<real>, k: int)
    requires |p| > 0 && |q| > 0 && 0 <= k < |p| + |q| - 1
    ensures Convolution(p, q)[k] == ConvAt(p, q, k)
    decreases |p|
  {
    if |p| == 1 {
      ConvolutionAtSingle(p, q, k);
    } else {
      if k > 0 {
        ConvolutionAt(p[1..], q, k - 1);
      }
      ConvolutionAtCons(p, q, k);
    }
  }

  lemma {:induction false} ConvolutionAtSingle(p: seq<real>, q: seq<real>, k: int)
    requires |p| == 1 && 0 <= k < |q|
    ensures Convolution(p, q)[k] == ConvAt(p, q, k)
  {
    ConvAtUnfold(p, q, k);
    ScaledAt(q, p[0], k);
    assert ConvAt(p[1..], q, k - 1) == 0.0;
  }

  lemma {:induction false} ConvolutionAtCons(p: seq<real>, q: seq<real>, k: int)
    requires |p| >= 2 && |q| > 0 && 0 <= k < |p| + |q| - 1
    requires k > 0 ==> Convolution(p[1..], q)[k - 1] == ConvAt(p[1..], q, k - 1)
    ensures Convolution(p, q)[k] == ConvAt(p, q, k)
  {
    var rest := [0.0] + Convolution(p[1..], q);
    ConvAtUnfold(p, q, k);
    SumAt(Scaled(q, p[0]), rest, k);
    if k < |q| {
      ScaledAt(q, p[0], k);
    }
    if k == 0 {
      assert ConvAt(p[1..], q, -1) == 0.0;
    } else {
      assert rest[k] == Convolution(p[1..], q)[k - 1];
    }
  }

  /** Multiplying p by q gives the same coefficients as multiplying q by p. */
  lemma {:induction false} ConvolutionCommutes(p: seq<real>, q: seq<real>)
    requires |p| > 0 && |q| > 0
    ensures Convolution(p, q) == Convolution(q, p)
  {
    forall k | 0 <= k < |p| + |q| - 1
      ensures Convolution(p, q)[k] == Convolution(q, p)[k]
    {
      ConvolutionAt(p, q, k);
      ConvolutionAt(q, p, k);
      ConvAtCommutes(p, q, k);
    }
  }

  /** Coefficients of the product with a linear factor c0 + c1*x. */
  lemma {:induction false} ConvAtLinear(c0: real, c1: real, q: seq<real>, k: int)
    ensures ConvAt([c0, c1], q, k) == At(q, k) * c0 + At(q, k - 1) * c1
  {
    assert [c0, c1][1..] == [c1];
    assert [c1][1..] == [];
    if k >= 0 {
      ConvAtUnfold([c0, c1], q, k);
      if k >= 1 {
        ConvAtUnfold([c1], q, k - 1);
      }
    }
  }

  // ---------------------------------------------------------------------
  // Evaluation algebra

  lemma {:induction false} HornerPrepend(a: real, r: seq<real>, x: real)
    ensures Horner([a] + r, x) == a + x * Horner(r, x)
  {
    assert ([a] + r)[1..] == r;
  }

  lemma {:induction false} Distribute(x: real, a: real, b: real)
    ensures x * (a + b) == x * a + x * b
  {
  }

  /** Evaluation of a sum is the sum of the evaluations. */
  lemma {:induction false} HornerSum(p: seq<real>, q: seq<real>, x: real)
    ensures Horner(Sum(p, q), x) == Horner(p, x) + Horner(q, x)
    decreases |p| + |q|
  {
    if |p| == 0 {
      assert Horner(p, x) == 0.0;
    } else if |q| == 0 {
      assert Horner(q, x) == 0.0;
    } else {
      var hp, hq := Horner(p[1..], x), Horner(q[1..], x);
      HornerSum(p[1..], q[1..], x);
      HornerPrepend(p[0] + q[0], Sum(p[1..], q[1..]), x);
      Distribute(x, hp, hq);
      assert Horner(p, x) == p[0] + x * hp;
      assert Horner(q, x) == q[0] + x * hq;
    }
  }

  /** Evaluation commutes with scaling. */
  lemma {:induction false} HornerScaled(p: seq<real>, c: real, x: real)
    ensures Horner(Scaled(p, c), x) == c * Horner(p, x)
    decreases |p|
  {
    if |p| > 0 {
      var h := Horner(p[1..], x);
      HornerScaled(p[1..], c, x);
      HornerPrepend(p[0] * c, Scaled(p[1..], c), x);
      assert x * (c * h) == c * (x * h);
      assert Horner(p, x) == p[0] + x * h;
    }
  }

  /** Evaluation commutes with division by a scalar. */
  lemma {:induction false} HornerDivided(p: seq<real>, c: real, x: real)
    requires c != 0.0
    ensures Horner(Divided(p, c), x) == Horner(p, x) / c
    decreases |p|
  {
    if |p| > 0 {
      var h := Horner(p[1..], x);
      HornerDivided(p[1..], c, x);
      HornerPrepend(p[0] / c, Divided(p[1..], c), x);
      assert Horner(p, x) == p[0] + x * h;
      DivStep(p[0], h, x, c);
    }
  }

  /** Entry i of a sum is the sum of the entries. */
  lemma {:induction false} SumAt(p: seq<real>, q: seq<real>, i: int)
    requires 0 <= i < Max(|p|, |q|)
    ensures Sum(p, q)[i] == At(p, i) + At(q, i)
    decreases |p| + |q|
  {
    if |p| > 0 && |q| > 0 && i > 0 {
      SumAt(p[1..], q[1..], i - 1);
    }
  }

  /** Entry i of a scaled array. */
  lemma {:induction false} ScaledAt(p: seq<real>, c: real, i: int)
    requires 0 <= i < |p|
    ensures Scaled(p, c)[i] == p[i] * c
    decreases |p|
  {
    if i > 0 {
      ScaledAt(p[1..], c, i - 1);
    }
  }

  /** Entry i of a divided array. */
  lemma {:induction false} DividedAt(p: seq<real>, c: real, i: int)
    requires 0 <= i < |p| && c != 0.0
    ensures Divided(p, c)[i] == p[i] / c
    decreases |p|
  {
    if i > 0 {
      DividedAt(p[1..], c, i - 1);
    }
  }

  lemma {:induction false} DivStep(a: real, h: real, x: real, c: real)
    requires c != 0.0
    ensures a / c + x * (h / c) == (a + x * h) / c
  {
    assert x * (h / c) == (x * h) / c;
  }

  /** The value of the product split at the constant coefficient of p. */
  lemma {:induction false} HornerConvolutionCons(p: seq<real>, q: seq<real>, x: real)
    requires |p| >= 2 && |q| > 0
    ensures Horner(Convolution(p, q), x) ==
      p[0] * Horner(q, x) + x * Horner(Convolution(p[1..], q), x)
  {
    HornerScaled(q, p[0], x);
    var rest := Convolution(p[1..], q);
    assert Convolution(p, q) == Sum(Scaled(q, p[0]), [0.0] + rest);
    HornerSum(Scaled(q, p[0]), [0.0] + rest, x);
    HornerPrepend(0.0, rest, x);
  }

  lemma {:induction false} HornerConvolutionSingle(p: seq<real>, q: seq<real>, x: real)
    requires |p| == 1 && |q| > 0
    ensures Horner(Convolution(p, q), x) == Horner(p, x) * Horner(q, x)
  {
    HornerScaled(q, p[0], x);
    assert Horner(p, x) == p[0] + x * Horner([], x);
  }

  lemma {:induction false} HornerConvolutionStep(p: seq<real>, q: seq<real>, x: real)
    requires |p| >= 2 && |q| > 0
    requires Horner(Convolution(p[1..], q), x) == Horner(p[1..], x) * Horner(q, x)
    ensures Horner(Convolution(p, q), x) == Horner(p, x) * Horner(q, x)
  {
    HornerConvolutionCons(p, q, x);
    calc {
      Horner(Convolution(p, q), x);
      p[0] * Horner(q, x) + x * Horner(Convolution(p[1..], q), x);
      p[0] * Horner(q, x) + x * (Horner(p[1..], x) * Horner(q, x));
      { Regroup(p[0], Horner(p[1..], x), Horner(q, x), x); }
      (p[0] + x * Horner(p[1..], x)) * Horner(q, x);
      Horner(p, x) * Horner(q, x);
    }
  }

  /** Evaluation of the convolution is the product of the evaluations. */
  lemma {:induction false} HornerConvolution(p: seq<real>, q: seq<real>, x: real)
    requires |p| > 0 && |q| > 0
    ensures Horner(Convolution(p, q), x) == Horner(p, x) * Horner(q, x)
    decreases |p|
  {
    if |p| == 1 {
      HornerConvolutionSingle(p, q, x);
    } else {
      HornerConvolution(p[1..], q, x);
      HornerConvolutionStep(p, q, x);
    }
  }

  /** The value of a linear factor c0 + c1*x. */
  lemma {:induction false} HornerLinear(c0: real, c1: real, x: real)
    ensures Horner([c0, c1], x) == c0 + c1 * x
  {
    assert [c0, c1][1..] == [c1];
    assert [c1][1..] == [];
    assert Horner([c1], x) == c1 + x * Horner([], x);
  }

  lemma {:induction false} Regroup(a: real, h: real, w: real, x: real)
    ensures a * w + h * (x * w) == (a + x * h) * w
  {
  }

  /** Horner's rule computes the monomial sum: x^e * Horner(c, x) is the sum of c[i]*x^(e+i). */
  lemma {:induction false} HornerIsPowerSum(c: seq<real>, e: nat, x: real)
    ensures Horner(c, x) * Pow(x, e) == PowerSum(c, e, x)
    decreases |c|
  {
    if |c| > 0 {
      HornerIsPowerSum(c[1..], e + 1, x);
      assert Pow(x, e + 1) == x * Pow(x, e);
      Regroup(c[0], Horner(c[1..], x), Pow(x, e), x);
    }
  }

  // ---------------------------------------------------------------------
  // Factored form

  /** The factored form l * (x - r[0]) * ... * (x - r[n-1]), with the leading
      coefficient l carried through the recursion. */
  function Factored(l: real, r: seq<real>, x: real): real
  {
    if |r| == 0 then l else (x - r[0]) * Factored(l, r[1..], x)
  }

  /** The factored form is l times the product over the roots. */
  lemma {:induction false} FactoredIsScaled(l: real, r: seq<real>, x: real)
    ensures Factored(l, r, x) == l * RootProduct(r, x)
    decreases |r|
  {
    if |r| > 0 {
      FactoredIsScaled(l, r[1..], x);
      Commute(x - r[0], l, RootProduct(r[1..], x));
    }
  }

  /** Scaling the factored form scales its leading coefficient. */
  lemma {:induction false} FactoredScale(k: real, l: real, r: seq<real>, x: real)
    ensures k * Factored(l, r, x) == Factored(k * l, r, x)
    decreases |r|
  {
    if |r| > 0 {
      FactoredScale(k, l, r[1..], x);
      Commute(k, x - r[0], Factored(l, r[1..], x));
    }
  }

  /** The product of two factored forms is the factored form of the
      concatenated roots, with the product of the leading coefficients. */
  lemma {:induction false} FactoredTimes(l1: real, r1: seq<real>, l2: real, r2: seq<real>, x: real)
    ensures Factored(l1, r1, x) * Factored(l2, r2, x) == Factored(l1 * l2, r1 + r2, x)
    decreases |r1|
  {
    if |r1| == 0 {
      assert r1 + r2 == r2;
      FactoredScale(l1, l2, r2, x);
    } else {
      var r := r1 + r2;
      assert r[0] == r1[0] && r[1..] == r1[1..] + r2;
      FactoredTimes(l1, r1[1..], l2, r2, x);
      Associate(x - r1[0], Factored(l1, r1[1..], x), Factored(l2, r2, x));
    }
  }

  lemma {:induction false} SameLead(a: real, b: real, r: seq<real>, x: real)
    requires a == b
    ensures Factored(a, r, x) == Factored(b, r, x)
  {
  }

  lemma {:induction false} Commute(a: real, b: real, c: real)
    ensures a * (b * c) == b * (a * c)
  {
  }

  lemma {:induction false} Associate(a: real, b: real, c: real)
    ensures (a * b) * c == a * (b * c)
  {
  }
}
