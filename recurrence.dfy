/** One step of the three-term recurrences of src/polynomial/legendre.cpp and
    src/polynomial/jacobi.cpp: with Pi and Pim1 the two latest members,
    Pim1 is overwritten by ((a2 + a3*x)*Pi - a4*Pim1) / a1, computed as
    `Pim1 *= -a4; Pim1 += Polynomial({a2, a3}) * Pi; Pim1 /= a1`. */
module Recurrences {
  import opened Coefficients
  import BasicOperations
  import Polynomials

  /** The coefficients the three statements produce, trimming included. */
  function NextTerm(pi: seq<real>, pim1: seq<real>, a1: real, a2: real, a3: real, a4: real): seq<real>
    requires |pi| > 0 && a1 != 0.0
  {
    Divided(Trimmed(Sum(Scaled(pim1, -a4), Convolution([a2, a3], pi))), a1)
  }

  /** The sum before trimming and its entries. */
  lemma {:induction false} RawTermAt(pi: seq<real>, pim1: seq<real>, a2: real, a3: real, a4: real, k: int)
    requires |pi| > 0 && |pim1| <= |pi| && 0 <= k <= |pi|
    ensures |Sum(Scaled(pim1, -a4), Convolution([a2, a3], pi))| == |pi| + 1
    ensures Sum(Scaled(pim1, -a4), Convolution([a2, a3], pi))[k]
            == At(pim1, k) * -a4 + (At(pi, k) * a2 + At(pi, k - 1) * a3)
  {
    SumAt(Scaled(pim1, -a4), Convolution([a2, a3], pi), k);
    if k < |pim1| {
      ScaledAt(pim1, -a4, k);
    }
    ConvolutionAt([a2, a3], pi, k);
    ConvAtLinear(a2, a3, pi, k);
  }

  /** When the new top coefficient a3 * Pi[last] is significant, `+=` trims
      nothing, so the new member is one longer than Pi. */
  lemma {:induction false} NextTermKept(pi: seq<real>, pim1: seq<real>, a1: real, a2: real, a3: real, a4: real)
    requires |pi| > 0 && |pim1| <= |pi| && a1 != 0.0
    requires Abs(pi[|pi| - 1] * a3) >= ZeroTol
    ensures Trimmed(Sum(Scaled(pim1, -a4), Convolution([a2, a3], pi)))
            == Sum(Scaled(pim1, -a4), Convolution([a2, a3], pi))
    ensures |NextTerm(pi, pim1, a1, a2, a3, a4)| == |pi| + 1
  {
    var s := Sum(Scaled(pim1, -a4), Convolution([a2, a3], pi));
    RawTermAt(pi, pim1, a2, a3, a4, |pi|);
    assert At(pim1, |pi|) == 0.0 && At(pi, |pi|) == 0.0;
    assert s[|pi|] == pi[|pi| - 1] * a3;
    TrimmedKeeps(s);
  }

  /** Entry k of the new member. */
  lemma {:induction false} NextTermAt(pi: seq<real>, pim1: seq<real>, a1: real, a2: real, a3: real, a4: real, k: int)
    requires |pi| > 0 && |pim1| <= |pi| && a1 != 0.0
    requires Abs(pi[|pi| - 1] * a3) >= ZeroTol
    requires 0 <= k <= |pi|
    ensures |NextTerm(pi, pim1, a1, a2, a3, a4)| == |pi| + 1
    ensures NextTerm(pi, pim1, a1, a2, a3, a4)[k]
            == (At(pim1, k) * -a4 + (At(pi, k) * a2 + At(pi, k - 1) * a3)) / a1
  {
    NextTermKept(pi, pim1, a1, a2, a3, a4);
    RawTermAt(pi, pim1, a2, a3, a4, k);
    DividedAt(Sum(Scaled(pim1, -a4), Convolution([a2, a3], pi)), a1, k);
  }

  /** NextTerm is characterised by its length and its entries. */
  lemma {:induction false} NextTermIs(pi: seq<real>, pim1: seq<real>, a1: real, a2: real, a3: real, a4: real, c: seq<real>)
    requires |pi| > 0 && |pim1| <= |pi| && a1 != 0.0
    requires Abs(pi[|pi| - 1] * a3) >= ZeroTol
    requires |c| == |pi| + 1
    requires forall k :: 0 <= k < |c| ==> c[k] == (At(pim1, k) * -a4 + (At(pi, k) * a2 + At(pi, k - 1) * a3)) / a1
    ensures NextTerm(pi, pim1, a1, a2, a3, a4) == c
  {
    NextTermKept(pi, pim1, a1, a2, a3, a4);
    forall k | 0 <= k < |c|
      ensures NextTerm(pi, pim1, a1, a2, a3, a4)[k] == c[k]
    {
      NextTermAt(pi, pim1, a1, a2, a3, a4, k);
    }
  }

  /** The new top coefficient is a3 * Pi[last] / a1. */
  lemma {:induction false} NextTermTop(pi: seq<real>, pim1: seq<real>, a1: real, a2: real, a3: real, a4: real)
    requires |pi| > 0 && |pim1| <= |pi| && a1 != 0.0
    requires Abs(pi[|pi| - 1] * a3) >= ZeroTol
    ensures |NextTerm(pi, pim1, a1, a2, a3, a4)| == |pi| + 1
    ensures NextTerm(pi, pim1, a1, a2, a3, a4)[|pi|] == pi[|pi| - 1] * a3 / a1
  {
    NextTermKept(pi, pim1, a1, a2, a3, a4);
    NextTermAt(pi, pim1, a1, a2, a3, a4, |pi|);
    assert At(pim1, |pi|) == 0.0 && At(pi, |pi|) == 0.0;
  }

  /** As a function, the sum before division is (a2 + a3*x) Pi(x) - a4 Pim1(x). */
  lemma {:induction false} RawTermValue(pi: seq<real>, pim1: seq<real>, a2: real, a3: real, a4: real, x: real)
    requires |pi| > 0
    ensures Horner(Sum(Scaled(pim1, -a4), Convolution([a2, a3], pi)), x)
            == -a4 * Horner(pim1, x) + (a2 + a3 * x) * Horner(pi, x)
  {
    HornerSum(Scaled(pim1, -a4), Convolution([a2, a3], pi), x);
    HornerScaled(pim1, -a4, x);
    HornerConvolution([a2, a3], pi, x);
    HornerLinear(a2, a3, x);
    TimesEqual(Horner([a2, a3], x), a2 + a3 * x, Horner(pi, x));
    assert Horner(Scaled(pim1, -a4), x) == -a4 * Horner(pim1, x);
    assert Horner(Convolution([a2, a3], pi), x) == (a2 + a3 * x) * Horner(pi, x);
  }

  lemma {:induction false} TimesEqual(u: real, v: real, w: real)
    requires u == v
    ensures u * w == v * w
  {
  }

  /** The recurrence on values: from Pi(x) == vi and Pim1(x) == vim1 to
      ((a2 + a3*x) vi - a4 vim1) / a1. */
  function NextValue(a1: real, a2: real, a3: real, a4: real, x: real, vi: real, vim1: real): real
    requires a1 != 0.0
  {
    (-a4 * vim1 + (a2 + a3 * x) * vi) / a1
  }

  /** As a function, the new member is ((a2 + a3*x) Pi(x) - a4 Pim1(x)) / a1. */
  lemma {:induction false} NextTermValue(pi: seq<real>, pim1: seq<real>, a1: real, a2: real, a3: real, a4: real, x: real)
    requires |pi| > 0 && |pim1| <= |pi| && a1 != 0.0
    requires Abs(pi[|pi| - 1] * a3) >= ZeroTol
    ensures Horner(NextTerm(pi, pim1, a1, a2, a3, a4), x) == NextValue(a1, a2, a3, a4, x, Horner(pi, x), Horner(pim1, x))
  {
    NextTermKept(pi, pim1, a1, a2, a3, a4);
    var s := Sum(Scaled(pim1, -a4), Convolution([a2, a3], pi));
    HornerDivided(s, a1, x);
    RawTermValue(pi, pim1, a2, a3, a4, x);
  }

  /** The loop body: Pim1 is overwritten by the next member; Pi is not touched. */
  method Advance(pi: Polynomials.Polynomial, pim1: Polynomials.Polynomial, a1: real, a2: real, a3: real, a4: real)
    requires pi != pim1 && pi.Valid() && pim1.Valid()
    requires |pi.coef| > 0 && |pim1.coef| <= |pi.coef| && a1 != 0.0
    requires Abs(pi.coef[|pi.coef| - 1] * a3) >= ZeroTol
    modifies pim1
    ensures pim1.Valid() && pim1.polyType == old(pim1.polyType)
    ensures pim1.coef == NextTerm(old(pi.coef), old(pim1.coef), a1, a2, a3, a4)
  {
    ghost var p, q := pi.coef, pim1.coef;
    pim1.ScaleAssign(-a4);
    var linear := LinearTimes(a2, a3, pi);
    NextTermKept(p, q, a1, a2, a3, a4);
    pim1.AddAssign(linear);
    pim1.DivAssign(a1);
  }

  /** The temporary `Polynomial({a2, a3}) * Pi` of the loop body. */
  method LinearTimes(a2: real, a3: real, pi: Polynomials.Polynomial) returns (linear: Polynomials.Polynomial)
    requires pi.Valid() && |pi.coef| > 0
    ensures fresh(linear) && linear.Valid()
    ensures linear.coef == Convolution([a2, a3], pi.coef)
  {
    linear := new Polynomials.Polynomial.FromCoef([a2, a3]);
    var _ := linear.MulAssign(pi);
  }
}
