/** Term-by-term differentiation and integration of coefficient arrays
    (src/basic/calculus.cpp). */
module Calculus {
  import opened Coefficients

  // ---------------------------------------------------------------------
  // Formal derivative and antiderivative

  /** Entry i is p[i] * (e + i): the power rule applied to a suffix whose
      first entry is the coefficient of x^e. */
  function DerivedFrom(p: seq<real>, e: nat): (d: seq<real>)
    ensures |d| == |p|
  {
    if |p| == 0 then [] else [p[0] * (e as real)] + DerivedFrom(p[1..], e + 1)
  }

  /** Entry i is p[i] / (e + i); e is at least 1, so no division by zero. */
  function IntegratedFrom(p: seq<real>, e: nat): (d: seq<real>)
    requires e >= 1
    ensures |d| == |p|
  {
    if |p| == 0 then [] else [p[0] / (e as real)] + IntegratedFrom(p[1..], e + 1)
  }

  /** The formal derivative; a constant differentiates to the constant 0. */
  function Derived(p: seq<real>): (d: seq<real>)
    requires |p| > 0
    ensures |p| == 1 ==> d == [0.0]
    ensures |p| > 1 ==> |d| == |p| - 1
  {
    if |p| == 1 then [0.0] else DerivedFrom(p[1..], 1)
  }

  /** The antiderivative with zero constant term. */
  function Integrated(p: seq<real>): (d: seq<real>)
    ensures |d| == |p| + 1 && d[0] == 0.0
  {
    [0.0] + IntegratedFrom(p, 1)
  }

  lemma {:induction false} DerivedFromAt(p: seq<real>, e: nat, i: int)
    requires 0 <= i < |p|
    ensures DerivedFrom(p, e)[i] == p[i] * ((e + i) as real)
    decreases |p|
  {
    if i > 0 {
      DerivedFromAt(p[1..], e + 1, i - 1);
    }
  }

  lemma {:induction false} IntegratedFromAt(p: seq<real>, e: nat, i: int)
    requires e >= 1 && 0 <= i < |p|
    ensures IntegratedFrom(p, e)[i] == p[i] / ((e + i) as real)
    decreases |p|
  {
    if i > 0 {
      IntegratedFromAt(p[1..], e + 1, i - 1);
    }
  }

  /** The power rule: coefficient i of the derivative is (i + 1) * p[i + 1]. */
  lemma {:induction false} DerivedAt(p: seq<real>, i: int)
    requires |p| > 1 && 0 <= i < |p| - 1
    ensures Derived(p)[i] == p[i + 1] * ((i + 1) as real)
  {
    DerivedFromAt(p[1..], 1, i);
  }

  /** Coefficient i + 1 of the antiderivative is p[i] / (i + 1). */
  lemma {:induction false} IntegratedAt(p: seq<real>, i: int)
    requires 0 <= i < |p|
    ensures Integrated(p)[i + 1] == p[i] / ((i + 1) as real)
  {
    IntegratedFromAt(p, 1, i);
  }

  lemma {:induction false} CancelScale(a: real, n: real)
    requires n > 0.0
    ensures (a / n) * n == a && (a * n) / n == a
  {
  }

  /** Differentiating the antiderivative gives the polynomial back. */
  lemma {:induction false} DerivedIntegrated(p: seq<real>)
    requires |p| > 0
    ensures Derived(Integrated(p)) == p
  {
    var d := Derived(Integrated(p));
    forall i | 0 <= i < |p|
      ensures d[i] == p[i]
    {
      DerivedAt(Integrated(p), i);
      IntegratedAt(p, i);
      CancelScale(p[i], (i + 1) as real);
    }
  }

  /** Integrating the derivative gives the polynomial back up to its constant
      term, which becomes 0. */
  lemma {:induction false} IntegratedDerived(p: seq<real>)
    requires |p| > 1
    ensures Integrated(Derived(p)) == p[0 := 0.0]
  {
    var d := Integrated(Derived(p));
    forall i | 0 < i < |p|
      ensures d[i] == p[i]
    {
      IntegratedAt(Derived(p), i - 1);
      DerivedAt(p, i - 1);
      CancelScale(p[i], i as real);
    }
  }

  /** Differentiation is additive. */
  lemma {:induction false} DerivedSum(p: seq<real>, q: seq<real>)
    requires |p| > 0 && |q| > 0
    ensures Derived(Sum(p, q)) == Sum(Derived(p), Derived(q))
  {
    var s := Sum(p, q);
    assert s[1..] == Sum(p[1..], q[1..]);
    DerivedFromSum(p[1..], q[1..], 1);
    if |p| == 1 && |q| == 1 {
      assert Sum([0.0], [0.0]) == [0.0 + 0.0] + Sum([], []);
    } else if |p| == 1 {
      ZeroPlus(Derived(q));
    } else if |q| == 1 {
      PlusZero(Derived(p));
    }
  }

  /** The power rule is additive on suffixes. */
  lemma {:induction false} DerivedFromSum(a: seq<real>, b: seq<real>, e: nat)
    ensures DerivedFrom(Sum(a, b), e) == Sum(DerivedFrom(a, e), DerivedFrom(b, e))
    decreases |a| + |b|
  {
    if |a| > 0 && |b| > 0 {
      var s, da, db := Sum(a, b), DerivedFrom(a, e), DerivedFrom(b, e);
      var l, r := DerivedFrom(s, e), Sum(da, db);
      SumCons(a, b, s);
      DerivedFromCons(s, e, l);
      DerivedFromCons(a, e, da);
      DerivedFromCons(b, e, db);
      SumCons(da, db, r);
      DerivedFromSum(a[1..], b[1..], e + 1);
      TimesSum(a[0], b[0], e as real);
      HeadTail(l, r);
    }
  }

  lemma {:induction false} DerivedFromCons(p: seq<real>, e: nat, d: seq<real>)
    requires |p| > 0 && d == DerivedFrom(p, e)
    ensures |d| > 0 && d[0] == p[0] * (e as real) && d[1..] == DerivedFrom(p[1..], e + 1)
  {
  }

  /** The head and the tail of a sum of two non-empty arrays. */
  lemma {:induction false} SumCons(p: seq<real>, q: seq<real>, s: seq<real>)
    requires |p| > 0 && |q| > 0 && s == Sum(p, q)
    ensures |s| > 0 && s[0] == p[0] + q[0] && s[1..] == Sum(p[1..], q[1..])
  {
    assert s == [p[0] + q[0]] + Sum(p[1..], q[1..]);
  }

  lemma {:induction false} HeadTail(x: seq<real>, y: seq<real>)
    requires |x| > 0 && |y| > 0 && x[0] == y[0] && x[1..] == y[1..]
    ensures x == y
  {
    assert x == [x[0]] + x[1..];
    assert y == [y[0]] + y[1..];
  }

  /** Adding the constant 0 to a non-empty coefficient array changes nothing. */
  lemma {:induction false} ZeroPlus(d: seq<real>)
    requires |d| > 0
    ensures Sum([0.0], d) == d
  {
    assert Sum([0.0], d) == [0.0 + d[0]] + Sum([], d[1..]);
  }

  lemma {:induction false} PlusZero(d: seq<real>)
    requires |d| > 0
    ensures Sum(d, [0.0]) == d
  {
    assert Sum(d, [0.0]) == [d[0] + 0.0] + Sum(d[1..], []);
  }

  lemma {:induction false} TimesSum(a: real, b: real, c: real)
    ensures (a + b) * c == a * c + b * c
  {
  }

  /** Differentiation commutes with scaling. */
  lemma {:induction false} DerivedScaled(p: seq<real>, c: real)
    requires |p| > 0
    ensures Derived(Scaled(p, c)) == Scaled(Derived(p), c)
  {
    var l, r := Derived(Scaled(p, c)), Scaled(Derived(p), c);
    if |p| == 1 {
      ScaledAt(Derived(p), c, 0);
    } else {
      forall i | 0 <= i < |l|
        ensures l[i] == r[i]
      {
        DerivedAt(Scaled(p, c), i);
        DerivedAt(p, i);
        ScaledAt(p, c, i + 1);
        ScaledAt(Derived(p), c, i);
      }
    }
  }

  // ---------------------------------------------------------------------
  // The kernel routines

  /** `derivative`: an empty array is rejected, a constant gives [0], otherwise
      the entries coeffs[1..] are multiplied in place by their new index + 1. */
  method Derivative(coeffs: seq<real>) returns (res: Result<seq<real>>)
    ensures |coeffs| == 0 ==> res == Err(ZeroCoeffsLength)
    ensures |coeffs| > 0 ==> res == Ok(Derived(coeffs))
  {
    if |coeffs| == 0 {
      return Err(ZeroCoeffsLength);
    }
    if |coeffs| == 1 {
      return Ok([0.0]);
    }
    var n := |coeffs| - 1;
    var result := new real[n](i requires 0 <= i < n => coeffs[i + 1]);
    for i := 0 to n
      invariant forall k :: 0 <= k < i ==> result[k] == coeffs[k + 1] * ((k + 1) as real)
      invariant forall k :: i <= k < n ==> result[k] == coeffs[k + 1]
    {
      result[i] := result[i] * ((i + 1) as real);
    }
    forall k | 0 <= k < n
      ensures result[k] == Derived(coeffs)[k]
    {
      DerivedAt(coeffs, k);
    }
    assert result[..] == Derived(coeffs);
    return Ok(result[..]);
  }

  /** `integral`: an empty array is rejected; otherwise result[0] = 0 and
      result[i + 1] = coeffs[i] / (i + 1). */
  method Integral(coeffs: seq<real>) returns (res: Result<seq<real>>)
    ensures |coeffs| == 0 ==> res == Err(ZeroCoeffsLength)
    ensures |coeffs| > 0 ==> res == Ok(Integrated(coeffs))
  {
    if |coeffs| == 0 {
      return Err(ZeroCoeffsLength);
    }
    var n := |coeffs|;
    var result := new real[n + 1](_ => 0.0);
    for i := 0 to n
      invariant result[0] == 0.0
      invariant forall k :: 0 < k <= i ==> result[k] == coeffs[k - 1] / (k as real)
      invariant forall k :: i < k <= n ==> result[k] == 0.0
    {
      result[i + 1] := coeffs[i] / ((i + 1) as real);
    }
    forall k | 0 < k <= n
      ensures result[k] == Integrated(coeffs)[k]
    {
      IntegratedAt(coeffs, k - 1);
    }
    assert result[..] == Integrated(coeffs);
    return Ok(result[..]);
  }
}
