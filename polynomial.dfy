/** The Polynomial class (include/polynomial.h) and the operators of
    src/polynomial/operators.cpp. The constructors and `set(coef)` of the
    source are not implemented there; the model gives them the meaning the
    header documents: replace the coefficients, recompute the degree and
    forget any roots. */
module Polynomials {
  import opened Coefficients
  import BasicOperations
  import Evaluations

  /** The tag a polynomial carries: the four values of enum PolyType, plus
      the two Radau kinds the Radau constructors assign. */
  datatype PolyType = General | Jacobi | Legendre | Lagrange | LeftRadau | RightRadau

  /** The degree kept in `_d`: one less than the number of coefficients, and 0
      for an empty array. */
  function Degree(c: seq<real>): (d: nat)
    ensures |c| > 0 ==> d + 1 == |c|
    ensures |c| == 0 ==> d == 0
  {
    if |c| == 0 then 0 else |c| - 1
  }

  /** `std::abs(a - b) / std::abs(a) > 1e-12` in IEEE arithmetic: for a == 0
      the quotient is +inf when b != 0 (which exceeds) and NaN when b == 0
      (which does not). The result is exactly "b lies outside the relative
      tolerance band around a". */
  function RelDiffExceeds(a: real, b: real): (e: bool)
    ensures !e <==> Abs(a - b) <= ZeroTol * Abs(a)
  {
    if a == 0.0 then b != 0.0
    else
      QuotientBound(Abs(a - b), Abs(a), ZeroTol);
      Abs(a - b) / Abs(a) > ZeroTol
  }

  lemma {:induction false} QuotientBound(x: real, y: real, t: real)
    requires y > 0.0
    ensures x / y > t <==> x > t * y
  {
    assert x == (x / y) * y;
    if x / y > t {
      assert (x / y) * y > t * y;
    } else {
      assert (x / y) * y <= t * y;
    }
  }

  /** Every coefficient of a is matched by the entry of b at the same index. */
  predicate CoefficientsClose(a: seq<real>, b: seq<real>)
    requires |a| <= |b|
  {
    forall i :: 0 <= i < |a| ==> !RelDiffExceeds(a[i], b[i])
  }

  /** Agreement is reflexive: every array is close to itself. */
  lemma {:induction false} CoefficientsCloseReflexive(a: seq<real>)
    ensures CoefficientsClose(a, a)
  {
    forall i | 0 <= i < |a|
      ensures !RelDiffExceeds(a[i], a[i])
    {
      assert Abs(a[i] - a[i]) == 0.0;
    }
  }

  /** A zero coefficient is only matched by an exact zero. */
  lemma {:induction false} CloseZeroIsExact(a: seq<real>, b: seq<real>, i: int)
    requires |a| <= |b| && CoefficientsClose(a, b) && 0 <= i < |a| && a[i] == 0.0
    ensures b[i] == 0.0
  {
    assert !RelDiffExceeds(a[i], b[i]);
  }

  /** The last coefficient of a product is the product of the last ones. */
  lemma {:induction false} ConvAtTop(p: seq<real>, q: seq<real>)
    requires |p| > 0 && |q| > 0
    ensures ConvAt(p, q, |p| + |q| - 2) == p[|p| - 1] * q[|q| - 1]
    decreases |p|
  {
    ConvAtUnfold(p, q, |p| + |q| - 2);
    if |p| == 1 {
      assert ConvAt(p[1..], q, |q| - 2) == 0.0;
    } else {
      ConvAtTop(p[1..], q);
      assert At(q, |p| + |q| - 2) == 0.0;
    }
  }

  lemma {:induction false} ConvolutionTop(p: seq<real>, q: seq<real>)
    requires |p| > 0 && |q| > 0
    ensures Convolution(p, q)[|p| + |q| - 2] == p[|p| - 1] * q[|q| - 1]
  {
    ConvolutionAt(p, q, |p| + |q| - 2);
    ConvAtTop(p, q);
  }

  /** The degree of a product is the sum of the degrees, and its leading
      coefficient is the product of the leading ones: the fact the degree
      update of `operator*=` relies on. */
  lemma {:induction false} ProductDegree(p: seq<real>, q: seq<real>)
    requires |p| > 0 && |q| > 0
    ensures Degree(Convolution(p, q)) == Degree(p) + Degree(q)
    ensures Convolution(p, q)[Degree(p) + Degree(q)] == p[Degree(p)] * q[Degree(q)]
  {
    ConvolutionTop(p, q);
  }

  /** Coefficients c describe the roots rr (all real, cr empty) when they
      evaluate everywhere to the factored form with their own leading
      coefficient. */
  ghost predicate Expands(have: bool, cr: seq<Complex>, c: seq<real>, rr: seq<real>)
  {
    have && cr == [] && |c| > 0 ==>
      forall x: real :: Horner(c, x) == Factored(c[|c| - 1], rr, x)
  }

  /** At one point: the product of two factored polynomials is factored over
      both lists of roots, with lead l the product of the two leads. */
  lemma {:induction false} ProductFactoredAt(c1: seq<real>, l1: real, r1: seq<real>,
                                             c2: seq<real>, l2: real, r2: seq<real>, l: real, x: real)
    requires |c1| > 0 && |c2| > 0 && l == l1 * l2
    requires Horner(c1, x) == Factored(l1, r1, x)
    requires Horner(c2, x) == Factored(l2, r2, x)
    ensures Horner(Convolution(c1, c2), x) == Factored(l, r1 + r2, x)
  {
    HornerConvolution(c1, c2, x);
    FactoredProduct(Horner(Convolution(c1, c2), x), Horner(c1, x), l1, r1, Horner(c2, x), l2, r2, l, x);
  }

  /** The scalar half of the step: h is the product of the two factored values. */
  lemma {:induction false} FactoredProduct(h: real, h1: real, l1: real, r1: seq<real>,
                                           h2: real, l2: real, r2: seq<real>, l: real, x: real)
    requires h == h1 * h2 && l == l1 * l2
    requires h1 == Factored(l1, r1, x) && h2 == Factored(l2, r2, x)
    ensures h == Factored(l, r1 + r2, x)
  {
    FactoredTimes(l1, r1, l2, r2, x);
    SameLead(l, l1 * l2, r1 + r2, x);
  }

  /** Multiplication does not change roots: when both factors are described
      by their real roots, the product is described by the concatenated
      roots. */
  lemma {:induction false} ProductExpands(c1: seq<real>, r1: seq<real>, cr1: seq<Complex>,
                                          c2: seq<real>, r2: seq<real>, cr2: seq<Complex>)
    requires |c1| > 0 && |c2| > 0
    requires Expands(true, cr1, c1, r1) && Expands(true, cr2, c2, r2)
    ensures Expands(true, cr1 + cr2, Convolution(c1, c2), r1 + r2)
  {
    if cr1 == [] && cr2 == [] {
      var c := Convolution(c1, c2);
      ConvolutionTop(c1, c2);
      forall x: real
        ensures Horner(c, x) == Factored(c[|c| - 1], r1 + r2, x)
      {
        ProductFactoredAt(c1, c1[|c1| - 1], r1, c2, c2[|c2| - 1], r2, c[|c| - 1], x);
      }
    } else {
      assert |cr1 + cr2| > 0;
    }
  }

  class Polynomial {
    var polyType: PolyType
    var haveRoots: bool
    var useRoots: bool
    var degree: nat
    var nrr: nat
    var ncr: nat
    var coef: seq<real>
    var rroots: seq<real>
    var croots: seq<Complex>

    /** The bookkeeping the fields keep: the degree and the root counts match
        the arrays, roots are only used when known, and a known set of roots
        has one entry per degree. */
    ghost predicate Valid()
      reads this
    {
      && degree == Degree(coef)
      && nrr == |rroots|
      && ncr == |croots|
      && (useRoots ==> haveRoots)
      && (haveRoots ==> |coef| == |rroots| + |croots| + 1)
      && (!haveRoots ==> rroots == [] && croots == [])
    }

    /** When every root is real and known, the coefficients and the roots
        describe the same polynomial: coefficient evaluation equals the
        factored form. */
    ghost predicate RootsExpand()
      reads this
    {
      Expands(haveRoots, croots, coef, rroots)
    }

    /** `Polynomial(coef)`: a general polynomial given by its coefficients. */
    constructor FromCoef(c: seq<real>)
      ensures Valid()
      ensures coef == c && degree == Degree(c) && polyType == General
      ensures !haveRoots && !useRoots
    {
      polyType := General;
      haveRoots, useRoots := false, false;
      degree := Degree(c);
      nrr, ncr := 0, 0;
      coef := c;
      rroots, croots := [], [];
    }

    /** `set(coef)`: new coefficients, no roots; the tag is kept. */
    method SetCoef(c: seq<real>)
      modifies this
      ensures Valid()
      ensures coef == c && degree == Degree(c) && polyType == old(polyType)
      ensures !haveRoots && !useRoots && rroots == [] && croots == []
    {
      haveRoots, useRoots := false, false;
      degree := Degree(c);
      nrr, ncr := 0, 0;
      coef := c;
      rroots, croots := [], [];
    }

    /** `set(type)`: only the tag changes. */
    method SetType(t: PolyType)
      modifies this
      ensures polyType == t
      ensures coef == old(coef) && degree == old(degree) && haveRoots == old(haveRoots)
      ensures useRoots == old(useRoots) && rroots == old(rroots) && croots == old(croots)
      ensures nrr == old(nrr) && ncr == old(ncr)
    {
      polyType := t;
    }

    /** `operator+=(Polynomial)`: set(add(coef, rhs.coef)). */
    method AddAssign(rhs: Polynomial)
      requires Trimmed(Sum(coef, rhs.coef)) != []
      modifies this
      ensures Valid()
      ensures coef == Trimmed(Sum(old(coef), old(rhs.coef))) && polyType == old(polyType)
      ensures !haveRoots && !useRoots
    {
      var sum := BasicOperations.Add(coef, rhs.coef);
      SetCoef(sum);
    }

    /** `operator*=(Polynomial)`: the coefficient arrays are convolved, the
        degrees add and the tag becomes GENERAL. Roots survive only when both
        sides know theirs; they are then concatenated, and evaluation by roots
        stays on only if both sides had it on. An empty side is rejected by
        multiply before anything changes. */
    method MulAssign(rhs: Polynomial) returns (o: Outcome)
      requires Valid() && rhs.Valid()
      modifies this
      ensures Valid()
      ensures |old(coef)| == 0 || |old(rhs.coef)| == 0 ==> o == Fail(ZeroCoeffsLength) && unchanged(this)
      ensures |old(coef)| > 0 && |old(rhs.coef)| > 0 ==>
        && o == Pass
        && coef == Convolution(old(coef), old(rhs.coef))
        && degree == old(degree) + old(rhs.degree)
        && polyType == General
      ensures o == Pass && old(haveRoots && rhs.haveRoots) ==>
        && haveRoots
        && rroots == old(rroots) + old(rhs.rroots)
        && croots == old(croots) + old(rhs.croots)
        && useRoots == old(useRoots && rhs.useRoots)
      ensures o == Pass && !old(haveRoots && rhs.haveRoots) ==>
        !haveRoots && !useRoots && rroots == [] && croots == []
      ensures o == Pass && old(RootsExpand()) && old(rhs.RootsExpand()) ==> RootsExpand()
    {
      var product := BasicOperations.Multiply(coef, rhs.coef);
      if product.Err? {
        return Fail(product.error);
      }
      if haveRoots && rhs.haveRoots {
        if RootsExpand() && rhs.RootsExpand() {
          ProductExpands(coef, rroots, croots, rhs.coef, rhs.rroots, rhs.croots);
        }
        SetState(product.value, degree + rhs.degree, General, rroots + rhs.rroots, croots + rhs.croots,
                 useRoots && rhs.useRoots, true);
      } else {
        SetState(product.value, degree + rhs.degree, General, [], [], false, false);
      }
      return Pass;
    }

    /** Every field at once, the bookkeeping kept. */
    method SetState(c: seq<real>, d: nat, t: PolyType, rr: seq<real>, cr: seq<Complex>, use: bool, have: bool)
      requires d == Degree(c) && (use ==> have)
      requires have ==> |c| == |rr| + |cr| + 1
      requires !have ==> rr == [] && cr == []
      modifies this
      ensures Valid()
      ensures coef == c && degree == d && polyType == t && rroots == rr && croots == cr
      ensures useRoots == use && haveRoots == have
    {
      coef, degree, polyType, rroots, croots, nrr, ncr, useRoots, haveRoots :=
        c, d, t, rr, cr, |rr|, |cr|, use, have;
    }

    /** `operator*=(double)`: every coefficient scaled; roots are forgotten. */
    method ScaleAssign(c: real)
      modifies this
      ensures Valid()
      ensures coef == Scaled(old(coef), c) && polyType == old(polyType)
      ensures !haveRoots && !useRoots
    {
      var scaled := BasicOperations.MultiplyScalar(coef, c);
      SetCoef(scaled);
    }

    /** `operator/=(double)`: every coefficient divided; roots are forgotten. */
    method DivAssign(c: real)
      requires |coef| > 0 ==> c != 0.0
      modifies this
      ensures Valid()
      ensures coef == Divided(old(coef), c) && polyType == old(polyType)
      ensures !haveRoots && !useRoots
    {
      var divided := BasicOperations.DivideScalar(coef, c);
      SetCoef(divided);
    }

    /** `operator()(x)`: from the real roots when evaluation by roots is on,
        otherwise Horner's rule after the coefficient check. */
    function Call(x: real): (r: Result<real>)
      reads this
      requires Valid()
      ensures useRoots ==> r.Ok? && r.value == coef[|coef| - 1] * RootProduct(rroots, x)
      ensures !useRoots ==> (r.Ok? <==> Evaluations.CheckCoefs(coef, ZeroTol).Pass?)
      ensures !useRoots && r.Ok? ==> r.value == Horner(coef, x)
    {
      if useRoots then Ok(Evaluations.EvaluateFromRootArray(coef[|coef| - 1], rroots, x))
      else Evaluations.EvaluateArray(coef, x)
    }

    /** The two ways of evaluating agree when the coefficients are the
        expansion of l times the product over the real roots. */
    lemma {:induction false} CallAgrees(l: real, x: real)
      requires Valid() && useRoots && coef == BasicOperations.ToCoefficientsArray(l, rroots)
      ensures Call(x).Ok? && Call(x).value == Horner(coef, x)
    {
      BasicOperations.ToCoefficientsArrayValue(l, rroots, x);
    }

    /** Coefficients expanded from real roots describe those roots. */
    lemma {:induction false} ExpandedRoots(l: real)
      requires Valid() && haveRoots && coef == BasicOperations.ToCoefficientsArray(l, rroots)
      ensures croots == [] && RootsExpand()
    {
      forall x: real
        ensures Horner(coef, x) == Factored(coef[|coef| - 1], rroots, x)
      {
        BasicOperations.ToCoefficientsArrayValue(l, rroots, x);
        FactoredIsScaled(l, rroots, x);
      }
    }

    /** Evaluated by roots, every stored real root is a zero. */
    lemma {:induction false} CallAtRoot(i: int)
      requires Valid() && useRoots && 0 <= i < |rroots|
      ensures Call(rroots[i]).Ok? && Call(rroots[i]).value == 0.0
    {
      Evaluations.RootIsZero(rroots, i);
    }

    /** `operator()(xs)`: one value per point. When evaluation by roots is on,
        a first loop fills the result from the roots, but the second loop then
        overwrites every entry by coefficient evaluation, so the values always
        come from the coefficients and the coefficient check applies as soon
        as there is a point. */
    method CallArray(xs: seq<real>) returns (res: Result<seq<real>>)
      requires Valid()
      ensures |xs| == 0 ==> res == Ok([])
      ensures |xs| > 0 ==> (res.Ok? <==> Evaluations.CheckCoefs(coef, ZeroTol).Pass?)
      ensures |xs| > 0 && res.Err? ==> res.error == Evaluations.CheckCoefs(coef, ZeroTol).error
      ensures res.Ok? ==> |res.value| == |xs|
      ensures res.Ok? ==> forall i :: 0 <= i < |xs| ==> res.value[i] == Horner(coef, xs[i])
      ensures res.Ok? && !useRoots ==> forall i :: 0 <= i < |xs| ==> Call(xs[i]) == Ok(res.value[i])
    {
      var result := new real[|xs|](_ => 0.0);
      if useRoots {
        for i := 0 to |xs| {
          result[i] := Evaluations.EvaluateFromRootArray(coef[|coef| - 1], rroots, xs[i]);
        }
      }
      for i := 0 to |xs|
        invariant i > 0 ==> Evaluations.CheckCoefs(coef, ZeroTol).Pass?
        invariant forall k :: 0 <= k < i ==> result[k] == Horner(coef, xs[k])
      {
        var v := Evaluations.EvaluateArray(coef, xs[i]);
        if v.Err? {
          return Err(v.error);
        }
        result[i] := v.value;
      }
      return Ok(result[..]);
    }

    /** `operator==`: equal degrees, and every coefficient of this within the
        relative tolerance of the matching one of rhs. The source reads
        rhs._coef at every index of _coef, so that array must be long enough. */
    method Equals(rhs: Polynomial) returns (eq: bool)
      requires Valid() && rhs.Valid()
      requires degree == rhs.degree ==> |coef| <= |rhs.coef|
      ensures eq <==> degree == rhs.degree && CoefficientsClose(coef, rhs.coef)
    {
      if degree != rhs.degree {
        return false;
      }
      var i := 0;
      while i < |coef|
        invariant 0 <= i <= |coef|
        invariant forall k :: 0 <= k < i ==> !RelDiffExceeds(coef[k], rhs.coef[k])
      {
        if RelDiffExceeds(coef[i], rhs.coef[i]) {
          return false;
        }
        i := i + 1;
      }
      return true;
    }

    /** `operator!=`: the negation of `operator==`. */
    method NotEquals(rhs: Polynomial) returns (ne: bool)
      requires Valid() && rhs.Valid()
      requires degree == rhs.degree ==> |coef| <= |rhs.coef|
      ensures ne <==> !(degree == rhs.degree && CoefficientsClose(coef, rhs.coef))
    {
      var eq := Equals(rhs);
      ne := !eq;
    }
  }

  /** Every polynomial equals itself. */
  method EqualsItself(p: Polynomial) returns (eq: bool)
    requires p.Valid()
    ensures eq
  {
    CoefficientsCloseReflexive(p.coef);
    eq := p.Equals(p);
  }

  /** `poly::divide(p1, p2, R)`: the quotient, with the remainder as a second
      polynomial; both are fresh general polynomials. */
  method Divide(p1: Polynomial, p2: Polynomial) returns (res: Result<(Polynomial, Polynomial)>)
    requires |p1.coef| >= |p2.coef| > 0 ==> p2.coef[|p2.coef| - 1] != 0.0
    ensures |p1.coef| == 0 || |p2.coef| == 0 ==> res == Err(ZeroCoeffsLength)
    ensures |p1.coef| > 0 && |p2.coef| > 0 ==>
      && res.Ok?
      && fresh(res.value.0) && fresh(res.value.1)
      && res.value.0.Valid() && res.value.1.Valid()
      && res.value.0.polyType == General && res.value.1.polyType == General
      && IsDivisionOf(p1.coef, p2.coef, res.value.0.coef, res.value.1.coef)
  {
    var d := BasicOperations.Divide(p1.coef, p2.coef);
    if d.Err? {
      return Err(d.error);
    }
    var r := new Polynomial.FromCoef(d.value.remainder);
    var q := new Polynomial.FromCoef(d.value.quotient);
    return Ok((q, r));
  }

  /** q and r are a quotient and remainder of p1 by p2. */
  ghost predicate IsDivisionOf(p1: seq<real>, p2: seq<real>, q: seq<real>, r: seq<real>)
  {
    |p2| > 0 && BasicOperations.IsDivision(p1, p2, BasicOperations.Division(q, r))
  }

  /** `poly::quotient(p1, p2)`. */
  method Quotient(p1: Polynomial, p2: Polynomial) returns (res: Result<Polynomial>)
    requires |p1.coef| >= |p2.coef| > 0 ==> p2.coef[|p2.coef| - 1] != 0.0
    ensures |p1.coef| == 0 || |p2.coef| == 0 ==> res == Err(ZeroCoeffsLength)
    ensures |p1.coef| > 0 && |p2.coef| > 0 ==>
      && res.Ok? && fresh(res.value) && res.value.Valid() && res.value.polyType == General
      && exists r :: IsDivisionOf(p1.coef, p2.coef, res.value.coef, r)
  {
    var d := BasicOperations.Divide(p1.coef, p2.coef);
    if d.Err? {
      return Err(d.error);
    }
    var q := new Polynomial.FromCoef(d.value.quotient);
    assert IsDivisionOf(p1.coef, p2.coef, q.coef, d.value.remainder);
    return Ok(q);
  }

  /** `poly::remainder(p1, p2)`. */
  method Remainder(p1: Polynomial, p2: Polynomial) returns (res: Result<Polynomial>)
    requires |p1.coef| >= |p2.coef| > 0 ==> p2.coef[|p2.coef| - 1] != 0.0
    ensures |p1.coef| == 0 || |p2.coef| == 0 ==> res == Err(ZeroCoeffsLength)
    ensures |p1.coef| > 0 && |p2.coef| > 0 ==>
      && res.Ok? && fresh(res.value) && res.value.Valid() && res.value.polyType == General
      && exists q :: IsDivisionOf(p1.coef, p2.coef, q, res.value.coef)
  {
    var d := BasicOperations.Divide(p1.coef, p2.coef);
    if d.Err? {
      return Err(d.error);
    }
    var r := new Polynomial.FromCoef(d.value.remainder);
    assert IsDivisionOf(p1.coef, p2.coef, d.value.quotient, r.coef);
    return Ok(r);
  }

  /** Whatever divide returns, p1(x) == Q(x)*p2(x) + R(x) at every x. */
  lemma {:induction false} DivisionOfValue(p1: seq<real>, p2: seq<real>, q: seq<real>, r: seq<real>, x: real)
    requires IsDivisionOf(p1, p2, q, r)
    ensures Horner(p1, x) == Horner(q, x) * Horner(p2, x) + Horner(r, x)
  {
    var d := BasicOperations.Division(q, r);
    BasicOperations.DivisionValue(p1, p2, d, x);
    assert d.quotient == q && d.remainder == r;
  }
}
