/** Radau polynomials (src/polynomial/radau.cpp): the end-node factor times a
    Jacobi polynomial of one degree less, scaled so that the polynomial is 1
    at the end point it does not vanish at. The left one is
    0.5 (1 + x) P(n-1; 0, 1), the right one s (1 - x) P(n-1; 1, 0) with
    s == -0.5 for even n and 0.5 for odd n. */
module RadauPolynomials {
  import opened Coefficients
  import Polynomials
  import JacobiPolynomials

  /** The two tags `Radau` accepts. */
  predicate IsRadau(t: Polynomials.PolyType)
  {
    t == Polynomials.PolyType.LeftRadau || t == Polynomials.PolyType.RightRadau
  }

  /** The Jacobi parameters and the end-node factor of each kind. */
  function Alpha(left: bool): real { if left then 0.0 else 1.0 }

  function Beta(left: bool): real { if left then 1.0 else 0.0 }

  /** The x coefficient of the end-node factor 1 + x (left) or 1 - x (right). */
  function EndSlope(left: bool): real { if left then 1.0 else -1.0 }

  function EndFactor(left: bool): seq<real> { [1.0, EndSlope(left)] }

  /** The scaling: 0.5 for the left kind; for the right kind 0.5 with the sign
      of (-1)^(n+1). */
  function Scaling(n: nat, left: bool): real
  {
    if left then 0.5 else 0.5 * (if n % 2 == 0 then -1.0 else 1.0)
  }

  /** Both parameter pairs are admissible and their first Jacobi step keeps
      its top coefficient, so every Jacobi degree is available. */
  lemma {:induction false} ParametersKept(left: bool)
    ensures JacobiPolynomials.Admissible(Alpha(left), Beta(left))
    ensures JacobiPolynomials.FirstStepKept(Alpha(left), Beta(left))
  {
    assert JacobiPolynomials.Times3(3.0, 4.0, 5.0) == 60.0;
  }

  /** The Jacobi factor P(n-1; alpha, beta). */
  function JacobiFactor(n: nat, left: bool): (c: seq<real>)
    requires n >= 1
    ensures |c| == n && c[n - 1] > 0.0
  {
    ParametersKept(left);
    JacobiPolynomials.JacobiCoefficients(Alpha(left), Beta(left), n - 1)
  }

  /** The coefficients `Radau` returns: `p *= s` convolves the end-node factor
      with the Jacobi factor, `p *= scaling` scales the result. */
  function RadauCoefficients(n: nat, left: bool): (c: seq<real>)
    requires n >= 1
    ensures |c| == n + 1
  {
    Scaled(Convolution(EndFactor(left), JacobiFactor(n, left)), Scaling(n, left))
  }

  /** `Radau(n, type)`: Err(IllegalType) for a tag other than LEFTRADAU and
      RIGHTRADAU; otherwise a fresh polynomial of degree n holding
      RadauCoefficients and tagged with the requested type. */
  method Radau(n: nat, t: Polynomials.PolyType) returns (r: Result<Polynomials.Polynomial>)
    requires n >= 1
    ensures r.Err? <==> !IsRadau(t)
    ensures r.Err? ==> r.error == IllegalType
    ensures r.Ok? ==> fresh(r.value) && r.value.Valid() && r.value.polyType == t
    ensures r.Ok? ==> r.value.coef == RadauCoefficients(n, t == Polynomials.PolyType.LeftRadau)
    ensures r.Ok? ==> r.value.degree == n
  {
    var s: Polynomials.Polynomial;
    var p: Polynomials.Polynomial;
    var scaling: real;
    ghost var left := t == Polynomials.PolyType.LeftRadau;
    if t == Polynomials.PolyType.RightRadau {
      ParametersKept(false);
      var alpha, beta := 1.0, 0.0;
      var j := JacobiPolynomials.Jacobi(alpha, beta, n - 1);
      s := j.value;
      p := new Polynomials.Polynomial.FromCoef([1.0, -1.0]);
      scaling := 0.5 * (if n % 2 == 0 then -1.0 else 1.0);
    } else if t == Polynomials.PolyType.LeftRadau {
      ParametersKept(true);
      var alpha, beta := 0.0, 1.0;
      var j := JacobiPolynomials.Jacobi(alpha, beta, n - 1);
      s := j.value;
      p := new Polynomials.Polynomial.FromCoef([1.0, 1.0]);
      scaling := 0.5;
    } else {
      return Err(IllegalType);
    }
    Assemble(p, s, scaling, t, n, left);
    return Ok(p);
  }

  /** The tail of `Radau`: `p *= s; p *= scaling; p.set_type(type)` on the
      end-node factor p and the Jacobi factor s. */
  method Assemble(p: Polynomials.Polynomial, s: Polynomials.Polynomial, scaling: real,
                  t: Polynomials.PolyType, n: nat, ghost left: bool)
    requires n >= 1 && p.Valid() && s.Valid()
    requires s.coef == JacobiFactor(n, left) && p.coef == EndFactor(left) && scaling == Scaling(n, left)
    modifies p
    ensures p.Valid() && p.polyType == t && p.degree == n
    ensures p.coef == RadauCoefficients(n, left)
  {
    var _ := p.MulAssign(s);
    p.ScaleAssign(scaling);
    p.SetType(t);
  }

  /** As a function the polynomial r is Scaling * f * j, with f the end-node
      factor (EndFactorValue) and j the Jacobi factor: 0.5 (1 + x) P(n-1; 0, 1)
      on the left, s (1 - x) P(n-1; 1, 0) on the right with s == -0.5 for even
      n and 0.5 for odd n. */
  lemma {:induction false} RadauValue(n: nat, left: bool, x: real, r: seq<real>, j: seq<real>)
    requires n >= 1 && r == RadauCoefficients(n, left) && j == JacobiFactor(n, left)
    ensures Horner(r, x) == Scaling(n, left) * (Horner(EndFactor(left), x) * Horner(j, x))
  {
    ScaledProductValue(EndFactor(left), j, Scaling(n, left), x);
  }

  /** The end-node factor is 1 + x on the left and 1 - x on the right. */
  lemma {:induction false} EndFactorValue(left: bool, x: real)
    ensures Horner(EndFactor(left), x) == 1.0 + EndSlope(left) * x
  {
    HornerLinear(1.0, EndSlope(left), x);
  }

  /** The value of s * f(x) * j(x), computed from the coefficients of s * f * j. */
  lemma {:induction false} ScaledProductValue(f: seq<real>, j: seq<real>, s: real, x: real)
    requires |f| > 0 && |j| > 0
    ensures Horner(Scaled(Convolution(f, j), s), x) == s * (Horner(f, x) * Horner(j, x))
  {
    HornerScaled(Convolution(f, j), s, x);
    HornerConvolution(f, j, x);
  }

  /** An end point where f(x) == 2 and s * j(x) == 1/2: the value is 1. */
  lemma {:induction false} UnitEnd(f: seq<real>, j: seq<real>, s: real, x: real, t: real)
    requires |f| > 0 && |j| > 0 && Horner(f, x) == 2.0 && Horner(j, x) == t && s * t == 0.5
    ensures Horner(Scaled(Convolution(f, j), s), x) == 1.0
  {
    ScaledProductValue(f, j, s, x);
  }

  /** An end point where f(x) == 0: the value is 0. */
  lemma {:induction false} ZeroEnd(f: seq<real>, j: seq<real>, s: real, x: real)
    requires |f| > 0 && |j| > 0 && Horner(f, x) == 0.0
    ensures Horner(Scaled(Convolution(f, j), s), x) == 0.0
  {
    ScaledProductValue(f, j, s, x);
  }

  /** The left polynomial r vanishes at -1 and is 1 at +1; the right one
      vanishes at +1 and is 1 at -1. */
  lemma {:induction false} RadauEndValues(n: nat, left: bool, r: seq<real>)
    requires n >= 1 && r == RadauCoefficients(n, left)
    ensures left ==> Horner(r, -1.0) == 0.0 && Horner(r, 1.0) == 1.0
    ensures !left ==> Horner(r, 1.0) == 0.0 && Horner(r, -1.0) == 1.0
  {
    if left {
      Vanishes(n, left, r, -1.0);
      LeftAtOne(n, r, JacobiFactor(n, left));
    } else {
      Vanishes(n, left, r, 1.0);
      RightAtMinusOne(n, r, JacobiFactor(n, left));
    }
  }

  /** The root of the end-node factor is a root of the polynomial. */
  lemma {:induction false} Vanishes(n: nat, left: bool, r: seq<real>, x: real)
    requires n >= 1 && r == RadauCoefficients(n, left) && x == -EndSlope(left)
    ensures Horner(r, x) == 0.0
  {
    EndFactorValue(left, x);
    ZeroEnd(EndFactor(left), JacobiFactor(n, left), Scaling(n, left), x);
  }

  /** The left polynomial is 1 at +1. */
  lemma {:induction false} LeftAtOne(n: nat, r: seq<real>, j: seq<real>)
    requires n >= 1 && r == RadauCoefficients(n, true) && j == JacobiFactor(n, true)
    ensures Horner(r, 1.0) == 1.0
  {
    LeftFactorAtOne(n, j);
    EndFactorValue(true, 1.0);
    UnitEnd(EndFactor(true), j, Scaling(n, true), 1.0, 1.0);
  }

  /** P(n-1; 0, 1)(1) == 1. */
  lemma {:induction false} LeftFactorAtOne(n: nat, j: seq<real>)
    requires n >= 1 && j == JacobiFactor(n, true)
    ensures Horner(j, 1.0) == 1.0
  {
    ParametersKept(true);
    JacobiPolynomials.JacobiEndValues(Alpha(true), Beta(true), n - 1, j);
    JacobiPolynomials.JacobiAtZero(n - 1);
  }

  /** The right polynomial is 1 at -1. */
  lemma {:induction false} RightAtMinusOne(n: nat, r: seq<real>, j: seq<real>)
    requires n >= 1 && r == RadauCoefficients(n, false) && j == JacobiFactor(n, false)
    ensures Horner(r, -1.0) == 1.0
  {
    RightFactorAtMinusOne(n, j);
    ScalingCancelsSign(n);
    EndFactorValue(false, -1.0);
    UnitEnd(EndFactor(false), j, Scaling(n, false), -1.0, Sign(n - 1));
  }

  /** P(n-1; 1, 0)(-1) == (-1)^(n-1), which the sign of the scaling cancels. */
  lemma {:induction false} RightFactorAtMinusOne(n: nat, j: seq<real>)
    requires n >= 1 && j == JacobiFactor(n, false)
    ensures Horner(j, -1.0) == Sign(n - 1)
  {
    ParametersKept(false);
    JacobiPolynomials.JacobiEndValues(Alpha(false), Beta(false), n - 1, j);
    JacobiPolynomials.JacobiAtMinusOneZero(n - 1);
  }

  /** The right scaling is 0.5 (-1)^(n-1). */
  lemma {:induction false} ScalingCancelsSign(n: nat)
    requires n >= 1
    ensures Scaling(n, false) * Sign(n - 1) == 0.5
  {
    if n % 2 == 0 {
      assert Sign(n - 1) == -1.0;
    } else {
      assert Sign(n - 1) == 1.0;
    }
  }

  /** The top coefficient never vanishes: the degree is exactly n. */
  lemma {:induction false} RadauLeading(n: nat, left: bool)
    requires n >= 1
    ensures RadauCoefficients(n, left)[n] != 0.0
  {
    ScaledProductTop(EndSlope(left), JacobiFactor(n, left), Scaling(n, left));
  }

  /** The top coefficient of s * (1 + f1*x) * j. */
  lemma {:induction false} ScaledProductTop(f1: real, j: seq<real>, s: real)
    requires |j| > 0
    ensures |Scaled(Convolution([1.0, f1], j), s)| == |j| + 1
    ensures Scaled(Convolution([1.0, f1], j), s)[|j|] == j[|j| - 1] * f1 * s
    ensures f1 != 0.0 && s != 0.0 && j[|j| - 1] != 0.0 ==> Scaled(Convolution([1.0, f1], j), s)[|j|] != 0.0
  {
    ScaledAt(Convolution([1.0, f1], j), s, |j|);
    ConvolutionAt([1.0, f1], j, |j|);
    ConvAtLinear(1.0, f1, j, |j|);
    assert At(j, |j|) == 0.0 && At(j, |j| - 1) == j[|j| - 1];
    if f1 != 0.0 && s != 0.0 && j[|j| - 1] != 0.0 {
      NonZeroProduct(j[|j| - 1], f1, s);
    }
  }

  lemma {:induction false} NonZeroProduct(a: real, b: real, c: real)
    requires a != 0.0 && b != 0.0 && c != 0.0
    ensures a * b * c != 0.0
  {
    assert a * b != 0.0;
  }
}
