/** Jacobi polynomials P(n) with parameters alpha, beta > -1
    (src/polynomial/jacobi.cpp): P(0) == 1, P(1) == (alpha - beta)/2 +
    ((alpha + beta)/2 + 1) x, and above that the three-term recurrence
    a1 P(i+1) = (a2 + a3 x) P(i) - a4 P(i-1). */
module JacobiPolynomials {
  import opened Coefficients
  import Polynomials
  import Recurrences

  /** Every multiplier is a product of three factors. */
  function Times3(a: real, b: real, c: real): real
  {
    a * b * c
  }

  /** The multipliers of step i (from P(i) and P(i-1) to P(i+1)), with
      c1 == alpha + beta, np1 == i + 1, nt2 == 2i, np1t2 == 2(i + 1) and
      nt2p1 == 2i + 1. */
  function JA1(alpha: real, beta: real, i: nat): real
  {
    Times3(((i as real) + 1.0) * 2.0, ((i as real) + 1.0) + (alpha + beta), (i as real) * 2.0 + (alpha + beta))
  }

  function JA2(alpha: real, beta: real, i: nat): real
  {
    Times3((i as real) * 2.0 + 1.0 + (alpha + beta), alpha + beta, alpha - beta)
  }

  function JA3(alpha: real, beta: real, i: nat): real
  {
    Times3((i as real) * 2.0 + (alpha + beta), (i as real) * 2.0 + 1.0 + (alpha + beta), ((i as real) + 1.0) * 2.0 + (alpha + beta))
  }

  function JA4(alpha: real, beta: real, i: nat): real
  {
    Times3(2.0 * (alpha + (i as real)), beta + (i as real), (alpha + beta) + ((i as real) + 1.0) * 2.0)
  }

  /** The parameter check of the debug build: alpha and beta above -1. */
  predicate Admissible(alpha: real, beta: real)
  {
    alpha > -1.0 && beta > -1.0
  }

  /** For admissible parameters every step divides by a positive a1; from
      step 2 on, a3 exceeds both a1 and 24, so a top coefficient of at
      least 1/4 does not shrink and stays significant. */
  lemma {:induction false} JacobiMultipliers(alpha: real, beta: real, i: nat)
    requires Admissible(alpha, beta) && i >= 1
    ensures JA1(alpha, beta, i) > 0.0 && JA3(alpha, beta, i) > 0.0
    ensures i >= 2 ==> JA3(alpha, beta, i) > JA1(alpha, beta, i) && JA3(alpha, beta, i) > 24.0
  {
    MultiplierBounds((i as real) + 1.0, alpha + beta,
      ((i as real) + 1.0) * 2.0, ((i as real) + 1.0) + (alpha + beta), (i as real) * 2.0 + (alpha + beta),
      (i as real) * 2.0 + 1.0 + (alpha + beta), ((i as real) + 1.0) * 2.0 + (alpha + beta));
  }

  /** The same bounds on plain numbers, with t == i + 1 and c == alpha + beta:
      a1 == w u x and a3 == x y z. */
  lemma {:induction false} MultiplierBounds(t: real, c: real, w: real, u: real, x: real, y: real, z: real)
    requires t >= 2.0 && c > -2.0
    requires w == t * 2.0 && u == t + c && x == (t - 1.0) * 2.0 + c && y == x + 1.0 && z == t * 2.0 + c
    ensures Times3(w, u, x) > 0.0 && Times3(x, y, z) > 0.0
    ensures t >= 3.0 ==> Times3(x, y, z) > Times3(w, u, x) && Times3(x, y, z) > 24.0
  {
    PositiveProduct(w, u, x);
    PositiveProduct(x, y, z);
    if t >= 3.0 {
      BigProduct(x, y, z);
      InnerGrowth(t, c, w, u, y, z);
      MoreProduct(x, y * z, w * u);
      assert x * y * z == x * (y * z);
      assert w * u * x == x * (w * u);
    }
  }

  /** y z - w u == (c + t - 1/2)^2 + t^2 - t - 1/4, positive for t >= 3. */
  lemma {:induction false} InnerGrowth(t: real, c: real, w: real, u: real, y: real, z: real)
    requires t >= 3.0 && w == t * 2.0 && u == t + c && y == (t - 1.0) * 2.0 + c + 1.0 && z == t * 2.0 + c
    ensures y * z > w * u
  {
    var e := c + t - 0.5;
    Square(e);
    assert y * z - w * u == e * e + (t * t - t - 0.25);
    AtLeastProduct(t, t, 3.0);
  }

  lemma {:induction false} PositiveProduct(a: real, b: real, c: real)
    requires a > 0.0 && b > 0.0 && c > 0.0
    ensures a * b * c > 0.0
  {
    assert a * b > 0.0;
  }

  lemma {:induction false} BigProduct(x: real, y: real, z: real)
    requires x > 2.0 && y > 3.0 && z > 4.0
    ensures x * y * z > 24.0
  {
    assert x * y > 2.0 * y;
    assert 2.0 * y > 6.0;
    assert x * y * z > 6.0 * z;
  }

  lemma {:induction false} MoreProduct(x: real, u: real, v: real)
    requires x > 0.0 && u > v
    ensures x * u > x * v
  {
  }

  lemma {:induction false} AtLeastProduct(x: real, u: real, v: real)
    requires x >= 0.0 && u >= v
    ensures x * u >= x * v
  {
  }

  lemma {:induction false} Square(e: real)
    ensures e * e >= 0.0
  {
    if e < 0.0 {
      assert e * e == (-e) * (-e);
      MoreProduct(-e, -e, 0.0);
    } else if e > 0.0 {
      MoreProduct(e, e, 0.0);
    }
  }

  lemma {:induction false} AtLeastQuotient(x: real, y: real, t: real)
    requires y > 0.0 && x >= t * y
    ensures x / y >= t
  {
  }

  // ---------------------------------------------------------------------
  // The generated coefficients

  /** P(1) as the source writes it: (alpha - beta)/2 + ((alpha + beta)/2 + 1) x. */
  function JacobiP1(alpha: real, beta: real): (c: seq<real>)
    ensures |c| == 2 && c[1] == (alpha + beta) / 2.0 + 1.0
  {
    [(alpha - beta) / 2.0, (alpha + beta) / 2.0 + 1.0]
  }

  /** The first step keeps its top coefficient: a3 * P(1)[1] is not below
      the trimming tolerance, where a3 of step 1 is (c + 2)(c + 3)(c + 4)
      with c == alpha + beta. For admissible parameters the product is
      positive, and only alpha + beta within about 1e-6 of -2 fails this. */
  predicate FirstStepKept(alpha: real, beta: real)
  {
    ((alpha + beta) / 2.0 + 1.0) * Times3(alpha + beta + 2.0, alpha + beta + 3.0, alpha + beta + 4.0) >= ZeroTol
  }

  /** What the loop needs of the top coefficient of Pi at step i: at step 1
      it is the one of P(1) and the first step keeps it, later it is at
      least 1/4. */
  predicate LeadKept(alpha: real, beta: real, p: seq<real>, i: nat)
    requires |p| == i + 1
  {
    if i == 1 then p[1] == (alpha + beta) / 2.0 + 1.0 && FirstStepKept(alpha, beta)
    else p[i] >= 0.25
  }

  /** The member of degree n the loop reaches when it is at step i with
      Pi == p and Pim1 == q, trimming and division included. */
  function JacobiFrom(alpha: real, beta: real, p: seq<real>, q: seq<real>, i: nat, n: nat): (c: seq<real>)
    requires Admissible(alpha, beta)
    requires 1 <= i <= n && |p| == i + 1 && |q| == i && LeadKept(alpha, beta, p, i)
    ensures |c| == n + 1 && LeadKept(alpha, beta, c, n)
    decreases n - i
  {
    if i == n then p
    else
      JacobiStepKeepsLead(alpha, beta, p, q, i);
      JacobiFrom(alpha, beta, Recurrences.NextTerm(p, q, JA1(alpha, beta, i), JA2(alpha, beta, i), JA3(alpha, beta, i), JA4(alpha, beta, i)), p, i + 1, n)
  }

  /** The coefficients of P(n): P(0), P(1), and above that the loop started
      from P(1) and P(0). */
  function JacobiCoefficients(alpha: real, beta: real, n: nat): (c: seq<real>)
    requires Admissible(alpha, beta) && (n >= 2 ==> FirstStepKept(alpha, beta))
    ensures |c| == n + 1 && c[n] > 0.0
  {
    if n == 0 then [1.0]
    else if n == 1 then JacobiP1(alpha, beta)
    else
      JacobiFrom(alpha, beta, JacobiP1(alpha, beta), [1.0], 1, n)
  }

  /** What one step from Pi == p, Pim1 == q with multipliers a1..a4 needs
      and gives: a positive a1, a top coefficient a3 * Pi[i] that is not
      trimmed, and a new top coefficient of at least 1/4. */
  predicate StepKeepsLead(p: seq<real>, q: seq<real>, i: nat, a1: real, a2: real, a3: real, a4: real)
    requires |p| == i + 1 && |q| == i
  {
    && a1 > 0.0
    && Abs(p[|p| - 1] * a3) >= ZeroTol
    && |Recurrences.NextTerm(p, q, a1, a2, a3, a4)| == i + 2
    && Recurrences.NextTerm(p, q, a1, a2, a3, a4)[i + 1] >= 0.25
  }

  /** `Jacobi(alpha, beta, n)`: Err(JacobiParameters) when alpha <= -1 or
      beta <= -1; otherwise a fresh polynomial holding
      JacobiCoefficients(alpha, beta, n), of degree n. P(0) and P(1) are
      returned as general polynomials, the loop's result is tagged JACOBI. */
  method Jacobi(alpha: real, beta: real, n: nat) returns (r: Result<Polynomials.Polynomial>)
    requires n >= 2 && Admissible(alpha, beta) ==> FirstStepKept(alpha, beta)
    ensures r.Err? <==> !Admissible(alpha, beta)
    ensures r.Err? ==> r.error == JacobiParameters
    ensures r.Ok? ==> fresh(r.value) && r.value.Valid()
    ensures r.Ok? ==> r.value.coef == JacobiCoefficients(alpha, beta, n) && r.value.degree == n
    ensures r.Ok? ==> r.value.polyType == if n >= 2 then Polynomials.PolyType.Jacobi else Polynomials.PolyType.General
  {
    if alpha <= -1.0 || beta <= -1.0 {
      return Err(JacobiParameters);
    }
    if n == 0 {
      var p := new Polynomials.Polynomial.FromCoef([1.0]);
      return Ok(p);
    }
    if n == 1 {
      var p := new Polynomials.Polynomial.FromCoef(JacobiP1(alpha, beta));
      return Ok(p);
    }
    var p := Members(alpha, beta, n);
    p.SetType(Polynomials.PolyType.Jacobi);
    return Ok(p);
  }

  /** The loop of `Jacobi` from Pi == P(1), Pim1 == P(0) up to P(n). */
  method Members(alpha: real, beta: real, n: nat) returns (p: Polynomials.Polynomial)
    requires Admissible(alpha, beta) && n >= 2 && FirstStepKept(alpha, beta)
    ensures fresh(p) && p.Valid()
    ensures p.coef == JacobiFrom(alpha, beta, JacobiP1(alpha, beta), [1.0], 1, n)
  {
    var pi := new Polynomials.Polynomial.FromCoef(JacobiP1(alpha, beta));
    var pim1 := new Polynomials.Polynomial.FromCoef([1.0]);
    var one := 1;
    Step(alpha, beta, pi, pim1, one, n);
    p := Iterate(alpha, beta, pim1, pi, one + 1, n);
  }

  /** The loop proper: from Pi == p, Pim1 == q at index i, both objects are
      advanced in turn until P(n); the one holding it is returned. */
  method Iterate(alpha: real, beta: real, pi: Polynomials.Polynomial, pim1: Polynomials.Polynomial, i0: nat, n: nat)
    returns (p: Polynomials.Polynomial)
    requires Admissible(alpha, beta) && 2 <= i0 <= n && pi != pim1 && pi.Valid() && pim1.Valid()
    requires |pi.coef| == i0 + 1 && |pim1.coef| == i0 && LeadKept(alpha, beta, pi.coef, i0)
    modifies pi, pim1
    ensures (p == pi || p == pim1) && p.Valid()
    ensures p.coef == JacobiFrom(alpha, beta, old(pi.coef), old(pim1.coef), i0, n)
  {
    ghost var goal := JacobiFrom(alpha, beta, pi.coef, pim1.coef, i0, n);
    var a, b := pi, pim1;
    var i := i0;
    while i < n
      invariant i0 <= i <= n
      invariant (a == pi && b == pim1) || (a == pim1 && b == pi)
      invariant a.Valid() && b.Valid()
      invariant |a.coef| == i + 1 && |b.coef| == i && LeadKept(alpha, beta, a.coef, i)
      invariant JacobiFrom(alpha, beta, a.coef, b.coef, i, n) == goal
    {
      Step(alpha, beta, a, b, i, n);
      a, b := b, a;
      i := i + 1;
    }
    return a;
  }

  /** One pass of the loop body: Pim1 becomes the member after Pi. */
  method Step(alpha: real, beta: real, pi: Polynomials.Polynomial, pim1: Polynomials.Polynomial, i: nat, ghost n: nat)
    requires Admissible(alpha, beta) && 1 <= i < n && pi != pim1 && pi.Valid() && pim1.Valid()
    requires |pi.coef| == i + 1 && |pim1.coef| == i && LeadKept(alpha, beta, pi.coef, i)
    modifies pim1
    ensures pim1.Valid() && |pim1.coef| == i + 2 && LeadKept(alpha, beta, pim1.coef, i + 1)
    ensures JacobiFrom(alpha, beta, pim1.coef, old(pi.coef), i + 1, n) == JacobiFrom(alpha, beta, old(pi.coef), old(pim1.coef), i, n)
  {
    JacobiStepKeepsLead(alpha, beta, pi.coef, pim1.coef, i);
    AdvanceKept(pi, pim1, i, JA1(alpha, beta, i), JA2(alpha, beta, i), JA3(alpha, beta, i), JA4(alpha, beta, i));
  }

  /** The loop body with multipliers that keep the top coefficient. */
  method AdvanceKept(pi: Polynomials.Polynomial, pim1: Polynomials.Polynomial, i: nat, a1: real, a2: real, a3: real, a4: real)
    requires pi != pim1 && pi.Valid() && pim1.Valid() && |pi.coef| == i + 1 && |pim1.coef| == i
    requires StepKeepsLead(pi.coef, pim1.coef, i, a1, a2, a3, a4)
    modifies pim1
    ensures StepKeepsLead(old(pi.coef), old(pim1.coef), i, a1, a2, a3, a4)
    ensures pim1.Valid()
    ensures pim1.coef == Recurrences.NextTerm(old(pi.coef), old(pim1.coef), a1, a2, a3, a4)
  {
    Recurrences.Advance(pi, pim1, a1, a2, a3, a4);
  }

  /** Every step of the loop keeps the top coefficient. */
  lemma {:induction false} JacobiStepKeepsLead(alpha: real, beta: real, p: seq<real>, q: seq<real>, i: nat)
    requires Admissible(alpha, beta)
    requires i >= 1 && |p| == i + 1 && |q| == i && LeadKept(alpha, beta, p, i)
    ensures StepKeepsLead(p, q, i, JA1(alpha, beta, i), JA2(alpha, beta, i), JA3(alpha, beta, i), JA4(alpha, beta, i))
  {
    if i == 1 {
      FirstLead(alpha, beta, i);
      TopStep(p, q, i, JA1(alpha, beta, i), JA2(alpha, beta, i), JA3(alpha, beta, i), JA4(alpha, beta, i));
    } else {
      JacobiMultipliers(alpha, beta, i);
      LaterStep(p, q, i, JA1(alpha, beta, i), JA2(alpha, beta, i), JA3(alpha, beta, i), JA4(alpha, beta, i));
    }
  }

  /** At step 1 the top coefficient (alpha + beta)/2 + 1 of P(1) becomes
      (3 + c)(4 + c)/8 >= 1/4, with c == alpha + beta. */
  lemma {:induction false} FirstLead(alpha: real, beta: real, i: nat)
    requires Admissible(alpha, beta) && i == 1
    ensures JA1(alpha, beta, i) > 0.0
    ensures ((alpha + beta) / 2.0 + 1.0) * JA3(alpha, beta, i) >= 0.25 * JA1(alpha, beta, i)
    ensures JA3(alpha, beta, i) == Times3(alpha + beta + 2.0, alpha + beta + 3.0, alpha + beta + 4.0)
  {
    FirstRatio(alpha + beta + 2.0, (alpha + beta) / 2.0 + 1.0,
      ((i as real) + 1.0) * 2.0, ((i as real) + 1.0) + (alpha + beta), (i as real) * 2.0 + (alpha + beta),
      (i as real) * 2.0 + 1.0 + (alpha + beta), ((i as real) + 1.0) * 2.0 + (alpha + beta),
      alpha + beta + 2.0, alpha + beta + 3.0, alpha + beta + 4.0);
  }

  /** A later step, on plain numbers. */
  lemma {:induction false} LaterStep(p: seq<real>, q: seq<real>, i: nat, a1: real, a2: real, a3: real, a4: real)
    requires |p| == i + 1 && |q| == i && p[i] >= 0.25
    requires a1 > 0.0 && a3 > a1 && a3 > 24.0
    ensures StepKeepsLead(p, q, i, a1, a2, a3, a4)
  {
    LeadGrows(p[i], a1, a3);
    TopStep(p, q, i, a1, a2, a3, a4);
  }

  lemma {:induction false} FirstRatio(d: real, l: real, w: real, u: real, x: real, y: real, z: real, e: real, f: real, g: real)
    requires d > 0.0 && l == d / 2.0 && w == 4.0 && u == d && x == d && y == d + 1.0 && z == d + 2.0
    requires e == d && f == d + 1.0 && g == d + 2.0
    ensures Times3(w, u, x) > 0.0 && l * Times3(x, y, z) >= 0.25 * Times3(w, u, x)
    ensures Times3(x, y, z) == Times3(e, f, g)
  {
    PositiveProduct(w, u, x);
    assert (d + 1.0) * (d + 2.0) >= 2.0 by {
      AtLeastProduct(d + 1.0, d + 2.0, 2.0);
      AtLeastProduct(2.0, d + 1.0, 1.0);
    }
    AtLeastProduct(d * d, (d + 1.0) * (d + 2.0) / 2.0, 1.0);
    assert l * (x * y * z) == d * d * ((d + 1.0) * (d + 2.0) / 2.0);
    assert 0.25 * (w * u * x) == d * d * 1.0;
  }

  /** From step 2 on, a3 > a1 and a3 > 24: a top coefficient of at least 1/4
      is significant after multiplying by a3 and stays at least 1/4. */
  lemma {:induction false} LeadGrows(l: real, a1: real, a3: real)
    requires l >= 0.25 && a1 > 0.0 && a3 > a1 && a3 > 24.0
    ensures a1 > 0.0 && l * a3 >= ZeroTol && l * a3 >= 0.25 * a1
  {
    AtLeastProduct(a3, l, 0.25);
  }

  /** The new top coefficient a3 * Pi[i] / a1 is at least 1/4. */
  lemma {:induction false} TopStep(p: seq<real>, q: seq<real>, i: nat, a1: real, a2: real, a3: real, a4: real)
    requires |p| == i + 1 && |q| == i && a1 > 0.0
    requires p[i] * a3 >= ZeroTol && p[i] * a3 >= 0.25 * a1
    ensures StepKeepsLead(p, q, i, a1, a2, a3, a4)
  {
    Recurrences.NextTermTop(p, q, a1, a2, a3, a4);
    AtLeastQuotient(p[i] * a3, a1, 0.25);
  }

  // ---------------------------------------------------------------------
  // The values at the ends of [-1, 1]

  /** The binomial coefficient C(n + a, n) == (1 + a)(2 + a)...(n + a) / n!,
      the value of P(n) at x == 1 (with a == alpha) and, up to the sign
      (-1)^n, at x == -1 (with a == beta). */
  function JacobiAt(a: real, n: nat): real
  {
    if n == 0 then 1.0 else JacobiAt(a, n - 1) * ((n as real) + a) / (n as real)
  }

  /** The value of P(n) at x == -1. */
  function JacobiAtMinusOne(beta: real, n: nat): real
  {
    Sign(n) * JacobiAt(beta, n)
  }

  /** C(n, n) == 1. */
  lemma {:induction false} JacobiAtZero(n: nat)
    ensures JacobiAt(0.0, n) == 1.0
  {
    if n > 0 {
      JacobiAtZero(n - 1);
    }
  }

  /** Hence P(n; alpha, 0) is (-1)^n at x == -1. */
  lemma {:induction false} JacobiAtMinusOneZero(n: nat)
    ensures JacobiAtMinusOne(0.0, n) == Sign(n)
  {
    JacobiAtZero(n);
  }

  // Times and Shift name the nonlinear products and shifted indices so that
  // the recurrence lemmas below match them as terms instead of leaving the
  // solver to rediscover them; the `1.0 *` factors serve the same purpose.
  function Times(a: real, b: real): real
  {
    a * b
  }

  function Shift(a: real, i: nat): real
  {
    a + (i as real)
  }

  /** a1 == (i + 1) w, and a4 == (alpha + i) u == (beta + i) v. */
  function SplitW(alpha: real, beta: real, i: nat): real
  {
    2.0 * (((i as real) + 1.0) + (alpha + beta)) * ((i as real) * 2.0 + (alpha + beta))
  }

  function SplitU(alpha: real, beta: real, i: nat): real
  {
    2.0 * (beta + (i as real)) * ((alpha + beta) + ((i as real) + 1.0) * 2.0)
  }

  function SplitV(alpha: real, beta: real, i: nat): real
  {
    2.0 * (alpha + (i as real)) * ((alpha + beta) + ((i as real) + 1.0) * 2.0)
  }

  lemma {:induction false} SplitA1(alpha: real, beta: real, i: nat)
    requires Admissible(alpha, beta) && i >= 1
    ensures SplitW(alpha, beta, i) > 0.0
    ensures JA1(alpha, beta, i) == Times(Shift(1.0, i), SplitW(alpha, beta, i))
  {
    JacobiMultipliers(alpha, beta, i);
    assert JA1(alpha, beta, i) == ((i as real) + 1.0) * SplitW(alpha, beta, i);
    if SplitW(alpha, beta, i) <= 0.0 {
      AtLeastProduct((i as real) + 1.0, 0.0, SplitW(alpha, beta, i));
    }
  }

  lemma {:induction false} SplitA4(alpha: real, beta: real, i: nat)
    ensures JA4(alpha, beta, i) == Times(Shift(alpha, i), SplitU(alpha, beta, i))
    ensures JA4(alpha, beta, i) == Times(Shift(beta, i), SplitV(alpha, beta, i))
  {
  }

  /** a2 + a3 - u i == w (i + 1 + alpha); t stands for i. */
  lemma {:induction false} IdentityPlus(alpha: real, beta: real, t: real)
    ensures Times3(t * 2.0 + 1.0 + (alpha + beta), alpha + beta, alpha - beta)
          + Times3(t * 2.0 + (alpha + beta), t * 2.0 + 1.0 + (alpha + beta), (t + 1.0) * 2.0 + (alpha + beta))
          - 2.0 * (beta + t) * ((alpha + beta) + (t + 1.0) * 2.0) * t
         == 2.0 * ((t + 1.0) + (alpha + beta)) * (t * 2.0 + (alpha + beta)) * (t + 1.0 + alpha)
  {
  }

  /** a3 - a2 - v i == w (i + 1 + beta). */
  lemma {:induction false} IdentityMinus(alpha: real, beta: real, t: real)
    ensures Times3(t * 2.0 + (alpha + beta), t * 2.0 + 1.0 + (alpha + beta), (t + 1.0) * 2.0 + (alpha + beta))
          - Times3(t * 2.0 + 1.0 + (alpha + beta), alpha + beta, alpha - beta)
          - 2.0 * (alpha + t) * ((alpha + beta) + (t + 1.0) * 2.0) * t
         == 2.0 * ((t + 1.0) + (alpha + beta)) * (t * 2.0 + (alpha + beta)) * (t + 1.0 + beta)
  {
    var c := alpha + beta;
    var y := t * 2.0 + 1.0 + c;
    assert Times3(t * 2.0 + c, y, (t + 1.0) * 2.0 + c) - Times3(y, c, alpha - beta)
        == y * ((t * 2.0 + c) * ((t + 1.0) * 2.0 + c) - c * (alpha - beta));
  }

  lemma {:induction false} StepIdentities(alpha: real, beta: real, i: nat)
    ensures 1.0 * (JA2(alpha, beta, i) + JA3(alpha, beta, i) * 1.0) - Times(SplitU(alpha, beta, i), i as real)
         == Times(SplitW(alpha, beta, i), Shift(alpha, i) + 1.0)
    ensures -1.0 * (JA2(alpha, beta, i) + JA3(alpha, beta, i) * -1.0) - Times(SplitV(alpha, beta, i), i as real)
         == Times(SplitW(alpha, beta, i), Shift(beta, i) + 1.0)
  {
    IdentityPlus(alpha, beta, i as real);
    IdentityMinus(alpha, beta, i as real);
  }

  /** One step at an end point x == 1 or x == -1, on plain numbers: with
      a1 == k w, a4 == g u and the values vi, vim1 of Pi and Pim1 there in
      the ratio vim1 g == x vi t, the next member takes the value
      x vi (g + 1) / k. */
  lemma {:induction false} EndRatio(a1: real, a2: real, a3: real, a4: real, x: real, t: real, k: real, w: real, g: real, u: real,
                                    vi: real, vim1: real)
    requires k == t + 1.0 && k > 0.0 && w != 0.0 && (x == 1.0 || x == -1.0)
    requires a1 == Times(k, w) && a4 == Times(g, u)
    requires Times(vim1, g) == x * Times(vi, t)
    requires x * (a2 + a3 * x) - Times(u, t) == Times(w, g + 1.0)
    ensures a1 != 0.0
    ensures Recurrences.NextValue(a1, a2, a3, a4, x, vi, vim1) == x * Times(vi, g + 1.0) / k
  {
    Numerator(a2, a3, a4, t, w, g, u, x, vi, vim1);
    QuotientOf(a1, a2, a3, a4, x, k, w, vi, vim1, x * Times(vi, g + 1.0));
  }

  lemma {:induction false} Numerator(a2: real, a3: real, a4: real, t: real, w: real, g: real, u: real,
                                     x: real, vi: real, vim1: real)
    requires (x == 1.0 || x == -1.0) && a4 == Times(g, u)
    requires Times(vim1, g) == x * Times(vi, t)
    requires x * (a2 + a3 * x) - Times(u, t) == Times(w, g + 1.0)
    ensures -a4 * vim1 + (a2 + a3 * x) * vi == (x * Times(vi, g + 1.0)) * w
  {
    RatioTerm(a4, vim1, g, u, x * vi * t);
    RatioSum(a2 + a3 * x, u, t, w, g, x, vi);
    NegTimes(a4, vim1);
  }

  lemma {:induction false} RatioTerm(a4: real, vim1: real, g: real, u: real, m: real)
    requires a4 == g * u && vim1 * g == m
    ensures a4 * vim1 == u * m
  {
    assert a4 * vim1 == u * (vim1 * g);
  }

  lemma {:induction false} RatioSum(s: real, u: real, t: real, w: real, g: real, sigma: real, vi: real)
    requires (sigma == 1.0 || sigma == -1.0) && sigma * s - u * t == w * (g + 1.0)
    ensures -(u * (sigma * vi * t)) + s * vi == (sigma * vi * (g + 1.0)) * w
  {
    if sigma == 1.0 {
      assert s - u * t == w * (g + 1.0);
      assert -(u * (vi * t)) + s * vi == vi * (s - u * t);
    } else {
      assert s + u * t == -(w * (g + 1.0));
      assert -(u * (-vi * t)) + s * vi == vi * (s + u * t);
    }
  }

  lemma {:induction false} NegTimes(a: real, b: real)
    ensures -a * b == -(a * b)
  {
  }

  lemma {:induction false} QuotientOf(a1: real, a2: real, a3: real, a4: real, x: real, k: real, w: real,
                                      vi: real, vim1: real, y: real)
    requires k != 0.0 && w != 0.0 && a1 == Times(k, w)
    requires -a4 * vim1 + (a2 + a3 * x) * vi == y * w
    ensures a1 != 0.0
    ensures Recurrences.NextValue(a1, a2, a3, a4, x, vi, vim1) == y / k
  {
    QuotientCancel(-a4 * vim1 + (a2 + a3 * x) * vi, a1, y, k, w);
  }

  lemma {:induction false} QuotientCancel(n: real, d: real, x: real, k: real, w: real)
    requires k != 0.0 && w != 0.0 && n == x * w && d == k * w
    ensures n / d == x / k
  {
    assert n * k == x * d;
  }

  /** The ratios of consecutive end values. */
  lemma {:induction false} AtOneRatio(alpha: real, i: nat)
    requires alpha > -1.0 && i >= 1
    ensures Times(JacobiAt(alpha, i - 1), Shift(alpha, i)) == 1.0 * Times(JacobiAt(alpha, i), i as real)
    ensures JacobiAt(alpha, i + 1) == 1.0 * Times(JacobiAt(alpha, i), Shift(alpha, i) + 1.0) / Shift(1.0, i)
  {
    AtOneBack(alpha, i);
    AtOneForward(alpha, i);
  }

  lemma {:induction false} AtOneBack(alpha: real, i: nat)
    requires i >= 1
    ensures Times(JacobiAt(alpha, i - 1), Shift(alpha, i)) == 1.0 * Times(JacobiAt(alpha, i), i as real)
  {
    MulDiv(JacobiAt(alpha, i - 1), (i as real) + alpha, i as real, JacobiAt(alpha, i), Shift(alpha, i));
  }

  lemma {:induction false} AtOneForward(alpha: real, i: nat)
    ensures JacobiAt(alpha, i + 1) == 1.0 * Times(JacobiAt(alpha, i), Shift(alpha, i) + 1.0) / Shift(1.0, i)
  {
    SameQuotient(JacobiAt(alpha, i), ((i + 1) as real) + alpha, (i + 1) as real, Shift(alpha, i) + 1.0, Shift(1.0, i), JacobiAt(alpha, i + 1));
  }

  // MulDiv and SameQuotient rearrange one quotient at a time, keeping each
  // nonlinear step in a context of its own.
  lemma {:induction false} MulDiv(a: real, b: real, c: real, r: real, b': real)
    requires c != 0.0 && r == a * b / c && b == b'
    ensures Times(a, b') == 1.0 * Times(r, c)
  {
  }

  lemma {:induction false} SameQuotient(a: real, b: real, c: real, b': real, c': real, r: real)
    requires c != 0.0 && b == b' && c == c' && r == a * b / c
    ensures r == 1.0 * Times(a, b') / c'
  {
  }

  lemma {:induction false} AtMinusOneRatio(beta: real, i: nat)
    requires beta > -1.0 && i >= 1
    ensures Times(JacobiAtMinusOne(beta, i - 1), Shift(beta, i)) == -1.0 * Times(JacobiAtMinusOne(beta, i), i as real)
    ensures JacobiAtMinusOne(beta, i + 1) == -1.0 * Times(JacobiAtMinusOne(beta, i), Shift(beta, i) + 1.0) / Shift(1.0, i)
  {
    AtMinusOneBack(beta, i);
    AtMinusOneForward(beta, i);
  }

  lemma {:induction false} AtMinusOneBack(beta: real, i: nat)
    requires i >= 1
    ensures Times(JacobiAtMinusOne(beta, i - 1), Shift(beta, i)) == -1.0 * Times(JacobiAtMinusOne(beta, i), i as real)
  {
    AtOneBack(beta, i);
    SignFlips(i - 1);
    SignedRatio(Sign(i), Sign(i - 1), JacobiAt(beta, i - 1), JacobiAt(beta, i), Shift(beta, i), i as real,
      JacobiAtMinusOne(beta, i - 1), JacobiAtMinusOne(beta, i));
  }

  lemma {:induction false} AtMinusOneForward(beta: real, i: nat)
    ensures JacobiAtMinusOne(beta, i + 1) == -1.0 * Times(JacobiAtMinusOne(beta, i), Shift(beta, i) + 1.0) / Shift(1.0, i)
  {
    AtOneForward(beta, i);
    SignFlips(i);
    SignedNext(Sign(i), Sign(i + 1), JacobiAt(beta, i), JacobiAt(beta, i + 1), Shift(beta, i) + 1.0, Shift(1.0, i),
      JacobiAtMinusOne(beta, i), JacobiAtMinusOne(beta, i + 1));
  }

  lemma {:induction false} SignedRatio(s: real, s0: real, j0: real, j1: real, g: real, t: real, m0: real, m1: real)
    requires s0 == -s && Times(j0, g) == 1.0 * Times(j1, t) && m0 == s0 * j0 && m1 == s * j1
    ensures Times(m0, g) == -1.0 * Times(m1, t)
  {
    assert Times(m0, g) == -s * Times(j0, g);
    assert Times(m1, t) == s * Times(j1, t);
  }

  lemma {:induction false} SignedNext(s: real, s2: real, j1: real, j2: real, g1: real, k: real, m1: real, m2: real)
    requires s2 == -s && k != 0.0 && j2 == 1.0 * Times(j1, g1) / k && m1 == s * j1 && m2 == s2 * j2
    ensures m2 == -1.0 * Times(m1, g1) / k
  {
    assert Times(m1, g1) == s * Times(j1, g1);
  }

  /** A step at x == 1 maps C(i - 1 + alpha, i - 1), C(i + alpha, i) to
      C(i + 1 + alpha, i + 1). */
  lemma {:induction false} StepAtOne(alpha: real, beta: real, i: nat)
    requires Admissible(alpha, beta) && i >= 1
    ensures JA1(alpha, beta, i) != 0.0
    ensures Recurrences.NextValue(JA1(alpha, beta, i), JA2(alpha, beta, i), JA3(alpha, beta, i), JA4(alpha, beta, i),
                                  1.0, JacobiAt(alpha, i), JacobiAt(alpha, i - 1))
         == JacobiAt(alpha, i + 1)
  {
    SplitA1(alpha, beta, i);
    SplitA4(alpha, beta, i);
    StepIdentities(alpha, beta, i);
    AtOneRatio(alpha, i);
    EndRatio(JA1(alpha, beta, i), JA2(alpha, beta, i), JA3(alpha, beta, i), JA4(alpha, beta, i), 1.0,
      i as real, Shift(1.0, i), SplitW(alpha, beta, i), Shift(alpha, i), SplitU(alpha, beta, i),
      JacobiAt(alpha, i), JacobiAt(alpha, i - 1));
  }

  /** A step at x == -1 maps (-1)^(i-1) C(i - 1 + beta, i - 1),
      (-1)^i C(i + beta, i) to (-1)^(i+1) C(i + 1 + beta, i + 1). */
  lemma {:induction false} StepAtMinusOne(alpha: real, beta: real, i: nat)
    requires Admissible(alpha, beta) && i >= 1
    ensures JA1(alpha, beta, i) != 0.0
    ensures Recurrences.NextValue(JA1(alpha, beta, i), JA2(alpha, beta, i), JA3(alpha, beta, i), JA4(alpha, beta, i),
                                  -1.0, JacobiAtMinusOne(beta, i), JacobiAtMinusOne(beta, i - 1))
         == JacobiAtMinusOne(beta, i + 1)
  {
    SplitA1(alpha, beta, i);
    SplitA4(alpha, beta, i);
    StepIdentities(alpha, beta, i);
    AtMinusOneRatio(beta, i);
    EndRatio(JA1(alpha, beta, i), JA2(alpha, beta, i), JA3(alpha, beta, i), JA4(alpha, beta, i), -1.0,
      i as real, Shift(1.0, i), SplitW(alpha, beta, i), Shift(beta, i), SplitV(alpha, beta, i),
      JacobiAtMinusOne(beta, i), JacobiAtMinusOne(beta, i - 1));
  }

  /** The loop run on values instead of coefficient arrays: from vi == Pi(x)
      and vim1 == Pim1(x) at step i, the value at x of the member of degree n. */
  function JacobiValueFrom(alpha: real, beta: real, x: real, vi: real, vim1: real, i: nat, n: nat): real
    requires Admissible(alpha, beta) && 1 <= i <= n
    decreases n - i
  {
    if i == n then vi
    else
      JacobiMultipliers(alpha, beta, i);
      JacobiValueFrom(alpha, beta, x,
        Recurrences.NextValue(JA1(alpha, beta, i), JA2(alpha, beta, i), JA3(alpha, beta, i), JA4(alpha, beta, i), x, vi, vim1),
        vi, i + 1, n)
  }

  /** Evaluating the member the loop produces is running the loop on values. */
  lemma {:induction false} FromValue(alpha: real, beta: real, p: seq<real>, q: seq<real>, i: nat, n: nat, x: real)
    requires Admissible(alpha, beta)
    requires 1 <= i <= n && |p| == i + 1 && |q| == i && LeadKept(alpha, beta, p, i)
    ensures Horner(JacobiFrom(alpha, beta, p, q, i, n), x) == JacobiValueFrom(alpha, beta, x, Horner(p, x), Horner(q, x), i, n)
    decreases n - i
  {
    if i < n {
      JacobiStepKeepsLead(alpha, beta, p, q, i);
      var r := Recurrences.NextTerm(p, q, JA1(alpha, beta, i), JA2(alpha, beta, i), JA3(alpha, beta, i), JA4(alpha, beta, i));
      FromValue(alpha, beta, r, p, i + 1, n, x);
      FromStep(alpha, beta, p, q, r, i, n, x, Horner(p, x), Horner(q, x), Horner(r, x));
    }
  }

  /** One step of FromValue, on the values of p, q and of the next member r. */
  lemma {:induction false} FromStep(alpha: real, beta: real, p: seq<real>, q: seq<real>, r: seq<real>, i: nat, n: nat, x: real,
                                    vp: real, vq: real, vr: real)
    requires Admissible(alpha, beta)
    requires 1 <= i < n && |p| == i + 1 && |q| == i && LeadKept(alpha, beta, p, i)
    requires StepKeepsLead(p, q, i, JA1(alpha, beta, i), JA2(alpha, beta, i), JA3(alpha, beta, i), JA4(alpha, beta, i))
    requires r == Recurrences.NextTerm(p, q, JA1(alpha, beta, i), JA2(alpha, beta, i), JA3(alpha, beta, i), JA4(alpha, beta, i))
    requires vp == Horner(p, x) && vq == Horner(q, x) && vr == Horner(r, x)
    requires LeadKept(alpha, beta, r, i + 1)
    requires Horner(JacobiFrom(alpha, beta, r, p, i + 1, n), x) == JacobiValueFrom(alpha, beta, x, vr, vp, i + 1, n)
    ensures Horner(JacobiFrom(alpha, beta, p, q, i, n), x) == JacobiValueFrom(alpha, beta, x, vp, vq, i, n)
  {
    Recurrences.NextTermValue(p, q, JA1(alpha, beta, i), JA2(alpha, beta, i), JA3(alpha, beta, i), JA4(alpha, beta, i), x);
  }

  /** On values at x == 1 the loop keeps C(i + alpha, i). */
  lemma {:induction false} ValueAtOne(alpha: real, beta: real, i: nat, n: nat)
    requires Admissible(alpha, beta) && 1 <= i <= n
    ensures JacobiValueFrom(alpha, beta, 1.0, JacobiAt(alpha, i), JacobiAt(alpha, i - 1), i, n) == JacobiAt(alpha, n)
    decreases n - i
  {
    if i < n {
      StepAtOne(alpha, beta, i);
      ValueAtOne(alpha, beta, i + 1, n);
    }
  }

  /** On values at x == -1 the loop keeps (-1)^i C(i + beta, i). */
  lemma {:induction false} ValueAtMinusOne(alpha: real, beta: real, i: nat, n: nat)
    requires Admissible(alpha, beta) && 1 <= i <= n
    ensures JacobiValueFrom(alpha, beta, -1.0, JacobiAtMinusOne(beta, i), JacobiAtMinusOne(beta, i - 1), i, n) == JacobiAtMinusOne(beta, n)
    decreases n - i
  {
    if i < n {
      StepAtMinusOne(alpha, beta, i);
      ValueAtMinusOne(alpha, beta, i + 1, n);
    }
  }

  /** P(0) and P(1) at the end points. */
  lemma {:induction false} FirstValues(alpha: real, beta: real, i: nat)
    requires i == 1
    ensures Horner(JacobiP1(alpha, beta), 1.0) == JacobiAt(alpha, i)
    ensures Horner([1.0], 1.0) == JacobiAt(alpha, i - 1)
    ensures Horner(JacobiP1(alpha, beta), -1.0) == JacobiAtMinusOne(beta, i)
    ensures Horner([1.0], -1.0) == JacobiAtMinusOne(beta, i - 1)
  {
    var c := JacobiP1(alpha, beta);
    assert c[1..][1..] == [];
    assert [1.0][1..] == [];
    assert Horner(c[1..], 1.0) == c[1] && Horner(c[1..], -1.0) == c[1];
    assert Horner(c, 1.0) == c[0] + c[1] && Horner(c, -1.0) == c[0] - c[1];
    assert JacobiAt(alpha, i) == JacobiAt(alpha, 0) * (1.0 + alpha) / 1.0;
    assert JacobiAt(beta, i) == JacobiAt(beta, 0) * (1.0 + beta) / 1.0;
    assert Sign(i) == -1.0 && Sign(i - 1) == 1.0;
  }

  /** With c the coefficients of P(n): P(n)(1) == C(n + alpha, n) and
      P(n)(-1) == (-1)^n C(n + beta, n). */
  lemma {:induction false} JacobiEndValues(alpha: real, beta: real, n: nat, c: seq<real>)
    requires Admissible(alpha, beta) && (n >= 2 ==> FirstStepKept(alpha, beta))
    requires c == JacobiCoefficients(alpha, beta, n)
    ensures Horner(c, 1.0) == JacobiAt(alpha, n)
    ensures Horner(c, -1.0) == JacobiAtMinusOne(beta, n)
  {
    var one := 1;
    FirstValues(alpha, beta, one);
    if n >= 2 {
      FromValue(alpha, beta, JacobiP1(alpha, beta), [1.0], one, n, 1.0);
      FromValue(alpha, beta, JacobiP1(alpha, beta), [1.0], one, n, -1.0);
      ValueAtOne(alpha, beta, one, n);
      ValueAtMinusOne(alpha, beta, one, n);
    }
  }
}
