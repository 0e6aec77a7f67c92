/** Legendre polynomials (src/polynomial/legendre.cpp): exact coefficient
    tables up to degree 6, and above that Bonnet's three-term recurrence
    (i + 1) P(i+1) = (2i + 1) x P(i) - i P(i-1), written with every
    coefficient multiplied by 2i * (2i + 2). */
module LegendrePolynomials {
  import opened Coefficients
  import Polynomials
  import Recurrences

  /** The exact coefficients the switch returns for degrees 0 to 6. */
  function Table(n: nat): (c: seq<real>)
    requires n <= 6
    ensures |c| == n + 1 && c[n] >= 1.0
  {
    match n
    case 0 => [1.0]
    case 1 => [0.0, 1.0]
    case 2 => [-0.5, 0.0, 1.5]
    case 3 => [0.0, -1.5, 0.0, 2.5]
    case 4 => [0.375, 0.0, -3.75, 0.0, 4.375]
    case 5 => [0.0, 1.875, 0.0, -8.75, 0.0, 7.875]
    case _ => [-0.3125, 0.0, 6.5625, 0.0, -19.6875, 0.0, 14.4375]
  }

  /** The multipliers of step i (from P(i) and P(i-1) to P(i+1)); a2 is 0. */
  function A1(i: nat): real
  {
    ((i as real) + 1.0) * 2.0 * ((i as real) + 1.0) * ((i as real) * 2.0)
  }

  function A3(i: nat): real
  {
    (i as real) * 2.0 * ((i as real) * 2.0 + 1.0) * (((i as real) + 1.0) * 2.0)
  }

  function A4(i: nat): real
  {
    2.0 * (i as real) * (i as real) * (((i as real) + 1.0) * 2.0)
  }

  /** The step multipliers of a step from degree 6 or more: a1 is positive,
      a3 is at least a1 (the leading coefficient does not shrink) and
      a3 - a4 == a1 (the value at the end points is kept). */
  lemma {:induction false} StepMultipliers(i: nat)
    requires i >= 1
    ensures A1(i) > 0.0 && A3(i) >= A1(i) && A3(i) >= 1.0
    ensures A3(i) - A4(i) == A1(i)
  {
    var r := i as real;
    assert A1(i) == 4.0 * r * (r + 1.0) * (r + 1.0);
    assert A3(i) == 4.0 * r * (r + 1.0) * (2.0 * r + 1.0);
    assert A4(i) == 4.0 * r * r * (r + 1.0);
    Positive3(r, r + 1.0, r + 1.0);
    Positive3(r, r + 1.0, r);
    assert A3(i) - A1(i) == 4.0 * r * (r + 1.0) * r;
  }

  lemma {:induction false} Positive3(a: real, b: real, c: real)
    requires a >= 1.0 && b >= 1.0 && c >= 1.0
    ensures a * b * c >= 1.0
  {
    assert a * b >= 1.0 * b;
    assert a * b * c >= 1.0 * c;
  }

  /** The leading coefficient after a step: l * a3 / a1 is no smaller than l. */
  lemma {:induction false} LeadGrows(l: real, a1: real, a3: real)
    requires l >= 1.0 && a1 > 0.0 && a3 >= a1 && a3 >= 1.0
    ensures l * a3 / a1 >= 1.0 && Abs(l * a3) >= ZeroTol
  {
    assert l * a3 >= 1.0 * a1;
    assert l * a3 / a1 >= a1 / a1;
  }

  /** A step from a member of degree i with leading coefficient at least 1
      gives a member of degree i + 1 with leading coefficient at least 1. */
  lemma {:induction false} StepKeepsLead(p: seq<real>, q: seq<real>, i: nat)
    requires i >= 1 && |p| == i + 1 && |q| == i && p[i] >= 1.0
    ensures A1(i) > 0.0 && Abs(p[|p| - 1] * A3(i)) >= ZeroTol
    ensures |Recurrences.NextTerm(p, q, A1(i), 0.0, A3(i), A4(i))| == i + 2
    ensures Recurrences.NextTerm(p, q, A1(i), 0.0, A3(i), A4(i))[i + 1] >= 1.0
  {
    StepMultipliers(i);
    LeadStep(p, q, A1(i), A3(i), A4(i));
  }

  lemma {:induction false} LeadStep(p: seq<real>, q: seq<real>, a1: real, a3: real, a4: real)
    requires |p| > 0 && |q| <= |p| && p[|p| - 1] >= 1.0
    requires a1 > 0.0 && a3 >= a1 && a3 >= 1.0
    ensures Abs(p[|p| - 1] * a3) >= ZeroTol
    ensures |Recurrences.NextTerm(p, q, a1, 0.0, a3, a4)| == |p| + 1
    ensures Recurrences.NextTerm(p, q, a1, 0.0, a3, a4)[|p|] >= 1.0
  {
    LeadGrows(p[|p| - 1], a1, a3);
    Recurrences.NextTermTop(p, q, a1, 0.0, a3, a4);
  }

  /** The member of degree n the loop reaches when it is at step i with
      Pi == p and Pim1 == q, trimming and division included. */
  function LegendreFrom(p: seq<real>, q: seq<real>, i: nat, n: nat): (c: seq<real>)
    requires 1 <= i <= n && |p| == i + 1 && |q| == i && p[i] >= 1.0
    ensures |c| == n + 1 && c[n] >= 1.0
    decreases n - i
  {
    if i == n then p
    else
      StepKeepsLead(p, q, i);
      LegendreFrom(Recurrences.NextTerm(p, q, A1(i), 0.0, A3(i), A4(i)), p, i + 1, n)
  }

  /** The coefficients of P(n): the table up to degree 6, then the loop
      started from P(6) and P(5). */
  function LegendreCoefficients(n: nat): (c: seq<real>)
    ensures |c| == n + 1 && c[n] >= 1.0
  {
    if n <= 6 then Table(n) else LegendreFrom(Table(6), Table(5), 6, n)
  }

  /** `Legendre(n)`: a fresh polynomial of degree n holding
      LegendreCoefficients(n), tagged LEGENDRE. */
  method Legendre(n: nat) returns (p: Polynomials.Polynomial)
    ensures fresh(p) && p.Valid()
    ensures p.coef == LegendreCoefficients(n) && p.degree == n
    ensures p.polyType == Polynomials.PolyType.Legendre
    decreases n
  {
    if n <= 6 {
      p := new Polynomials.Polynomial.FromCoef(Table(n));
      p.SetType(Polynomials.PolyType.Legendre);
      return;
    }
    var pi := Legendre(6);
    var pim1 := Legendre(5);
    var i := 6;
    while i < n
      invariant 6 <= i <= n
      invariant fresh(pi) && fresh(pim1) && pi != pim1
      invariant pi.Valid() && pim1.Valid()
      invariant |pi.coef| == i + 1 && |pim1.coef| == i && pi.coef[i] >= 1.0
      invariant LegendreFrom(pi.coef, pim1.coef, i, n) == LegendreCoefficients(n)
    {
      Step(pi, pim1, i);
      pi, pim1 := pim1, pi;
      i := i + 1;
    }
    pi.SetType(Polynomials.PolyType.Legendre);
    p := pi;
  }

  /** One pass of the loop body: Pim1 becomes the member after Pi. */
  method Step(pi: Polynomials.Polynomial, pim1: Polynomials.Polynomial, i: nat)
    requires i >= 1 && pi != pim1 && pi.Valid() && pim1.Valid()
    requires |pi.coef| == i + 1 && |pim1.coef| == i && pi.coef[i] >= 1.0
    modifies pim1
    ensures pim1.Valid()
    ensures pim1.coef == Recurrences.NextTerm(old(pi.coef), old(pim1.coef), A1(i), 0.0, A3(i), A4(i))
    ensures |pim1.coef| == i + 2 && pim1.coef[i + 1] >= 1.0
  {
    ghost var c, d := pi.coef, pim1.coef;
    StepMultipliers(i);
    LeadGrows(pi.coef[i], A1(i), A3(i));
    Recurrences.Advance(pi, pim1, A1(i), 0.0, A3(i), A4(i));
    StepKeepsLead(c, d, i);
  }

  // ---------------------------------------------------------------------
  // Properties of the generated members

  /** Only the powers of the same parity as n occur. */
  ghost predicate HasParity(c: seq<real>, n: nat)
  {
    forall k :: 0 <= k < |c| && (n + k) % 2 == 1 ==> c[k] == 0.0
  }

  /** The exact table is what the recurrence gives from P(0) and P(1): the
      switch is a shortcut, not a different definition. */
  lemma {:induction false} TableFollowsRecurrence(n: nat)
    requires 2 <= n <= 6
    ensures Table(n) == Recurrences.NextTerm(Table(n - 1), Table(n - 2), A1(n - 1), 0.0, A3(n - 1), A4(n - 1))
  {
    var i := n - 1;
    if i == 1 {
      assert A1(1) == 16.0 && A3(1) == 24.0 && A4(1) == 8.0;
    } else if i == 2 {
      assert A1(2) == 72.0 && A3(2) == 120.0 && A4(2) == 48.0;
    } else if i == 3 {
      assert A1(3) == 192.0 && A3(3) == 336.0 && A4(3) == 144.0;
    } else if i == 4 {
      assert A1(4) == 400.0 && A3(4) == 720.0 && A4(4) == 320.0;
    } else {
      assert A1(5) == 720.0 && A3(5) == 1320.0 && A4(5) == 600.0;
    }
    Recurrences.NextTermIs(Table(i), Table(i - 1), A1(i), 0.0, A3(i), A4(i), Table(n));
  }

  /** Started anywhere in the table, the loop reaches LegendreCoefficients(n). */
  lemma {:induction false} FromTable(i: nat, n: nat)
    requires 1 <= i <= 6 && i <= n
    ensures LegendreFrom(Table(i), Table(i - 1), i, n) == LegendreCoefficients(n)
    decreases 6 - i
  {
    if i < 6 && i < n {
      TableFollowsRecurrence(i + 1);
      FromTable(i + 1, n);
    }
  }

  /** The values at the end points after one step: with a3 - a4 == a1 the
      recurrence maps the values (1, 1) at x == 1 to 1, and (s, -s) at
      x == -1 to -s. */
  lemma {:induction false} StepEndValues(p: seq<real>, q: seq<real>, a1: real, a3: real, a4: real, s: real)
    requires |p| > 0 && |q| <= |p| && a1 != 0.0 && a3 - a4 == a1
    requires Abs(p[|p| - 1] * a3) >= ZeroTol
    requires Horner(p, 1.0) == 1.0 && Horner(q, 1.0) == 1.0
    requires Horner(p, -1.0) == s && Horner(q, -1.0) == -s
    ensures Horner(Recurrences.NextTerm(p, q, a1, 0.0, a3, a4), 1.0) == 1.0
    ensures Horner(Recurrences.NextTerm(p, q, a1, 0.0, a3, a4), -1.0) == -s
  {
    Recurrences.NextTermValue(p, q, a1, 0.0, a3, a4, 1.0);
    Recurrences.NextTermValue(p, q, a1, 0.0, a3, a4, -1.0);
    EndValues(a1, a3, a4, s);
  }

  /** The same on values. */
  lemma {:induction false} EndValues(a1: real, a3: real, a4: real, s: real)
    requires a1 != 0.0 && a3 - a4 == a1
    ensures Recurrences.NextValue(a1, 0.0, a3, a4, 1.0, 1.0, 1.0) == 1.0
    ensures Recurrences.NextValue(a1, 0.0, a3, a4, -1.0, s, -s) == -s
  {
    assert -a4 * 1.0 + (0.0 + a3 * 1.0) * 1.0 == a1;
    assert -a4 * -s + (0.0 + a3 * -1.0) * s == a1 * -s;
  }

  /** The loop keeps P(i)(1) == 1 and P(i)(-1) == (-1)^i. */
  lemma {:induction false} FromEndValues(p: seq<real>, q: seq<real>, i: nat, n: nat)
    requires 1 <= i <= n && |p| == i + 1 && |q| == i && p[i] >= 1.0
    requires Horner(p, 1.0) == 1.0 && Horner(q, 1.0) == 1.0
    requires Horner(p, -1.0) == Sign(i) && Horner(q, -1.0) == -Sign(i)
    ensures Horner(LegendreFrom(p, q, i, n), 1.0) == 1.0
    ensures Horner(LegendreFrom(p, q, i, n), -1.0) == Sign(n)
    decreases n - i
  {
    if i < n {
      StepKeepsLead(p, q, i);
      var r := Recurrences.NextTerm(p, q, A1(i), 0.0, A3(i), A4(i));
      EndStep(p, q, i, r);
      SignFlips(i);
      FromEndValues(r, p, i + 1, n);
    }
  }

  /** One step of FromEndValues: the next member r keeps the end values. */
  lemma {:induction false} EndStep(p: seq<real>, q: seq<real>, i: nat, r: seq<real>)
    requires 1 <= i && |p| == i + 1 && |q| == i && p[i] >= 1.0
    requires Horner(p, 1.0) == 1.0 && Horner(q, 1.0) == 1.0
    requires Horner(p, -1.0) == Sign(i) && Horner(q, -1.0) == -Sign(i)
    requires A1(i) != 0.0 && r == Recurrences.NextTerm(p, q, A1(i), 0.0, A3(i), A4(i))
    ensures Horner(r, 1.0) == 1.0 && Horner(r, -1.0) == Sign(i + 1)
  {
    StepMultipliers(i);
    LeadGrows(p[i], A1(i), A3(i));
    StepEndValues(p, q, A1(i), A3(i), A4(i), Sign(i));
    SignFlips(i);
  }

  /** With a2 == 0 a step keeps the parity: P(i+1)[k] combines P(i-1)[k]
      and P(i)[k-1], both of the parity of i + 1 + k. */
  lemma {:induction false} StepParity(p: seq<real>, q: seq<real>, a1: real, a3: real, a4: real, i: nat)
    requires i >= 1 && |p| == i + 1 && |q| == i && a1 != 0.0
    requires Abs(p[|p| - 1] * a3) >= ZeroTol
    requires HasParity(p, i) && HasParity(q, i - 1)
    ensures HasParity(Recurrences.NextTerm(p, q, a1, 0.0, a3, a4), i + 1)
  {
    var next := Recurrences.NextTerm(p, q, a1, 0.0, a3, a4);
    Recurrences.NextTermKept(p, q, a1, 0.0, a3, a4);
    forall k | 0 <= k < |next| && (i + 1 + k) % 2 == 1
      ensures next[k] == 0.0
    {
      Recurrences.NextTermAt(p, q, a1, 0.0, a3, a4, k);
      assert At(q, k) == 0.0;
      assert At(p, k - 1) == 0.0;
    }
  }

  /** The loop keeps the parity of the coefficients. */
  lemma {:induction false} FromParity(p: seq<real>, q: seq<real>, i: nat, n: nat)
    requires 1 <= i <= n && |p| == i + 1 && |q| == i && p[i] >= 1.0
    requires HasParity(p, i) && HasParity(q, i - 1)
    ensures HasParity(LegendreFrom(p, q, i, n), n)
    decreases n - i
  {
    if i < n {
      StepMultipliers(i);
      LeadGrows(p[i], A1(i), A3(i));
      StepParity(p, q, A1(i), A3(i), A4(i), i);
      StepKeepsLead(p, q, i);
      FromParity(Recurrences.NextTerm(p, q, A1(i), 0.0, A3(i), A4(i)), p, i + 1, n);
    }
  }

  /** P(0) == 1 and P(1) == x have the end values and parities claimed. */
  lemma {:induction false} BaseFacts()
    ensures Horner(Table(1), 1.0) == 1.0 && Horner(Table(0), 1.0) == 1.0
    ensures Horner(Table(1), -1.0) == Sign(1) && Horner(Table(0), -1.0) == -Sign(1)
    ensures HasParity(Table(1), 1) && HasParity(Table(0), 0)
  {
    assert Table(1) == [0.0, 1.0] && Table(0) == [1.0];
  }

  /** P(n)(1) == 1 and P(n)(-1) == (-1)^n. */
  lemma {:induction false} LegendreEndValues(n: nat)
    ensures Horner(LegendreCoefficients(n), 1.0) == 1.0
    ensures Horner(LegendreCoefficients(n), -1.0) == Sign(n)
  {
    if n == 0 {
      assert LegendreCoefficients(0) == [1.0];
    } else {
      BaseFacts();
      FromEndValues(Table(1), Table(0), 1, n);
      FromTable(1, n);
    }
  }

  /** P(n) is even for even n and odd for odd n: the coefficient of x^k is 0
      whenever n + k is odd. */
  lemma {:induction false} LegendreParity(n: nat, k: nat)
    requires k <= n && (n + k) % 2 == 1
    ensures LegendreCoefficients(n)[k] == 0.0
  {
    BaseFacts();
    FromParity(Table(1), Table(0), 1, n);
    FromTable(1, n);
  }
}
