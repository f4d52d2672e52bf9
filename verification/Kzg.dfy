/** The KZG polynomial commitment (poly_commit/kzg.rs). */
module Kzg {
  import opened ScalarField
  import opened PolynomialAlgebra
  import opened Interpolation
  import opened EvaluationDomain
  import opened KzgPolynomial
  import opened Group

  datatype Setup = Setup(powersOfTau: seq<G1>, g2Tau: G2, g1: G1, g2: G2)

  datatype CommitResult = Committed(c: G1) | DegreeTooLarge

  /** g * tau^i for i < n. */
  function TauPowers(g: G1, tau: Scalar, n: nat): (r: seq<G1>)
    ensures |r| == n && forall i :: 0 <= i < n ==> r[i] == Mul(g, Red(Pow(tau, i)))
  {
    seq(n, i requires 0 <= i < n => Mul(g, Red(Pow(tau, i))))
  }

  /** The setup for the trapdoor tau, with generators of the two groups. */
  ghost predicate ValidSetup(s: Setup, tau: Scalar) {
    && s.g1 != 0 && s.g2 != 0
    && s.g2Tau == Mul(s.g2, tau)
    && s.powersOfTau == TauPowers(s.g1, tau, |s.powersOfTau|)
  }

  lemma TauPowersStep(g: G1, tau: Scalar, n: nat, exp: Scalar)
    requires exp == Red(Pow(tau, n))
    ensures TauPowers(g, tau, n) + [Mul(g, exp)] == TauPowers(g, tau, n + 1)
    ensures Mul(exp, tau) == Red(Pow(tau, n + 1))
  {
    hide Pow, Mul, TauPowers;
    NextPower(tau, n, exp);
    var a, b := TauPowers(g, tau, n) + [Mul(g, exp)], TauPowers(g, tau, n + 1);
    assert forall i :: 0 <= i < n + 1 ==> a[i] == b[i];
  }

  /** `powers_of_tau`. */
  method PowersOfTau(maxDegree: nat, g: G1, tau: Scalar) returns (powers: seq<G1>)
    ensures powers == TauPowers(g, tau, maxDegree + 1)
  {
    powers := [];
    var exp: Scalar := Red(1);
    assert exp == Red(Pow(tau, 0));
    hide Pow, Mul, TauPowers;
    for i := 0 to maxDegree + 1
      invariant exp == Red(Pow(tau, i)) && powers == TauPowers(g, tau, i)
    {
      TauPowersStep(g, tau, i, exp);
      powers := powers + [Mul(g, exp)];
      exp := Mul(exp, tau);
    }
  }

  /** `new`, with the trapdoor it draws as a parameter. */
  method NewSetup(tau: Scalar, maxDegree: nat, g1: G1, g2: G2) returns (s: Setup)
    requires g1 != 0 && g2 != 0
    ensures ValidSetup(s, tau) && |s.powersOfTau| == maxDegree + 1 && s.g1 == g1 && s.g2 == g2
  {
    hide TauPowers;
    var powers := PowersOfTau(maxDegree, g1, tau);
    s := Setup(powers, Mul(g2, tau), g1, g2);
  }

  /** The weighted sum of the powers; it stops at the shorter of the two. */
  function EvalPolyAtTau(powers: seq<G1>, poly: seq<Scalar>): G1 {
    MultiExp(powers, poly)
  }

  lemma {:induction false} PowersDot(s: Setup, tau: Scalar, poly: seq<Scalar>, n: nat)
    requires ValidSetup(s, tau) && n <= |s.powersOfTau|
    ensures Cong(DotTo(s.powersOfTau, poly, n), s.g1 * Eval(poly[..if n < |poly| then n else |poly|], tau))
  {
    hide Eval, Pow, Mul, DotTo;
    var low := poly[..if n < |poly| then n else |poly|];
    if n == 0 {
      EvalZero(low, tau);
      DotNone(s.powersOfTau, poly);
    } else {
      PowersDot(s, tau, poly, n - 1);
      if n <= |poly| {
        DotStep(s.powersOfTau, poly, n);
        assert low == poly[..n - 1] + [poly[n - 1]];
        AppendCoefficient(poly[..n - 1], poly[n - 1], tau);
        PowerTerm(s.g1, Pow(tau, n - 1), poly[n - 1], Eval(poly[..n - 1], tau), DotTo(s.powersOfTau, poly, n - 1),
                  s.powersOfTau[n - 1]);
      } else {
        BeyondEnd(s.powersOfTau, poly, n);
      }
    }
  }

  lemma BeyondEnd(a: seq<int>, b: seq<int>, n: nat)
    requires |b| < n
    ensures DotTo(a, b, n) == DotTo(a, b, n - 1)
  {}

  lemma PowerTerm(g: int, p: int, c: int, e: int, d: int, t: int)
    requires Cong(d, g * e) && t == Mul(g, Red(p))
    ensures Cong(d + t * c, g * (e + c * p))
  {
    CongMul(g, g, Red(p), p);
    CongMul(t, g * p, c, c);
    CongAdd(d, g * e, t * c, (g * p) * c);
    PowerShape(g, p, c, e);
  }

  lemma PowerShape(g: int, p: int, c: int, e: int)
    ensures g * (e + c * p) == g * e + (g * p) * c
  {}

  /** A commitment is the value of the polynomial at tau. */
  lemma CommitmentValue(s: Setup, tau: Scalar, poly: seq<Scalar>)
    requires ValidSetup(s, tau) && |poly| <= |s.powersOfTau|
    ensures EvalPolyAtTau(s.powersOfTau, poly) == Red(s.g1 * Eval(poly, tau))
  {
    hide Eval, Pow;
    PowersDot(s, tau, poly, |s.powersOfTau|);
    assert poly[..|poly|] == poly;
  }

  method Commit(s: Setup, poly: seq<Scalar>) returns (r: CommitResult)
    ensures r == if |poly| <= |s.powersOfTau| then Committed(EvalPolyAtTau(s.powersOfTau, poly)) else DegreeTooLarge
  {
    if |poly| > |s.powersOfTau| {
      return DegreeTooLarge;
    }
    r := Committed(EvalPolyAtTau(s.powersOfTau, poly));
  }

  /** `verify`: the pairing equation. */
  predicate Verify(s: Setup, commitment: G1, x: Scalar, value: Scalar, opening: G1) {
    Pairing(Sub(commitment, Times(s.g1, value)), s.g2) == Pairing(opening, Sub(s.g2Tau, Times(s.g2, x)))
  }

  /** The same equation between exponents. */
  lemma VerifyEquation(s: Setup, tau: Scalar, c: G1, x: Scalar, v: Scalar, w: G1)
    requires ValidSetup(s, tau)
    ensures Verify(s, c, x, v, w) <==> Cong(c - s.g1 * v, w * (tau - x))
  {
    var g1: int, g2: int, a, b := s.g1, s.g2, c - s.g1 * v, w * (tau - x);
    CongSub(c, c, Times(s.g1, v), g1 * v);
    CongMul(Sub(c, Times(s.g1, v)), a, g2, g2);
    CongSub(s.g2Tau, g2 * tau, Times(s.g2, x), g2 * x);
    MulDistribute(g2, tau, x);
    CongMul(w, w, Sub(s.g2Tau, Times(s.g2, x)), g2 * (tau - x));
    Swap3(w, g2, tau - x);
    MulCommutes(a, g2);
    assert Verify(s, c, x, v, w) <==> Cong(g2 * a, g2 * b);
    if Cong(a, b) {
      CongMul(g2, g2, a, b);
    } else if Cong(g2 * a, g2 * b) {
      CancelLeft(g2, a, b);
    }
  }

  /** `open`: divide p - eval by X - x. */
  method Open(s: Setup, p: seq<Scalar>, eval: Scalar, x: Scalar) returns (w: G1, ghost q: seq<Scalar>)
    ensures w == EvalPolyAtTau(s.powersOfTau, q) && |q| <= |p|
    ensures forall t :: OpeningAt(p, q, eval, x, t)
  {
    var divisor := [Neg(x), Red(1)];
    var constant := New([Neg(eval)]);
    var dividend := AddPolynomials(p, constant);
    var r, rem := DivRef(dividend, divisor);
    q := r.q;
    w := EvalPolyAtTau(s.powersOfTau, r.q);
    forall t ensures OpeningAt(p, q, eval, x, t) {
      OpeningIdentity(p, constant, eval, x, dividend, q, rem, t);
    }
  }

  /** p(t) - eval = q(t) * (t - x) + (p(x) - eval). */
  ghost predicate OpeningAt(p: seq<int>, q: seq<int>, eval: int, x: int, t: int) {
    Cong(Eval(p, t) - eval, Eval(q, t) * (t - x) + (Eval(p, x) - eval))
  }

  lemma DividendValue(p: seq<int>, c: seq<int>, eval: Scalar, dividend: seq<int>, t: int)
    requires c == [Neg(eval)] && forall k :: SameEntry(dividend, AddSeq(p, c), k)
    ensures Cong(Eval(dividend, t), Eval(p, t) - eval)
  {
    hide Eval, Neg, At, SameEntry;
    EvalSameEntries(dividend, AddSeq(p, c), t);
    EvalAdd(p, c, t);
    ConstantValue(Neg(eval), t);
    NegResidue(eval);
    CongAdd(Eval(p, t), Eval(p, t), Neg(eval), -(eval as int));
  }

  lemma NegResidue(x: int)
    ensures Cong(Neg(x), -x)
  {}

  lemma DividendEntries(p: seq<Scalar>, constant: seq<Scalar>, c: seq<int>, dividend: seq<Scalar>)
    requires forall k :: At(constant, k) == At(c, k)
    requires forall k :: At(dividend, k) == Red(At(p, k) + At(constant, k))
    ensures forall k :: SameEntry(dividend, AddSeq(p, c), k)
  {
    forall k ensures SameEntry(dividend, AddSeq(p, c), k) {
      assert At(constant, k) == At(c, k);
    }
  }

  lemma ConstantValue(a: int, t: int)
    ensures Eval([a], t) == a
  {
    assert Eval([a], t) == a + t * Eval([], t);
  }

  lemma OpeningIdentity(p: seq<Scalar>, constant: seq<Scalar>, eval: Scalar, x: Scalar, dividend: seq<Scalar>,
                        q: seq<Scalar>, rem: seq<Scalar>, t: int)
    requires forall k :: At(constant, k) == At([Neg(eval)], k)
    requires forall k :: At(dividend, k) == Red(At(p, k) + At(constant, k))
    requires |rem| < 2 && Division(dividend, q, [Neg(x), Red(1)], rem)
    ensures OpeningAt(p, q, eval, x, t)
  {
    hide Division, Eval, At, SameEntry;
    var c: seq<int> := [Neg(eval)];
    DividendEntries(p, constant, c, dividend);
    RemainderIsConstant(rem, t, x);
    DivisorValue(dividend, q, x, rem, t);
    DivisorValue(dividend, q, x, rem, x);
    DividendValue(p, c, eval, dividend, t);
    DividendValue(p, c, eval, dividend, x);
    assert Eval(q, x) * (x - x) == 0;
    CongAdd(Eval(q, t) * (t - x), Eval(q, t) * (t - x), Eval(rem, t), Eval(p, x) - eval);
  }

  lemma RemainderIsConstant(rem: seq<int>, t: int, x: int)
    requires |rem| < 2
    ensures Eval(rem, t) == Eval(rem, x)
  {}

  lemma DivisorValue(dividend: seq<Scalar>, q: seq<Scalar>, x: Scalar, rem: seq<Scalar>, t: int)
    requires Division(dividend, q, [Neg(x), Red(1)], rem)
    ensures Cong(Eval(dividend, t), Eval(q, t) * (t - x) + Eval(rem, t))
  {
    hide Eval, Division;
    var d: seq<int> := [Neg(x), Red(1)];
    EvalDivision(dividend, q, d, rem, t);
    EvalLinear(Neg(x), 1, t);
    CongAdd(Neg(x), -(x as int), t, t);
    CongMul(Eval(q, t), Eval(q, t), Eval(d, t), t - x);
    CongAdd(Eval(q, t) * Eval(d, t), Eval(q, t) * (t - x), Eval(rem, t), Eval(rem, t));
  }

  /** The opening at (x, v) verifies against the commitment exactly when v is the
      value of the polynomial at x. */
  lemma OpeningVerifies(s: Setup, tau: Scalar, p: seq<Scalar>, v: Scalar, x: Scalar, q: seq<Scalar>)
    requires ValidSetup(s, tau) && |q| <= |p| <= |s.powersOfTau|
    requires OpeningAt(p, q, v, x, tau)
    ensures Verify(s, EvalPolyAtTau(s.powersOfTau, p), x, v, EvalPolyAtTau(s.powersOfTau, q))
      <==> v == Red(Eval(p, x))
  {
    hide Eval, Verify, EvalPolyAtTau;
    CommitmentValue(s, tau, p);
    CommitmentValue(s, tau, q);
    var c, w := EvalPolyAtTau(s.powersOfTau, p), EvalPolyAtTau(s.powersOfTau, q);
    VerifyEquation(s, tau, c, x, v, w);
    OpeningAlgebra(s.g1, c, w, Eval(p, tau), Eval(q, tau), v, tau - x, Eval(p, x));
  }

  lemma OpeningAlgebra(g: int, c: int, w: int, pt: int, qt: int, v: int, d: int, px: int)
    requires Red(g) != 0 && Cong(c, g * pt) && Cong(w, g * qt) && Cong(pt - v, qt * d + (px - v))
    ensures Cong(c - g * v, w * d) <==> Cong(v, px)
  {
    var l, r, m, e := c - g * v, w * d, g * (qt * d), g * (px - v);
    CongSub(c, g * pt, g * v, g * v);
    MulDistribute(g, pt, v);
    CongMul(g, g, pt - v, qt * d + (px - v));
    MulDistribute(g, qt * d, px - v);
    CongMul(w, g * qt, d, d);
    MulAssoc(g, qt, d);
    OffsetIff(l, r, m, e);
    ScaledIff(g, px - v);
    OffsetIff(px, v, v, px - v);
  }

  lemma OffsetIff(l: int, r: int, m: int, e: int)
    requires Cong(l, m + e) && Cong(r, m)
    ensures Cong(l, r) <==> Cong(e, 0)
  {
    CongSub(l, m + e, r, m);
    if Cong(l, r) { CongSub(l, r, r, r); }
    if Cong(e, 0) { CongAdd(l - r, 0, r, r); }
  }

  lemma ScaledIff(g: int, e: int)
    requires Red(g) != 0
    ensures Cong(g * e, 0) <==> Cong(e, 0)
  {
    if Cong(e, 0) { CongMul(g, g, e, 0); }
    if Cong(g * e, 0) { NoZeroDivisors(g, e); }
  }
}
