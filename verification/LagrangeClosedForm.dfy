/** The closed form of the Lagrange coefficients on all N roots of unity agrees
    with the general algorithm (lagrange.rs). */
module LagrangeClosedForm {
  import opened ScalarField
  import opened PolynomialAlgebra
  import opened Interpolation
  import opened EvaluationDomain
  import opened Lagrange

  /** X^n - 1. */
  function CyclePolynomial(n: nat): (r: seq<int>)
    requires n > 0
    ensures |r| == n + 1
  {
    MinusOne(n) + [1]
  }

  /** The constant -1 with n coefficients. */
  function MinusOne(n: nat): (r: seq<int>)
    requires n > 0
    ensures |r| == n
  {
    var c: seq<int> := [-1];
    c + Zeros(n - 1)
  }

  lemma EvalCycle(n: nat, x: int)
    requires n > 0
    ensures Eval(CyclePolynomial(n), x) == Pow(x, n) - 1
    ensures Eval(MinusOne(n), x) == -1
  {
    EvalPad([-1], n - 1, x);
    assert Eval([-1], x) == -1 + x * Eval([], x);
    AppendCoefficient(MinusOne(n), 1, x);
  }

  lemma EvalCycleDerivative(n: nat, x: int)
    requires n > 0
    ensures Eval(Derivative(CyclePolynomial(n)), x) == n * Pow(x, n - 1)
  {
    var d := Derivative(CyclePolynomial(n));
    assert d == Zeros(n - 1) + [n];
    AppendCoefficient(Zeros(n - 1), n, x);
    EvalZero(Zeros(n - 1), x);
  }

  lemma RootCycle(batch: BatchDomain, i: nat)
    requires ValidBatch(batch) && i < batch.N()
    ensures Cong(Pow(batch.omegas[i], batch.N()), 1)
  {
    hide Pow;
    var w, l := NthRoot(batch.logN), batch.logN;
    NthRootPrimitive(l);
    CongPow(batch.omegas[i], Pow(w, i), Pow2(l));
    PowSwap(w, i, Pow2(l));
    RootOrder(w, l);
    CongPow(Pow(w, Pow2(l)), 1, i);
    PowOne(i);
  }

  /** The product of (X - w^i) over all N roots is X^N - 1. */
  lemma FullAccumulator(batch: BatchDomain)
    requires ValidBatch(batch)
    ensures RedSeq(Accumulator(batch.omegas)) == RedSeq(CyclePolynomial(batch.N()))
  {
    hide Pow, Eval, Accumulator, Difference;
    var n, xs := batch.N(), batch.omegas;
    var a, c := Accumulator(xs), CyclePolynomial(n);
    AccumulatorMonic(xs);
    assert a == a[..n] + [1] && c == MinusOne(n) + [1];
    forall i | 0 <= i < n ensures Cong(Eval(a[..n], xs[i]), Eval(MinusOne(n), xs[i])) {
      AppendCoefficient(a[..n], 1, xs[i]);
      EvalAccumulator(xs, xs[i]);
      DifferenceZero(xs[i], xs, i);
      EvalCycle(n, xs[i]);
      RootCycle(batch, i);
      CongSub(0, 0, Pow(xs[i], n), 1);
    }
    NthRootPrimitive(batch.logN);
    PowersDistinct(NthRoot(batch.logN), batch.logN, n);
    InterpolationUnique(a[..n], MinusOne(n), xs);
    forall i: nat | i < n + 1 ensures Red(a[i]) == Red(c[i]) {
      if i < n {
        assert RedSeq(a[..n])[i] == RedSeq(MinusOne(n))[i];
      }
    }
  }

  lemma FullWeight(batch: BatchDomain, i: nat, nInverse: int)
    requires ValidBatch(batch) && i < batch.N() && Cong(batch.N() * nInverse, 1)
    ensures Cong(Weight(batch.omegas, i), batch.omegas[i] * nInverse)
  {
    hide Pow, Eval, Accumulator, Difference, Derivative;
    var n, xs := batch.N(), batch.omegas;
    var x: int := xs[i];
    var d := Difference(x, Without(xs, i));
    FullAccumulator(batch);
    AccumulatorDerivative(xs, i);
    RedDerivative(Accumulator(xs));
    RedDerivative(CyclePolynomial(n));
    EvalCong(Derivative(Accumulator(xs)), Derivative(CyclePolynomial(n)), x, x);
    EvalCycleDerivative(n, x);
    RootCycle(batch, i);
    PowAdd(x, n - 1, 1);
    assert Pow(x, 1) == x by { PowOneStep(x); }
    FullWeightAlgebra(d, n, Pow(x, n - 1), x, nInverse);
    NthRootPrimitive(batch.logN);
    PowersDistinct(NthRoot(batch.logN), batch.logN, n);
    WeightInverts(xs, i);
    InverseUnique(d, Weight(xs, i), x * nInverse);
  }

  lemma PowOneStep(x: int)
    ensures Pow(x, 1) == x
  {}

  lemma FullWeightAlgebra(d: int, n: int, p: int, x: int, u: int)
    requires Cong(d, n * p) && Cong(p * x, 1) && Cong(n * u, 1)
    ensures Cong(d * (x * u), 1)
  {
    CongMul(d, n * p, x * u, x * u);
    MulExchange(n, p, u, x);
    MulCommutes(x, u);
    CongMul(n * u, 1, p * x, 1);
  }

  /** Entry i of the closed form. */
  function ClosedForm(batch: BatchDomain, i: nat, alpha: Scalar, nInverse: Scalar): Scalar
    requires i < batch.N()
  {
    Mul(Mul(Mul(nInverse, Sub(1, Red(Pow(alpha, batch.N())))), batch.omegas[i]), InvOrZero(Sub(batch.omegas[i], alpha)))
  }

  lemma ClosedFormAtRoot(batch: BatchDomain, i: nat, alpha: Scalar, nInverse: Scalar)
    requires ValidBatch(batch) && i < batch.N() && alpha in batch.omegas
    ensures ClosedForm(batch, i, alpha, nInverse) == 0
  {
    hide Pow, ValidBatch, InvOrZero;
    var p := Pow(alpha, batch.N());
    var k :| 0 <= k < batch.N() && batch.omegas[k] == alpha;
    RootCycle(batch, k);
    ZeroNumerator(nInverse, Red(p), batch.omegas[i], InvOrZero(Sub(batch.omegas[i], alpha)));
  }

  lemma ZeroNumerator(u: int, p: int, x: int, v: int)
    requires Cong(p, 1)
    ensures Mul(Mul(Mul(u, Sub(1, p)), x), v) == 0
  {
    CongSub(1, 1, p, 1);
    assert Sub(1, p) == 0;
  }

  lemma ClosedFormElsewhere(batch: BatchDomain, i: nat, alpha: Scalar, nInverse: Scalar)
    requires ValidBatch(batch) && i < batch.N() && alpha !in batch.omegas && Cong(batch.N() * nInverse, 1)
    ensures ClosedForm(batch, i, alpha, nInverse) == Basis(batch.omegas, i, alpha)
  {
    hide Pow, Difference, Weight;
    var xs := batch.omegas;
    var x: int, a: int, p := xs[i], alpha, Pow(alpha, batch.N());
    CongSub(1, 1, Red(p), p);
    FullDifference(batch, alpha);
    DifferenceSplit(a, xs, i);
    DistanceNonZero(xs[i], alpha);
    FullWeight(batch, i, nInverse);
    InvOrZeroCong(Red(x - a), x - a);
    ClosedFormAlgebra(x - a, a - x, Difference(a, Without(xs, i)), p, Weight(xs, i), x, nInverse);
  }

  lemma FullDifference(batch: BatchDomain, alpha: int)
    requires ValidBatch(batch)
    ensures Cong(Difference(alpha, batch.omegas), Pow(alpha, batch.N()) - 1)
  {
    hide Pow, Difference, Eval, Accumulator;
    FullAccumulator(batch);
    EvalCong(Accumulator(batch.omegas), CyclePolynomial(batch.N()), alpha, alpha);
    EvalAccumulator(batch.omegas, alpha);
    EvalCycle(batch.N(), alpha);
  }

  lemma ClosedFormAlgebra(e: int, e': int, d: int, p: int, w: int, x: int, u: int)
    requires e' == -e && Red(e) != 0
    requires Cong(e' * d, p - 1) && Cong(w, x * u)
    ensures Mul(Mul(Mul(u, Red(1 - p)), x), Inv(e)) == Red(d * w)
  {
    hide Mul;
    var q, v := 1 - p, Inv(e);
    OppositeDistance(e, e', d, p);
    InvSolves(e, d, q);
    CongMul(d, q * v, w, x * u);
    ThreeProducts(u, q, x, v);
    FourFactors(u, q, x, v);
  }

  lemma OppositeDistance(e: int, e': int, d: int, p: int)
    requires e' == -e && Cong(e' * d, p - 1)
    ensures Cong(e * d, 1 - p)
  {
    CongSub(0, 0, e' * d, p - 1);
    assert 0 - e' * d == e * d;
  }

  lemma ThreeProducts(u: int, q: int, x: int, v: int)
    ensures Mul(Mul(Mul(u, Red(q)), x), v) == Red(u * q * x * v)
  {
    CongMul(u, u, Red(q), q);
    CongMul(Mul(u, Red(q)), u * q, x, x);
    CongMul(Mul(Mul(u, Red(q)), x), u * q * x, v, v);
  }

  lemma FourFactors(u: int, q: int, x: int, v: int)
    ensures u * q * x * v == (q * v) * (x * u)
  {}

  /** The closed form (1 - alpha^N) / N * w^i / (w^i - alpha).  It returns what
      `LagrangeCoefficients` returns on all N points, for every alpha. */
  method AllNLagrangeCoefficients(batch: BatchDomain, alpha: Scalar) returns (coeffs: seq<Scalar>)
    requires ValidBatch(batch)
    ensures coeffs == CoefficientsAt(batch.omegas, alpha)
  {
    hide Pow, Mul, Sub, InvOrZero, Basis;
    var n := batch.N();
    var alphaToN := Red(Pow(alpha, n));
    var sub := GetSubdomain(batch, n);
    LogCeilSelf(batch.logN);
    LogCeilUnique(n, sub.logN, batch.logN);
    var lhsNumerator := Mul(sub.nInverse, Sub(1, alphaToN));
    var omegas := batch.omegas;
    var denominators := omegas;
    for i := 0 to n
      invariant |denominators| == n
      invariant forall k :: 0 <= k < n ==> denominators[k] == if k < i then Sub(omegas[k], alpha) else omegas[k]
    {
      denominators := denominators[i := Sub(denominators[i], alpha)];
    }
    denominators := BatchInvert(denominators);
    coeffs := [];
    for i := 0 to n
      invariant |coeffs| == i
      invariant forall k :: 0 <= k < i ==> coeffs[k] == CoefficientsAt(omegas, alpha)[k]
    {
      if alpha in omegas {
        ClosedFormAtRoot(batch, i, alpha, sub.nInverse);
      } else {
        ClosedFormElsewhere(batch, i, alpha, sub.nInverse);
      }
      coeffs := coeffs + [Mul(Mul(lhsNumerator, omegas[i]), denominators[i])];
    }
  }
}
