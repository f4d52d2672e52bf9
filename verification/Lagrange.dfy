/** Lagrange coefficients on subsets of the roots of unity (lagrange.rs). */
module Lagrange {
  import opened ScalarField
  import opened PolynomialAlgebra
  import opened Interpolation
  import opened EvaluationDomain
  import opened Fft
  import opened Polynomials
  import opened Accumulators

  const FFT_THRESH: nat := 64

  /** The evaluation points of the players with the identifiers ids. */
  function Points(batch: BatchDomain, ids: seq<nat>): (r: seq<Scalar>)
    requires forall i :: 0 <= i < |ids| ==> ids[i] < |batch.omegas|
    ensures |r| == |ids| && forall i :: 0 <= i < |ids| ==> r[i] == batch.omegas[ids[i]]
  {
    seq(|ids|, i requires 0 <= i < |ids| => batch.omegas[ids[i]])
  }

  /** A non-empty selection of distinct players, in any order. */
  ghost predicate Selection(batch: BatchDomain, ids: seq<nat>) {
    && ValidBatch(batch) && batch.N() > 1
    && 1 <= |ids| <= batch.N()
    && (forall i :: 0 <= i < |ids| ==> ids[i] < batch.N())
    && forall i, j :: 0 <= i < j < |ids| ==> ids[i] != ids[j]
  }

  lemma RootsDistinct(batch: BatchDomain, i: nat, j: nat)
    requires ValidBatch(batch) && i < batch.N() && j < batch.N() && i != j
    ensures !Cong(batch.omegas[i], batch.omegas[j])
  {
    hide Pow;
    NthRootPrimitive(batch.logN);
    PowersDistinct(NthRoot(batch.logN), batch.logN, batch.N());
  }

  lemma PointsDistinct(batch: BatchDomain, ids: seq<nat>)
    requires Selection(batch, ids)
    ensures Distinct(Points(batch, ids))
  {
    forall i, j | 0 <= i < j < |ids| ensures !Cong(Points(batch, ids)[i], Points(batch, ids)[j]) {
      RootsDistinct(batch, ids[i], ids[j]);
    }
  }

  function BatchInvert(v: seq<Scalar>): (r: seq<Scalar>)
    ensures |r| == |v| && forall i :: 0 <= i < |v| ==> r[i] == InvOrZero(v[i])
  {
    seq(|v|, i requires 0 <= i < |v| => InvOrZero(v[i]))
  }

  lemma InvOrZeroCong(x: int, y: int)
    requires Cong(x, y)
    ensures InvOrZero(x) == InvOrZero(y)
  {
    if Red(x) != 0 {
      CongMul(x, y, Inv(x), Inv(x));
      InverseUnique(y, Inv(x), Inv(y));
    }
  }

  /** The product of (X - w^i) over the selection, including the case where the
      selection is the whole domain. */
  method AccumulatorPolyHelper(batch: BatchDomain, ids: seq<nat>) returns (z: seq<Scalar>)
    requires Selection(batch, ids)
    ensures z == RedSeq(Accumulator(Points(batch, ids)))
  {
    hide Accumulator, Product, ValidBatch;
    var points := Points(batch, ids);
    if |points| < batch.N() {
      z := AccumulatorPoly(points, batch, FFT_THRESH);
    } else {
      var n := |points| - 1;
      z := AccumulateLast(points[..n], points[n], batch);
      LastApart(points);
    }
  }

  lemma LastApart(s: seq<Scalar>)
    requires |s| > 0
    ensures s[..|s| - 1] + [s[|s| - 1]] == s
  {}

  /** The two halves of a full selection: all points but the last, and the last. */
  method AccumulateLast(init: seq<Scalar>, last: Scalar, batch: BatchDomain) returns (z: seq<Scalar>)
    requires ValidBatch(batch) && 0 < |init| && |init| + 1 <= batch.N()
    ensures z == RedSeq(Accumulator(init + [last]))
  {
    hide Accumulator, Product;
    var lhs := AccumulatorPoly(init, batch, FFT_THRESH);
    var rhs := AccumulatorPoly([last], batch, FFT_THRESH);
    z := PolyMulSlow(rhs, lhs);
    ProductAccumulates([last], init, z);
    AccumulatorSwap(init, [last]);
  }

  lemma AccumulatorFactor(xs: seq<int>, i: nat)
    requires i < |xs|
    ensures LinearFactor(Accumulator(xs), xs[i], Accumulator(Without(xs, i)))
  {
    hide Accumulator, Difference, Eval;
    forall x ensures Eval(Accumulator(xs), x) == (x - xs[i]) * Eval(Accumulator(Without(xs, i)), x) {
      EvalAccumulator(xs, x);
      EvalAccumulator(Without(xs, i), x);
      DifferenceSplit(x, xs, i);
    }
  }

  /** The derivative of the accumulator at one of its roots is the product of the
      distances to the others. */
  lemma AccumulatorDerivative(xs: seq<int>, i: nat)
    requires i < |xs|
    ensures Eval(Derivative(Accumulator(xs)), xs[i]) == Difference(xs[i], Without(xs, i))
  {
    hide LinearFactor, Accumulator, Eval, Difference;
    AccumulatorFactor(xs, i);
    DerivativeAtRoot(Accumulator(xs), xs[i], Accumulator(Without(xs, i)));
    EvalAccumulator(Without(xs, i), xs[i]);
  }

  lemma RedDerivative(c: seq<int>)
    ensures RedSeq(Derivative(RedSeq(c))) == RedSeq(Derivative(c))
  {
    forall i: nat | i < |Derivative(c)| ensures RedSeq(Derivative(RedSeq(c)))[i] == RedSeq(Derivative(c))[i] {
      CongMul(i + 1, i + 1, Red(c[i + 1]), c[i + 1]);
    }
  }

  /** One over Z'(w^i) for the selected i: derivative, transform, batch inversion. */
  method Denominators(batch: BatchDomain, ids: seq<nat>, z: seq<Scalar>)
    returns (evals: seq<Scalar>, denominators: seq<Scalar>)
    requires Selection(batch, ids) && z == RedSeq(Accumulator(Points(batch, ids)))
    ensures |evals| == batch.N()
    ensures denominators == Weights(Points(batch, ids))
  {
    hide Accumulator, Eval, Pow, Difference;
    var d := PolyDifferentiate(z);
    ghost var xs := Points(batch, ids);
    RedDerivative(Accumulator(xs));
    var dom := GetSubdomain(batch, batch.N());
    LogCeilSelf(batch.logN);
    LogCeilUnique(batch.N(), dom.logN, batch.logN);
    evals := FftAssign(d, dom);
    var selected: seq<Scalar> := [];
    for i := 0 to |ids|
      invariant |selected| == i && forall k :: 0 <= k < i ==> selected[k] == evals[ids[k]]
    {
      selected := selected + [evals[ids[i]]];
    }
    denominators := BatchInvert(selected);
    forall i: nat | i < |ids| ensures denominators[i] == Weight(xs, i) {
      var w := NthRoot(batch.logN);
      assert xs[i] == Red(Pow(w, ids[i]));
      DerivativeValue(d, xs, i, Pow(w, ids[i]));
      InvOrZeroCong(selected[i], Difference(xs[i], Without(xs, i)));
    }
  }

  lemma DerivativeValue(d: seq<Scalar>, xs: seq<Scalar>, i: nat, p: int)
    requires i < |xs| && d == RedSeq(Derivative(Accumulator(xs))) && xs[i] == Red(p)
    ensures Cong(Eval(d, p), Difference(xs[i], Without(xs, i)))
  {
    hide Accumulator, Eval;
    EvalRed(Derivative(Accumulator(xs)), p);
    var c := Derivative(Accumulator(xs));
    EvalCong(c, c, p, xs[i]);
    AccumulatorDerivative(xs, i);
  }

  lemma LogCeilSelf(l: nat)
    ensures IsLogCeil(Pow2(l), l)
  {}

  // ---- coefficients at zero ----

  /** Z(0) / (0 - w^i) without a division: the inverse of -w^i is w^(N/2 - i). */
  method ComputeNumeratorsAtZero(batch: BatchDomain, ids: seq<nat>, z0: Scalar) returns (numerators: seq<Scalar>)
    requires Selection(batch, ids) && Cong(z0, Difference(0, Points(batch, ids)))
    ensures |numerators| == |ids|
    ensures forall i :: 0 <= i < |ids| ==>
      Cong(numerators[i], Difference(0, Without(Points(batch, ids), i)))
  {
    hide Difference, Pow;
    var n := batch.N();
    numerators := [];
    for k := 0 to |ids|
      invariant |numerators| == k
      invariant forall i :: 0 <= i < k ==> Cong(numerators[i], Difference(0, Without(Points(batch, ids), i)))
    {
      var i := ids[k];
      var idx := if n / 2 < i then n + n / 2 - i else n / 2 - i;
      NegatedInverse(batch, i, idx);
      NumeratorAtZero(Points(batch, ids), k, z0, batch.omegas[idx]);
      numerators := numerators + [Mul(z0, batch.omegas[idx])];
    }
  }

  lemma HalfTurns(w: int, l: nat, k: nat)
    requires l > 0 && PrimitiveRoot(w, l) && (k == Pow2(l - 1) || k == Pow2(l) + Pow2(l - 1))
    ensures Cong(Pow(w, k), -1)
  {
    hide Pow;
    if k != Pow2(l - 1) {
      RootOrder(w, l);
      PowAdd(w, Pow2(l), Pow2(l - 1));
      CongMul(Pow(w, Pow2(l)), 1, Pow(w, Pow2(l - 1)), -1);
    }
  }

  lemma NegatedInverse(batch: BatchDomain, i: nat, idx: nat)
    requires ValidBatch(batch) && batch.N() > 1 && i < batch.N()
    requires idx == if batch.N() / 2 < i then batch.N() + batch.N() / 2 - i else batch.N() / 2 - i
    ensures idx < batch.N() && NegativeInverses(batch.omegas[i], batch.omegas[idx])
  {
    hide Pow, NthRoot;
    var w, l := NthRoot(batch.logN), batch.logN;
    NthRootPrimitive(l);
    assert l > 0 && batch.N() / 2 == Pow2(l - 1);
    HalfTurns(w, l, i + idx);
    NegatedProduct(w, i, idx, batch.omegas[i], batch.omegas[idx]);
  }

  ghost predicate NegativeInverses(a: int, b: int) {
    Cong((0 - a) * b, 1)
  }

  lemma NegatedProduct(w: int, i: nat, k: nat, a: int, b: int)
    requires Cong(Pow(w, i + k), -1) && Cong(a, Pow(w, i)) && Cong(b, Pow(w, k))
    ensures NegativeInverses(a, b)
  {
    hide Pow;
    PowAdd(w, i, k);
    CongMul(a, Pow(w, i), b, Pow(w, k));
    CongSub(0, 0, a * b, -1);
    NegativeProduct(a, b);
  }

  lemma NegativeProduct(a: int, b: int)
    ensures (0 - a) * b == 0 - a * b
  {}

  lemma NumeratorAtZero(xs: seq<int>, k: nat, z0: int, u: int)
    requires k < |xs| && Cong(z0, Difference(0, xs)) && NegativeInverses(xs[k], u)
    ensures Cong(Mul(z0, u), Difference(0, Without(xs, k)))
  {
    hide Difference;
    var d := Difference(0, Without(xs, k));
    DifferenceSplit(0, xs, k);
    CongMul(z0, (0 - xs[k]) * d, u, u);
    MulSwap(0 - xs[k], d, u);
    CongMul((0 - xs[k]) * u, 1, d, d);
  }

  /** The Lagrange coefficients at zero of a selection of players, in the order
      given. */
  method LagrangeCoefficientsAtZero(batch: BatchDomain, ids: seq<nat>) returns (coeffs: seq<Scalar>)
    requires Selection(batch, ids)
    ensures coeffs == Bases(Points(batch, ids), 0)
  {
    hide Accumulator, Difference, Eval;
    ghost var xs := Points(batch, ids);
    var z := AccumulatorPolyHelper(batch, ids);
    AccumulatorAtZero(xs);
    var numerators := ComputeNumeratorsAtZero(batch, ids, z[0]);
    var evals, denominators := Denominators(batch, ids, z);
    coeffs := evals;
    for i := 0 to |ids|
      invariant |coeffs| == |evals| && forall k :: 0 <= k < i ==> coeffs[k] == Mul(numerators[k], denominators[k])
    {
      coeffs := coeffs[i := Mul(numerators[i], denominators[i])];
    }
    coeffs := coeffs[..|ids|];
    forall i: nat | i < |ids| ensures coeffs[i] == Basis(xs, i, 0) {
      CongMul(numerators[i], Difference(0, Without(xs, i)), denominators[i], Weight(xs, i));
    }
  }

  lemma AccumulatorAtZero(xs: seq<int>)
    ensures Cong(RedSeq(Accumulator(xs))[0], Difference(0, xs))
  {
    EvalAccumulator(xs, 0);
    EvalAtZero(Accumulator(xs));
  }

  // ---- coefficients at arbitrary points ----

  /** Z(alpha) / (alpha - w^i), by batch inversion. */
  method ComputeNumerators(z: seq<Scalar>, batch: BatchDomain, ids: seq<nat>, alpha: Scalar)
    returns (numerators: seq<Scalar>)
    requires Selection(batch, ids) && z == RedSeq(Accumulator(Points(batch, ids)))
    ensures |numerators| == |ids|
    ensures forall i :: 0 <= i < |ids| ==>
      numerators[i] == if alpha in Points(batch, ids) then 0 else Red(Difference(alpha, Without(Points(batch, ids), i)))
  {
    hide Accumulator, Difference, Eval, Sub, Mul, ValidBatch, Without, InvOrZero;
    ghost var xs := Points(batch, ids);
    var zAlpha := PolyEval(z, alpha);
    AccumulatorAt(xs, alpha);
    var inverses := InverseDistances(batch, ids, alpha);
    numerators := [];
    for k := 0 to |ids|
      invariant |numerators| == k && forall i :: 0 <= i < k ==> numerators[i] == Mul(inverses[i], zAlpha)
    {
      numerators := numerators + [Mul(inverses[k], zAlpha)];
    }
    forall i: nat | i < |ids|
      ensures numerators[i] == if alpha in xs then 0 else Red(Difference(alpha, Without(xs, i)))
    {
      NumeratorAtAlpha(xs, i, alpha, zAlpha);
    }
  }

  lemma AccumulatorAt(xs: seq<int>, alpha: int)
    ensures Red(Eval(RedSeq(Accumulator(xs)), alpha)) == Red(Difference(alpha, xs))
  {
    EvalRed(Accumulator(xs), alpha);
    EvalAccumulator(xs, alpha);
  }

  method InverseDistances(batch: BatchDomain, ids: seq<nat>, alpha: Scalar) returns (inverses: seq<Scalar>)
    requires forall i :: 0 <= i < |ids| ==> ids[i] < |batch.omegas|
    ensures |inverses| == |ids|
    ensures forall i :: 0 <= i < |ids| ==> inverses[i] == InvOrZero(Sub(alpha, Points(batch, ids)[i]))
  {
    hide Sub, InvOrZero;
    var distances: seq<Scalar> := [];
    for k := 0 to |ids|
      invariant |distances| == k && forall i :: 0 <= i < k ==> distances[i] == Sub(alpha, Points(batch, ids)[i])
    {
      distances := distances + [Sub(alpha, batch.omegas[ids[k]])];
    }
    inverses := BatchInvert(distances);
  }

  lemma NumeratorAtAlpha(xs: seq<Scalar>, i: nat, alpha: Scalar, z: Scalar)
    requires i < |xs| && z == Red(Difference(alpha, xs))
    ensures Mul(InvOrZero(Sub(alpha, xs[i])), z) == if alpha in xs then 0 else Red(Difference(alpha, Without(xs, i)))
  {
    hide Difference;
    var e, d := alpha - xs[i], Difference(alpha, Without(xs, i));
    DifferenceSplit(alpha, xs, i);
    if alpha in xs {
      var k :| 0 <= k < |xs| && xs[k] == alpha;
      DifferenceZero(alpha, xs, k);
      assert z == 0;
    } else {
      DistanceNonZero(alpha, xs[i]);
      InvOrZeroCong(Red(e), e);
      var u := Inv(e);
      CongMul(u, u, z, e * d);
      MulAssoc(u, e, d);
      MulCommutes(u, e);
      CongMul(e * u, 1, d, d);
    }
  }

  lemma DistanceNonZero(a: Scalar, b: Scalar)
    requires a != b
    ensures Red(a - b) != 0
  {
    if Cong(a - b, 0) { CongAdd(a - b, 0, b, b); }
  }

  /** The Lagrange coefficients at alpha that the code computes: all zero when
      alpha is one of the selected points. */
  function CoefficientsAt(xs: seq<Scalar>, alpha: Scalar): (r: seq<Scalar>)
    ensures |r| == |xs|
  {
    if alpha in xs then Zeros(|xs|) else Bases(xs, alpha)
  }

  method LagrangeCoefficients(batch: BatchDomain, ids: seq<nat>, alphas: seq<Scalar>)
    returns (coeffs: seq<seq<Scalar>>)
    requires Selection(batch, ids)
    ensures |coeffs| == |alphas|
    ensures forall a :: 0 <= a < |alphas| ==> coeffs[a] == CoefficientsAt(Points(batch, ids), alphas[a])
  {
    hide Accumulator, Difference, Eval, CoefficientsAt;
    ghost var xs := Points(batch, ids);
    var z := AccumulatorPolyHelper(batch, ids);
    var evals, denominators := Denominators(batch, ids, z);
    coeffs := [];
    for a := 0 to |alphas|
      invariant |coeffs| == a
      invariant forall k :: 0 <= k < a ==> coeffs[k] == CoefficientsAt(xs, alphas[k])
    {
      var numerators := ComputeNumerators(z, batch, ids, alphas[a]);
      var row := ScaleRow(evals, numerators, denominators);
      RowIsCoefficients(xs, alphas[a], numerators, row);
      coeffs := coeffs + [row];
    }
  }

  method ScaleRow(evals: seq<Scalar>, numerators: seq<Scalar>, denominators: seq<Scalar>) returns (row: seq<Scalar>)
    requires |numerators| == |denominators| <= |evals|
    ensures |row| == |numerators| && forall k :: 0 <= k < |row| ==> row[k] == Mul(numerators[k], denominators[k])
  {
    row := evals;
    for i := 0 to |numerators|
      invariant |row| == |evals| && forall k :: 0 <= k < i ==> row[k] == Mul(numerators[k], denominators[k])
    {
      row := row[i := Mul(numerators[i], denominators[i])];
    }
    row := row[..|numerators|];
  }

  lemma RowIsCoefficients(xs: seq<Scalar>, alpha: Scalar, numerators: seq<Scalar>, row: seq<Scalar>)
    requires |numerators| == |row| == |xs|
    requires forall i :: 0 <= i < |xs| ==>
      numerators[i] == if alpha in xs then 0 else Red(Difference(alpha, Without(xs, i)))
    requires forall i :: 0 <= i < |xs| ==> row[i] == Mul(numerators[i], Weight(xs, i))
    ensures row == CoefficientsAt(xs, alpha)
  {
    forall i: nat | i < |xs| ensures row[i] == CoefficientsAt(xs, alpha)[i] {
      if alpha !in xs {
        CongMul(numerators[i], Difference(alpha, Without(xs, i)), Weight(xs, i), Weight(xs, i));
      }
    }
  }

  /** The coefficients interpolate exactly when alpha is not a selected point. */
  lemma CoefficientsInterpolate(xs: seq<Scalar>, alpha: Scalar)
    requires Distinct(xs) && |xs| > 0
    ensures (forall q: seq<int> :: |q| <= |xs| ==> Cong(Dot(CoefficientsAt(xs, alpha), EvalAll(q, xs)), Eval(q, alpha)))
      <==> alpha !in xs
  {
    if alpha in xs {
      var one := [1];
      assert Eval(one, alpha) == 1 + alpha * Eval([], alpha);
      DotZeros(|xs|, EvalAll(one, xs), |xs|);
      assert Red(1) == 1 && Red(0) == 0;
      assert |one| <= |xs| && !Cong(Dot(CoefficientsAt(xs, alpha), EvalAll(one, xs)), Eval(one, alpha));
    } else {
      forall q: seq<int> | |q| <= |xs|
        ensures Cong(Dot(CoefficientsAt(xs, alpha), EvalAll(q, xs)), Eval(q, alpha))
      {
        Interpolates(q, xs, alpha);
      }
    }
  }

  lemma {:induction false} DotZeros(m: nat, b: seq<int>, n: nat)
    ensures DotTo(Zeros(m), b, n) == 0
  {
    if n > 0 { DotZeros(m, b, n - 1); }
  }

  // ---- the denominators of the dual-code test ----

  /** One over the product of w^i - w^j over j != i, for the first n roots.  The
      evaluation uses the subdomain of size n, so its size must be the batch's. */
  method AllLagrangeDenominators(batch: BatchDomain, n: nat) returns (denoms: seq<Scalar>)
    requires ValidBatch(batch) && batch.N() > 1 && 1 <= n <= batch.N() && IsLogCeil(n, batch.logN)
    ensures denoms == Weights(batch.omegas[..n])
  {
    hide Accumulator, Eval, Pow, Difference;
    var ids := seq(n, i requires 0 <= i < n => i);
    var a := AccumulatorPolyHelper(batch, ids);
    ghost var xs := Points(batch, ids);
    assert xs == batch.omegas[..n];
    a := PolyDifferentiate(a);
    RedDerivative(Accumulator(xs));
    var dom := GetSubdomain(batch, n);
    LogCeilUnique(n, dom.logN, batch.logN);
    var evals := FftAssign(a, dom);
    evals := evals[..n];
    denoms := BatchInvert(evals);
    forall i: nat | i < n ensures denoms[i] == Weight(xs, i) {
      var p := Pow(NthRoot(batch.logN), i);
      assert xs[i] == Red(p);
      DerivativeValue(a, xs, i, p);
      InvOrZeroCong(evals[i], Difference(xs[i], Without(xs, i)));
    }
  }
}
