/** Lagrange interpolation over the field: the reference meaning of every
    coefficient vector the sharing code computes. */
module Interpolation {
  import opened ScalarField
  import opened PolynomialAlgebra

  /** The inner product of the first n entries. */
  function DotTo(a: seq<int>, b: seq<int>, n: nat): int {
    if n == 0 then 0 else DotTo(a, b, n - 1) + At(a, n - 1) * At(b, n - 1)
  }

  function Dot(a: seq<int>, b: seq<int>): int {
    DotTo(a, b, |a|)
  }

  lemma DotNone(a: seq<int>, b: seq<int>)
    ensures DotTo(a, b, 0) == 0
  {}

  lemma DotStep(a: seq<int>, b: seq<int>, n: nat)
    requires 0 < n <= |a| && n <= |b|
    ensures DotTo(a, b, n) == DotTo(a, b, n - 1) + a[n - 1] * b[n - 1]
  {}

  /** Entry-wise inverse that leaves zeros in place. */
  function InvOrZero(x: int): Scalar {
    if Red(x) == 0 then 0 else Inv(x)
  }

  function Without(xs: seq<int>, i: nat): (r: seq<int>)
    requires i < |xs|
    ensures |r| == |xs| - 1
  {
    xs[..i] + xs[i + 1..]
  }

  /** One over the product of the distances from xs[i] to the other points. */
  function Weight(xs: seq<int>, i: nat): Scalar
    requires i < |xs|
  {
    InvOrZero(Difference(xs[i], Without(xs, i)))
  }

  function Weights(xs: seq<int>): (r: seq<Scalar>)
    ensures |r| == |xs| && forall i :: 0 <= i < |xs| ==> r[i] == Weight(xs, i)
  {
    seq(|xs|, i requires 0 <= i < |xs| => Weight(xs, i))
  }

  /** The i-th Lagrange basis polynomial of the points xs, at alpha. */
  function Basis(xs: seq<int>, i: nat, alpha: int): Scalar
    requires i < |xs|
  {
    Red(Difference(alpha, Without(xs, i)) * Weight(xs, i))
  }

  function Bases(xs: seq<int>, alpha: int): (r: seq<Scalar>)
    ensures |r| == |xs| && forall i :: 0 <= i < |xs| ==> r[i] == Basis(xs, i, alpha)
  {
    seq(|xs|, i requires 0 <= i < |xs| => Basis(xs, i, alpha))
  }

  function EvalAll(q: seq<int>, xs: seq<int>): (r: seq<int>)
    ensures |r| == |xs| && forall i :: 0 <= i < |xs| ==> r[i] == Eval(q, xs[i])
  {
    seq(|xs|, i requires 0 <= i < |xs| => Eval(q, xs[i]))
  }

  // ---- inner products ----

  lemma {:induction false} DotCong(a: seq<int>, a': seq<int>, b: seq<int>, b': seq<int>, n: nat)
    requires forall i :: 0 <= i < n ==> Cong(At(a, i), At(a', i)) && Cong(At(b, i), At(b', i))
    ensures Cong(DotTo(a, b, n), DotTo(a', b', n))
  {
    if n > 0 {
      DotCong(a, a', b, b', n - 1);
      CongMul(At(a, n - 1), At(a', n - 1), At(b, n - 1), At(b', n - 1));
      CongAdd(DotTo(a, b, n - 1), DotTo(a', b', n - 1), At(a, n - 1) * At(b, n - 1), At(a', n - 1) * At(b', n - 1));
    }
  }

  ghost predicate SameTerm(a: seq<int>, b: seq<int>, c: seq<int>, d: seq<int>, i: nat) {
    Cong(At(a, i) * At(b, i), At(c, i) * At(d, i))
  }

  lemma {:induction false} DotSameTerms(a: seq<int>, b: seq<int>, c: seq<int>, d: seq<int>, n: nat)
    requires forall i :: 0 <= i < n ==> SameTerm(a, b, c, d, i)
    ensures Cong(DotTo(a, b, n), DotTo(c, d, n))
  {
    hide SameTerm, At;
    if n > 0 {
      DotSameTerms(a, b, c, d, n - 1);
      AddSameTerm(a, b, c, d, n - 1, DotTo(a, b, n - 1), DotTo(c, d, n - 1));
    }
  }

  lemma AddSameTerm(a: seq<int>, b: seq<int>, c: seq<int>, d: seq<int>, i: nat, u: int, v: int)
    requires SameTerm(a, b, c, d, i) && Cong(u, v)
    ensures Cong(u + At(a, i) * At(b, i), v + At(c, i) * At(d, i))
  {
    hide At;
    CongAdd(u, v, At(a, i) * At(b, i), At(c, i) * At(d, i));
  }

  /** Inner products are linear in the second argument. */
  lemma {:induction false} DotLinear(a: seq<int>, b: seq<int>, c: seq<int>, d: seq<int>, k: int, n: nat)
    requires forall i :: 0 <= i < n ==> At(d, i) == At(b, i) + k * At(c, i)
    ensures DotTo(a, d, n) == DotTo(a, b, n) + k * DotTo(a, c, n)
  {
    if n > 0 {
      DotLinear(a, b, c, d, k, n - 1);
      LinearStep(At(a, n - 1), At(b, n - 1), At(c, n - 1), k, DotTo(a, c, n - 1));
    }
  }

  lemma LinearStep(a: int, b: int, c: int, k: int, t: int)
    ensures a * (b + k * c) + k * t == a * b + k * (t + a * c)
  {}

  lemma {:induction false} DotCommutes(a: seq<int>, b: seq<int>, n: nat)
    ensures DotTo(a, b, n) == DotTo(b, a, n)
  {
    if n > 0 { DotCommutes(a, b, n - 1); }
  }

  // ---- distances ----

  lemma {:induction false} DifferenceZero(x: int, s: seq<int>, k: nat)
    requires k < |s| && s[k] == x
    ensures Difference(x, s) == 0
  {
    if k > 0 {
      DifferenceZero(x, s[1..], k - 1);
    }
  }

  lemma {:induction false} DifferenceNonZero(x: int, s: seq<int>)
    requires forall k :: 0 <= k < |s| ==> !Cong(x, s[k])
    ensures !Cong(Difference(x, s), 0)
  {
    if |s| > 0 {
      DifferenceNonZero(x, s[1..]);
      if Cong(x - s[0], 0) { CongAdd(x - s[0], 0, s[0], s[0]); }
      if Cong((x - s[0]) * Difference(x, s[1..]), 0) { NoZeroDivisors(x - s[0], Difference(x, s[1..])); }
    } else {
      assert Red(1) == 1;
    }
  }

  lemma {:induction false} DifferenceCong(x: int, y: int, s: seq<int>, t: seq<int>)
    requires Cong(x, y) && RedSeq(s) == RedSeq(t)
    ensures Cong(Difference(x, s), Difference(y, t))
  {
    assert |s| == |RedSeq(s)| == |t|;
    if |s| > 0 {
      assert RedSeq(s)[0] == RedSeq(t)[0];
      assert RedSeq(s[1..]) == RedSeq(s)[1..] == RedSeq(t)[1..] == RedSeq(t[1..]);
      DifferenceCong(x, y, s[1..], t[1..]);
      CongSub(x, y, s[0], t[0]);
      CongMul(x - s[0], y - t[0], Difference(x, s[1..]), Difference(y, t[1..]));
    }
  }

  lemma WithoutMember(xs: seq<int>, i: nat, k: nat) returns (l: nat)
    requires i < |xs| && k < |xs| && i != k
    ensures l < |xs| - 1 && Without(xs, i)[l] == xs[k]
  {
    l := if k < i then k else k - 1;
  }

  lemma WeightInverts(xs: seq<int>, i: nat)
    requires i < |xs| && Distinct(xs)
    ensures !Cong(Difference(xs[i], Without(xs, i)), 0)
    ensures Cong(Difference(xs[i], Without(xs, i)) * Weight(xs, i), 1)
  {
    DifferenceNonZero(xs[i], Without(xs, i));
  }

  /** Splitting off one factor. */
  lemma DifferenceSplit(x: int, xs: seq<int>, i: nat)
    requires i < |xs|
    ensures Difference(x, xs) == (x - xs[i]) * Difference(x, Without(xs, i))
  {
    var u, v := xs[..i], xs[i..];
    assert xs == u + v && v[1..] == xs[i + 1..];
    DifferenceAppend(x, u, v);
    DifferenceAppend(x, u, v[1..]);
    Swap3(Difference(x, u), x - xs[i], Difference(x, v[1..]));
  }

  lemma Swap3(a: int, b: int, c: int)
    ensures a * (b * c) == b * (a * c)
  {}

  // ---- the interpolation theorem ----

  /** The interpolating polynomial through the first k points, as coefficients. */
  ghost function Interpolant(q: seq<int>, xs: seq<int>, k: nat): (r: seq<int>)
    requires k <= |xs|
    ensures |r| == |xs|
  {
    if k == 0 then Zeros(|xs|)
    else AddSeq(Interpolant(q, xs, k - 1),
                Scale(Eval(q, xs[k - 1]) * Weight(xs, k - 1), Accumulator(Without(xs, k - 1))))
  }

  /** The unreduced basis values. */
  ghost function RawBases(xs: seq<int>, alpha: int): (r: seq<int>)
    ensures |r| == |xs|
    ensures forall i :: 0 <= i < |xs| ==> r[i] == Difference(alpha, Without(xs, i)) * Weight(xs, i)
  {
    seq(|xs|, i requires 0 <= i < |xs| => Difference(alpha, Without(xs, i)) * Weight(xs, i))
  }

  lemma {:induction false} EvalInterpolant(q: seq<int>, xs: seq<int>, k: nat, alpha: int)
    requires k <= |xs|
    ensures Eval(Interpolant(q, xs, k), alpha) == DotTo(RawBases(xs, alpha), EvalAll(q, xs), k)
  {
    if k == 0 {
      EvalZero(Zeros(|xs|), alpha);
    } else {
      EvalInterpolant(q, xs, k - 1, alpha);
      var a := Accumulator(Without(xs, k - 1));
      var w := Eval(q, xs[k - 1]) * Weight(xs, k - 1);
      EvalAdd(Interpolant(q, xs, k - 1), Scale(w, a), alpha);
      EvalScale(w, a, alpha);
      EvalAccumulator(Without(xs, k - 1), alpha);
      Rotate3(Eval(q, xs[k - 1]), Weight(xs, k - 1), Eval(a, alpha));
    }
  }

  lemma Rotate3(a: int, b: int, c: int)
    ensures a * b * c == (c * b) * a
  {}

  lemma {:induction false} TopCoefficient(q: seq<int>, xs: seq<int>, k: nat)
    requires k <= |xs| && |xs| > 0
    ensures Interpolant(q, xs, k)[|xs| - 1] == DotTo(EvalAll(q, xs), Weights(xs), k)
  {
    hide Eval, Weight, Accumulator, DotTo, Interpolant;
    if k == 0 {
      EmptyInterpolant(q, xs);
    } else {
      TopCoefficient(q, xs, k - 1);
      InterpolantTop(q, xs, k);
      DotStep(EvalAll(q, xs), Weights(xs), k);
    }
  }

  lemma EmptyInterpolant(q: seq<int>, xs: seq<int>)
    requires |xs| > 0
    ensures Interpolant(q, xs, 0)[|xs| - 1] == 0 == DotTo(EvalAll(q, xs), Weights(xs), 0)
  {}

  lemma InterpolantTop(q: seq<int>, xs: seq<int>, k: nat)
    requires 0 < k <= |xs|
    ensures Interpolant(q, xs, k)[|xs| - 1] ==
      Interpolant(q, xs, k - 1)[|xs| - 1] + Eval(q, xs[k - 1]) * Weight(xs, k - 1)
  {
    hide Eval, Weight, Accumulator;
    AccumulatorMonic(Without(xs, k - 1));
    var w, a := Eval(q, xs[k - 1]) * Weight(xs, k - 1), Accumulator(Without(xs, k - 1));
    assert Scale(w, a)[|xs| - 1] == w * a[|xs| - 1];
  }

  lemma {:induction false} BasisAtPoint(q: seq<int>, xs: seq<int>, m: nat, k: nat)
    requires k <= |xs| && m < |xs| && Distinct(xs)
    ensures Cong(DotTo(RawBases(xs, xs[m]), EvalAll(q, xs), k), if m < k then Eval(q, xs[m]) else 0)
  {
    hide Eval, DotTo, RawBases, Distinct;
    var b, e := RawBases(xs, xs[m]), EvalAll(q, xs);
    if k == 0 {
      assert DotTo(b, e, 0) == 0 by { DotNone(b, e); }
    } else {
      var i := k - 1;
      BasisAtPoint(q, xs, m, i);
      var t := BasisTerm(q, xs, m, i);
      DotStep(b, e, k);
      CongAdd(DotTo(b, e, i), if m < i then Eval(q, xs[m]) else 0, t, if i == m then Eval(q, xs[m]) else 0);
    }
  }

  lemma BasisTerm(q: seq<int>, xs: seq<int>, m: nat, i: nat) returns (t: int)
    requires i < |xs| && m < |xs| && Distinct(xs)
    ensures t == RawBases(xs, xs[m])[i] * EvalAll(q, xs)[i]
    ensures Cong(t, if i == m then Eval(q, xs[m]) else 0)
  {
    hide Eval, Distinct, Difference, Weight, Without;
    t := RawBases(xs, xs[m])[i] * Eval(q, xs[i]);
    if i == m {
      WeightInverts(xs, i);
      CongMul(RawBases(xs, xs[m])[i], 1, Eval(q, xs[i]), Eval(q, xs[i]));
    } else {
      var l := WithoutMember(xs, i, m);
      DifferenceZero(xs[m], Without(xs, i), l);
    }
  }

  lemma InterpolantIsPolynomial(q: seq<int>, xs: seq<int>)
    requires |q| <= |xs| && Distinct(xs)
    ensures RedSeq(Interpolant(q, xs, |xs|)) == RedSeq(q + Zeros(|xs| - |q|))
  {
    hide Eval, Interpolant, RawBases, DotTo, Distinct;
    var l, p := Interpolant(q, xs, |xs|), q + Zeros(|xs| - |q|);
    forall m | 0 <= m < |xs| ensures Cong(Eval(l, xs[m]), Eval(p, xs[m])) { InterpolantAtPoint(q, xs, m); }
    InterpolationUnique(l, p, xs);
  }

  lemma InterpolantAtPoint(q: seq<int>, xs: seq<int>, m: nat)
    requires |q| <= |xs| && Distinct(xs) && m < |xs|
    ensures Cong(Eval(Interpolant(q, xs, |xs|), xs[m]), Eval(q + Zeros(|xs| - |q|), xs[m]))
  {
    hide Eval, Interpolant, RawBases, DotTo, Distinct;
    EvalInterpolant(q, xs, |xs|, xs[m]);
    BasisAtPoint(q, xs, m, |xs|);
    EvalPad(q, |xs| - |q|, xs[m]);
  }

  /** Lagrange interpolation: the basis values at alpha recombine the values of
      any polynomial with at most as many coefficients as there are points. */
  lemma Interpolates(q: seq<int>, xs: seq<int>, alpha: int)
    requires |q| <= |xs| && Distinct(xs)
    ensures Cong(Dot(Bases(xs, alpha), EvalAll(q, xs)), Eval(q, alpha))
  {
    hide Eval, Interpolant, DotTo, Distinct;
    var l, p := Interpolant(q, xs, |xs|), q + Zeros(|xs| - |q|);
    InterpolantIsPolynomial(q, xs);
    EvalCong(l, p, alpha, alpha);
    EvalInterpolant(q, xs, |xs|, alpha);
    EvalPad(q, |xs| - |q|, alpha);
    DotCong(Bases(xs, alpha), RawBases(xs, alpha), EvalAll(q, xs), EvalAll(q, xs), |xs|);
  }

  /** The dual-code identity: the weighted sum of the values of a polynomial is
      its coefficient of degree |xs| - 1, hence zero for lower degrees. */
  lemma DualCodeIdentity(q: seq<int>, xs: seq<int>)
    requires |q| <= |xs| && |xs| > 0 && Distinct(xs)
    ensures Cong(Dot(EvalAll(q, xs), Weights(xs)), At(q, |xs| - 1))
  {
    hide Eval, Interpolant, DotTo, Distinct;
    InterpolantIsPolynomial(q, xs);
    TopCoefficient(q, xs, |xs|);
    var l, p := Interpolant(q, xs, |xs|), q + Zeros(|xs| - |q|);
    assert RedSeq(l)[|xs| - 1] == RedSeq(p)[|xs| - 1];
  }

  // ---- a polynomial through given values ----

  lemma {:induction false} PolynomialExists(xs: seq<int>, ys: seq<int>) returns (p: seq<int>)
    requires |xs| == |ys| && Distinct(xs)
    ensures |p| == |xs| && forall k :: 0 <= k < |xs| ==> Cong(Eval(p, xs[k]), ys[k])
  {
    if |xs| == 0 {
      p := [];
    } else {
      var m := |xs| - 1;
      var low := PolynomialExists(xs[..m], ys[..m]);
      p := ExtendPolynomial(xs[..m], ys[..m], low, xs[m], ys[m]);
      assert xs[..m] + [xs[m]] == xs && ys[..m] + [ys[m]] == ys;
    }
  }

  lemma ExtendPolynomial(xs: seq<int>, ys: seq<int>, low: seq<int>, x: int, y: int) returns (p: seq<int>)
    requires |low| == |xs| == |ys| && Distinct(xs + [x])
    requires forall k :: 0 <= k < |xs| ==> Cong(Eval(low, xs[k]), ys[k])
    ensures |p| == |xs| + 1
    ensures forall k :: 0 <= k < |xs| ==> Cong(Eval(p, xs[k]), ys[k])
    ensures Cong(Eval(p, x), y)
  {
    hide Eval, Difference, Corrected;
    forall k | 0 <= k < |xs| ensures !Cong(x, xs[k]) {
      assert (xs + [x])[k] == xs[k] && (xs + [x])[|xs|] == x;
    }
    DifferenceNonZero(x, xs);
    var c := (y - Eval(low, x)) * Inv(Difference(x, xs));
    p := AddSeq(low, Scale(c, Accumulator(xs)));
    forall k | 0 <= k < |xs| ensures Cong(Eval(p, xs[k]), ys[k]) {
      CorrectedValue(low, c, xs, xs[k]);
      DifferenceZero(xs[k], xs, k);
    }
    CorrectedValue(low, c, xs, x);
    Corrects(y, Eval(low, x), Difference(x, xs), Inv(Difference(x, xs)), c);
  }

  function Corrected(v: int, c: int, d: int): (r: int)
    ensures d == 0 ==> r == v
  {
    v + c * d
  }

  lemma CorrectedValue(low: seq<int>, c: int, xs: seq<int>, x: int)
    ensures Eval(AddSeq(low, Scale(c, Accumulator(xs))), x) == Corrected(Eval(low, x), c, Difference(x, xs))
  {
    hide Eval, Difference;
    EvalAdd(low, Scale(c, Accumulator(xs)), x);
    EvalScale(c, Accumulator(xs), x);
    EvalAccumulator(xs, x);
  }

  lemma Corrects(y: int, v: int, d: int, inv: int, c: int)
    requires Cong(d * inv, 1) && c == (y - v) * inv
    ensures Cong(Corrected(v, c, d), y)
  {
    MulAssoc(y - v, inv, d);
    MulCommutes(inv, d);
    CongMul(y - v, y - v, d * inv, 1);
    CongAdd(v, v, (y - v) * (d * inv), (y - v) * 1);
  }
}
