/** Power vectors and inner products of the NiVSS proofs (vss/ni_vss/utils.rs). */
module NivssUtils {
  import opened ScalarField
  import opened PolynomialAlgebra
  import opened Interpolation
  import opened EvaluationDomain
  import opened PowerSums
  import opened Group

  /** x, x^2, ..., x^cnt. */
  function XPowers(x: int, cnt: nat): (r: seq<Scalar>)
    ensures |r| == cnt && forall i :: 0 <= i < cnt ==> r[i] == Red(Pow(x, i + 1))
  {
    seq(cnt, i requires 0 <= i < cnt => Red(Pow(x, i + 1)))
  }

  /** `get_xpowers`. */
  method GetXpowers(x: Scalar, cnt: nat) returns (r: seq<Scalar>)
    ensures r == XPowers(x, cnt)
  {
    r := [];
    var xpow: Scalar := Red(1);
    assert xpow == Red(Pow(x, 0));
    hide Pow, Mul;
    for i := 0 to cnt
      invariant xpow == Red(Pow(x, i)) && |r| == i
      invariant forall k :: 0 <= k < i ==> r[k] == Red(Pow(x, k + 1))
    {
      NextPower(x, i, xpow);
      xpow := Mul(xpow, x);
      r := r + [xpow];
    }
  }

  lemma PowersStep(x: int, n: nat)
    ensures Powers(x, n + 1) == Powers(x, n) + [Red(Pow(x, n))]
  {
    hide Pow;
  }

  /** `get_xpowers_at_0`: 1, x, ..., x^(cnt-1). */
  method GetXpowersAt0(x: Scalar, cnt: nat) returns (r: seq<Scalar>)
    ensures r == Powers(x, cnt)
  {
    r := [];
    var xpow: Scalar := Red(1);
    assert xpow == Red(Pow(x, 0));
    hide Pow, Mul, Powers;
    for i := 0 to cnt
      invariant xpow == Red(Pow(x, i)) && r == Powers(x, i)
    {
      NextPower(x, i, xpow);
      PowersStep(x, i);
      r := r + [xpow];
      xpow := Mul(xpow, x);
    }
  }

  /** The inner product does not see the entries beyond the shorter vector. */
  lemma {:induction false} DotShort(a: seq<int>, b: seq<int>, n: nat, m: nat)
    requires n <= m && (|a| <= n || |b| <= n)
    ensures DotTo(a, b, m) == DotTo(a, b, n)
  {
    if n < m { DotShort(a, b, n, m - 1); }
  }

  lemma AccumulateStep(a: seq<int>, b: seq<int>, i: nat, acc: int)
    requires i < |a| && i < |b| && Cong(acc, DotTo(a, b, i))
    ensures Add(acc, Mul(a[i], Red(b[i]))) == Red(DotTo(a, b, i + 1))
  {
    var u, v, d := a[i], b[i], DotTo(a, b, i);
    CongMul(u, u, Red(v), v);
    CongAdd(acc, d, Mul(u, Red(v)), u * v);
  }

  /** `scalar_mult_exp`: an inner product up to the shorter length. */
  method ScalarMultExp(lhs: seq<Scalar>, rhs: seq<Scalar>) returns (accum: Scalar)
    ensures accum == Red(Dot(lhs, rhs))
  {
    var terms := if |lhs| < |rhs| then |lhs| else |rhs|;
    accum := 0;
    for i := 0 to terms
      invariant accum == Red(DotTo(lhs, rhs, i))
    {
      hide DotTo, Add, Mul;
      AccumulateStep(lhs, rhs, i, accum);
      accum := Add(accum, Mul(lhs[i], rhs[i]));
    }
    DotShort(lhs, rhs, terms, |lhs|);
  }

  /** `scalar_usize_mult_exp`: the same against machine integers. */
  method ScalarUsizeMultExp(lhs: seq<Scalar>, rhs: seq<nat>) returns (accum: Scalar)
    ensures accum == Red(Dot(lhs, rhs))
  {
    var terms := if |lhs| < |rhs| then |lhs| else |rhs|;
    accum := 0;
    for i := 0 to terms
      invariant accum == Red(DotTo(lhs, rhs, i))
    {
      hide DotTo, Add, Mul;
      AccumulateStep(lhs, rhs, i, accum);
      accum := Add(accum, Mul(lhs[i], Red(rhs[i])));
    }
    DotShort(lhs, rhs, terms, |lhs|);
  }

  /** `batch_mul`. */
  function BatchMul(g: G1, exps: seq<Scalar>): (r: seq<G1>)
    ensures |r| == |exps| && forall i :: 0 <= i < |r| ==> r[i] == Times(g, exps[i])
  {
    seq(|exps|, i requires 0 <= i < |exps| => Times(g, exps[i]))
  }

  // ---- multiples of the generator ----

  lemma TimesGenerator(x: Scalar)
    ensures Times(G1_GENERATOR, x) == x
  {
    var k: int := x;
    CongMul(Red(1), 1, k, k);
  }

  lemma GeneratorMultiples(exps: seq<Scalar>)
    ensures BatchMul(G1_GENERATOR, exps) == exps
  {
    hide Times;
    forall i | 0 <= i < |exps| ensures BatchMul(G1_GENERATOR, exps)[i] == exps[i] { TimesGenerator(exps[i]); }
  }

  /** The multi-exponentiation of two points. */
  lemma PairValue(p: G1, q: G1, x: Scalar, y: Scalar)
    ensures Cong(MultiExp([p, q], [x, y]), p * x + q * y)
  {
    var a: seq<int>, b: seq<int> := [p, q], [x, y];
    assert DotTo(a, b, 2) == DotTo(a, b, 1) + a[1] * b[1];
    assert DotTo(a, b, 1) == DotTo(a, b, 0) + a[0] * b[0];
  }

  lemma TripleValue(p: G1, q: G1, r: G1, x: Scalar, y: Scalar, z: Scalar)
    ensures Cong(MultiExp([p, q, r], [x, y, z]), p * x + q * y + r * z)
  {
    var a: seq<int>, b: seq<int> := [p, q, r], [x, y, z];
    assert DotTo(a, b, 3) == DotTo(a, b, 2) + a[2] * b[2];
    assert DotTo(a, b, 2) == DotTo(a, b, 1) + a[1] * b[1];
    assert DotTo(a, b, 1) == DotTo(a, b, 0) + a[0] * b[0];
  }

  // ---- powers of a challenge ----

  /** A vector against the powers of x is a polynomial without constant term. */
  lemma {:induction false} XPowersEval(x: Scalar, c: seq<int>, n: nat)
    requires |c| <= n
    ensures Cong(DotTo(XPowers(x, n), c, |c|), Eval([0] + c, x))
  {
    hide Eval, Pow, DotTo, XPowers;
    if |c| > 0 {
      var k := |c| - 1;
      var low := c[..k];
      assert c == low + [c[k]];
      XPowersEval(x, low, n);
      XPowersNext(x, low, c[k], n);
    } else {
      assert [0] + c == [0];
      ZeroPolynomial(x);
      DotNone(XPowers(x, n), c);
    }
  }

  lemma XPowersNext(x: Scalar, low: seq<int>, last: int, n: nat)
    requires |low| < n && Cong(DotTo(XPowers(x, n), low, |low|), Eval([0] + low, x))
    ensures Cong(DotTo(XPowers(x, n), low + [last], |low| + 1), Eval([0] + (low + [last]), x))
  {
    hide Eval, Pow, DotTo;
    var ps, c, k := XPowers(x, n), low + [last], |low|;
    assert c[..k] == low && [0] + c == ([0] + low) + [last];
    DotOfPrefix(ps, c, k);
    AppendCoefficient([0] + low, last, x);
    DotCommutes(ps, c, k);
    DotCommutes(ps, c, k + 1);
    DotStep(c, ps, k + 1);
    NextTerm(DotTo(c, ps, k), Eval([0] + low, x), last, ps[k], Pow(x, k + 1));
  }

  lemma ZeroPolynomial(x: int)
    ensures Eval([0], x) == 0
  {
    EvalSingle([0], x);
  }

  lemma {:induction false} DotOfPrefix(a: seq<int>, c: seq<int>, n: nat)
    requires n <= |c|
    ensures DotTo(a, c, n) == DotTo(a, c[..n], n)
  {
    DotCommutes(a, c, n);
    DotCommutes(a, c[..n], n);
    DotPrefix(c, a, n);
  }

  /** A combination of powers that vanishes for more challenges than it has terms is
      zero. */
  lemma AllVanish(constant: int, c: seq<int>, xs: seq<Scalar>)
    requires |c| < |xs| && Distinct(xs)
    requires forall a :: 0 <= a < |xs| ==> Cong(constant + Dot(XPowers(xs[a], |c|), c), 0)
    ensures forall k :: 0 <= k < |c| ==> Cong(c[k], 0)
  {
    var f := [constant] + c;
    forall a | 0 <= a < |xs| ensures Cong(Eval(f, xs[a]), 0) {
      XPowersEval(xs[a], c, |c|);
      ConstantTerm(constant, c, xs[a]);
      CongAdd(constant, constant, Dot(XPowers(xs[a], |c|), c), Eval([0] + c, xs[a]));
    }
    hide Eval, DotTo;
    TooManyRoots(f, xs);
    forall k | 0 <= k < |c| ensures Cong(c[k], 0) {
      assert f[k + 1] == c[k];
    }
  }

  lemma ConstantTerm(constant: int, c: seq<int>, x: int)
    ensures Eval([constant] + c, x) == constant + Eval([0] + c, x)
  {
    assert ([constant] + c)[1..] == c == ([0] + c)[1..];
  }

  /** At zero all powers vanish. */
  lemma {:induction false} ZeroPowers(c: seq<int>, n: nat, k: nat)
    requires k <= n
    ensures DotTo(XPowers(0, n), c, k) == 0
  {
    if k > 0 {
      ZeroPowers(c, n, k - 1);
      assert Pow(0, k) == 0;
    }
  }

  // ---- vectors of linear relations ----

  ghost predicate Balanced(a: int, b: int, c: int, k: int, d: int) {
    Cong(a + b, c + k * d)
  }

  function Excess(a: int, b: int, c: int, k: int, d: int): int {
    a + b - c - k * d
  }

  lemma NoExcess(a: int, b: int, c: int, k: int, d: int)
    ensures Balanced(a, b, c, k, d) <==> Cong(Excess(a, b, c, k, d), 0)
  {
    var r := c + k * d;
    if Cong(a + b, r) {
      CongSub(a + b, r, r, r);
    } else if Cong(Excess(a, b, c, k, d), 0) {
      CongAdd(Excess(a, b, c, k, d), 0, r, r);
    }
  }

  function Excesses(a: seq<int>, b: seq<int>, c: seq<int>, k: int, d: seq<int>, n: nat): (f: seq<int>)
    requires |a| == |b| == |c| == |d| == n
    ensures |f| == n && forall i :: 0 <= i < n ==> f[i] == Excess(a[i], b[i], c[i], k, d[i])
  {
    seq(n, i requires 0 <= i < n => Excess(a[i], b[i], c[i], k, d[i]))
  }

  lemma ExcessDot(a: seq<int>, b: seq<int>, c: seq<int>, k: int, d: seq<int>, n: nat, w: seq<int>)
    requires |a| == |b| == |c| == |d| == |w| == n
    ensures Dot(w, Excesses(a, b, c, k, d, n)) == Excess(Dot(w, a), Dot(w, b), Dot(w, c), k, Dot(w, d))
  {
    hide DotTo;
    var s: seq<int> := seq(n, i requires 0 <= i < n => a[i] + b[i]);
    var t: seq<int> := seq(n, i requires 0 <= i < n => s[i] - c[i]);
    DotLinear(w, a, b, s, 1, n);
    DotLinear(w, s, c, t, -1, n);
    var f := Excesses(a, b, c, k, d, n);
    forall i | 0 <= i < n ensures At(f, i) == At(t, i) + (-k) * At(d, i) { NegProduct(k, d[i]); }
    DotLinear(w, t, d, f, -k, n);
    NegProduct(k, Dot(w, d));
  }

  lemma NegProduct(k: int, x: int)
    ensures (-k) * x == -(k * x)
  {}

  /** Relations that hold together against the powers of more challenges than there are
      relations, hold one by one. */
  lemma EachBalanced(constant: int, a: seq<int>, b: seq<int>, c: seq<int>, k: int, d: seq<int>, n: nat, xs: seq<Scalar>)
    requires |a| == |b| == |c| == |d| == n < |xs| && Distinct(xs)
    requires forall l :: 0 <= l < |xs| ==> Cong(constant + Dot(XPowers(xs[l], n), Excesses(a, b, c, k, d, n)), 0)
    ensures forall i :: 0 <= i < n ==> Balanced(a[i], b[i], c[i], k, d[i])
  {
    hide XPowers, DotTo, Distinct, Balanced, Excess;
    AllVanish(constant, Excesses(a, b, c, k, d, n), xs);
    forall i | 0 <= i < n ensures Balanced(a[i], b[i], c[i], k, d[i]) {
      NoExcess(a[i], b[i], c[i], k, d[i]);
    }
  }
}
