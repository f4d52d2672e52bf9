/** The low-degree test on commitments by a word of the dual code
    (vss/common.rs). */
module DualCode {
  import opened ScalarField
  import opened PolynomialAlgebra
  import opened Interpolation
  import opened EvaluationDomain
  import opened Fft
  import opened Lagrange
  import opened Group
  import opened Scheme

  /** The code word of the polynomial f: its values times the weights. */
  function DualWord(xs: seq<Scalar>, f: seq<Scalar>): (r: seq<Scalar>)
    ensures |r| == |xs|
    ensures forall i :: 0 <= i < |xs| ==> r[i] == Mul(Red(Eval(f, xs[i])), Weight(xs, i))
  {
    seq(|xs|, i requires 0 <= i < |xs| => Mul(Red(Eval(f, xs[i])), Weight(xs, i)))
  }

  /** `get_dual_code_word`, with the random polynomial f of n - deg - 2 coefficients
      it draws as a parameter. */
  method GetDualCodeWord(deg: nat, batch: BatchDomain, n: nat, f: seq<Scalar>) returns (vf: seq<Scalar>)
    requires ValidBatch(batch) && batch.N() > 1 && n <= batch.N() && IsLogCeil(n, batch.logN)
    requires deg + 2 <= n && |f| == n - deg - 2
    ensures vf == DualWord(batch.omegas[..n], f)
  {
    hide Eval, Pow, Weight, Mul;
    ghost var xs := batch.omegas[..n];
    var dom := GetSubdomain(batch, n);
    LogCeilUnique(n, dom.logN, batch.logN);
    var evals := FftAssign(f, dom);
    evals := evals[..n];
    var v := AllLagrangeDenominators(batch, n);
    forall i | 0 <= i < n ensures evals[i] == Red(Eval(f, xs[i])) {
      WordEntry(f, Pow(dom.omega, i), xs[i]);
    }
    vf := seq(n, i requires 0 <= i < n => Mul(evals[i], v[i]));
  }

  lemma WordEntry(f: seq<int>, p: int, x: Scalar)
    requires x == Red(p)
    ensures Red(Eval(f, p)) == Red(Eval(f, x))
  {
    EvalCong(f, f, p, x);
  }

  /** `low_deg_test`: trivially true at full threshold, and otherwise every
      commitment vector must be orthogonal to the code word. */
  method LowDegTest(comms: seq<seq<G1>>, threshold: nat, n: nat, batch: BatchDomain, f: seq<Scalar>) returns (ok: bool)
    requires ValidBatch(batch) && batch.N() > 1 && n <= batch.N() && IsLogCeil(n, batch.logN)
    requires 1 <= threshold <= n && (threshold < n ==> |f| == n - threshold - 1)
    ensures threshold == n ==> ok
    ensures threshold < n ==>
      (ok <==> forall b :: 0 <= b < |comms| ==> MultiExp(comms[b], DualWord(batch.omegas[..n], f)) == 0)
  {
    hide MultiExp, DualWord, ValidBatch;
    if threshold == n {
      return true;
    }
    var vf := GetDualCodeWord(threshold - 1, batch, n, f);
    for b := 0 to |comms|
      invariant forall d :: 0 <= d < b ==> MultiExp(comms[d], vf) == 0
    {
      var ip := MultiExp(comms[b], vf);
      if ip != 0 {
        return false;
      }
    }
    ok := true;
  }

  /** The commitment exponents are the values of p at the points. */
  ghost predicate CommitsTo(comm: seq<G1>, p: seq<int>, xs: seq<Scalar>) {
    |comm| == |xs| && forall i :: 0 <= i < |xs| ==> comm[i] == Red(Eval(p, xs[i]))
  }

  ghost predicate ProductAt(p: seq<int>, f: seq<int>, q: seq<int>, x: int) {
    Cong(Eval(q, x), Eval(p, x) * Eval(f, x))
  }

  /** q takes the values of the product of p and f at the points. */
  ghost predicate ProductOn(p: seq<int>, f: seq<int>, q: seq<int>, xs: seq<int>) {
    forall i :: 0 <= i < |xs| ==> ProductAt(p, f, q, xs[i])
  }

  /** The test on values of p with f is the dual-code identity of the product. */
  lemma TestIsTopCoefficient(comm: seq<G1>, p: seq<int>, f: seq<Scalar>, q: seq<int>, xs: seq<Scalar>)
    requires CommitsTo(comm, p, xs) && Distinct(xs) && 0 < |xs| && |q| <= |xs|
    requires ProductOn(p, f, q, xs)
    ensures MultiExp(comm, DualWord(xs, f)) == Red(At(q, |xs| - 1))
  {
    hide Eval, Weight, ProductAt;
    forall i | 0 <= i < |xs| ensures SameTerm(comm, DualWord(xs, f), EvalAll(q, xs), Weights(xs), i) {
      assert ProductAt(p, f, q, xs[i]);
      TestTerm(comm, p, f, q, xs, i);
    }
    DotSameTerms(comm, DualWord(xs, f), EvalAll(q, xs), Weights(xs), |xs|);
    DualCodeIdentity(q, xs);
  }

  lemma TestTerm(comm: seq<G1>, p: seq<int>, f: seq<Scalar>, q: seq<int>, xs: seq<Scalar>, i: nat)
    requires CommitsTo(comm, p, xs) && i < |xs| && ProductAt(p, f, q, xs[i])
    ensures SameTerm(comm, DualWord(xs, f), EvalAll(q, xs), Weights(xs), i)
  {
    hide Eval, Weight;
    TermAlgebra(comm[i], Eval(p, xs[i]), Eval(f, xs[i]), Weight(xs, i), Eval(q, xs[i]));
  }

  lemma TermAlgebra(c: int, p: int, f: int, w: int, q: int)
    requires Cong(c, p) && Cong(q, p * f)
    ensures Cong(c * Mul(Red(f), w), q * w)
  {
    CongMul(Red(f), f, w, w);
    CongMul(c, p, Mul(Red(f), w), f * w);
    MulAssoc(p, f, w);
    CongMul(q, p * f, w, w);
  }

  /** The part of p below degree d, when the rest vanishes. */
  lemma {:induction false} EvalLowPart(p: seq<int>, d: nat, x: int)
    requires d <= |p| && forall j :: d <= j < |p| ==> Cong(p[j], 0)
    ensures Cong(Eval(p[..d], x), Eval(p, x))
    decreases |p| - d
  {
    if d < |p| {
      hide Eval, Pow;
      EvalLowPart(p, d + 1, x);
      AppendCoefficient(p[..d], p[d], x);
      assert p[..d] + [p[d]] == p[..d + 1];
      CongMul(p[d], 0, Pow(x, d), Pow(x, d));
      CongAdd(Eval(p[..d], x), Eval(p[..d], x), p[d] * Pow(x, d), 0);
    } else {
      assert p[..d] == p;
    }
  }

  lemma LowDegreePasses(comm: seq<G1>, p: seq<int>, f: seq<Scalar>, xs: seq<Scalar>, d: nat)
    requires CommitsTo(comm, p, xs) && Distinct(xs) && 0 < |xs| && d + |f| <= |xs|
    requires forall j :: d <= j < |p| ==> Cong(p[j], 0)
    ensures MultiExp(comm, DualWord(xs, f)) == 0
  {
    hide Eval;
    var low := p[..if d < |p| then d else |p|];
    var q := if |low| == 0 || |f| == 0 then [] else Product(low, f);
    forall i | 0 <= i < |xs| ensures ProductAt(p, f, q, xs[i]) {
      var x := xs[i];
      EvalLowPart(p, |low|, x);
      CongMul(Eval(low, x), Eval(p, x), Eval(f, x), Eval(f, x));
      EvalZero([], x);
      if |low| != 0 && |f| != 0 { EvalProduct(low, f, x); }
    }
    TestIsTopCoefficient(comm, p, f, q, xs);
  }

  /** X^e with m coefficients. */
  function Monomial(e: nat, m: nat): (r: seq<Scalar>)
    requires e < m
    ensures |r| == m
  {
    Zeros(e) + [Red(1)] + Zeros(m - e - 1)
  }

  lemma EvalMonomial(e: nat, m: nat, x: int)
    requires e < m
    ensures Eval(Monomial(e, m), x) == Pow(x, e)
  {
    EvalPad(Zeros(e) + [Red(1)], m - e - 1, x);
    AppendCoefficient(Zeros(e), 1, x);
    EvalZero(Zeros(e), x);
  }

  lemma ShiftedProduct(p: seq<int>, j: nat, m: nat, e: nat, x: int)
    requires j < |p| && e < m && forall k :: j < k < |p| ==> Cong(p[k], 0)
    ensures ProductAt(p, Monomial(e, m), Zeros(e) + p[..j + 1], x)
  {
    hide Eval, Pow;
    var low := p[..j + 1];
    EvalLowPart(p, j + 1, x);
    EvalMonomial(e, m, x);
    EvalAppend(Zeros(e), low, x);
    EvalZero(Zeros(e), x);
    CongMul(Pow(x, e), Pow(x, e), Eval(low, x), Eval(p, x));
    MulCommutes(Pow(x, e), Eval(p, x));
  }

  /** If the test passes with X^(n-1-j), and all coefficients above j vanish, so
      does coefficient j. */
  lemma PassingClearsCoefficient(comm: seq<G1>, p: seq<int>, xs: seq<Scalar>, j: nat, m: nat)
    requires CommitsTo(comm, p, xs) && Distinct(xs) && |p| <= |xs| && j < |p| && |xs| - j <= m
    requires forall k :: j < k < |p| ==> Cong(p[k], 0)
    requires MultiExp(comm, DualWord(xs, Monomial(|xs| - 1 - j, m))) == 0
    ensures Cong(p[j], 0)
  {
    hide Eval, Pow, CommitsTo, Distinct, MultiExp, DualWord, Monomial, ProductOn;
    var e := |xs| - 1 - j;
    var q := Zeros(e) + p[..j + 1];
    ShiftedProductOn(p, j, m, e, xs);
    TestIsTopCoefficient(comm, p, Monomial(e, m), q, xs);
    assert At(q, |xs| - 1) == p[j];
  }

  lemma ShiftedProductOn(p: seq<int>, j: nat, m: nat, e: nat, xs: seq<Scalar>)
    requires j < |p| && e < m && forall k :: j < k < |p| ==> Cong(p[k], 0)
    ensures ProductOn(p, Monomial(e, m), Zeros(e) + p[..j + 1], xs)
  {
    hide ProductAt, Monomial;
    forall i | 0 <= i < |xs| ensures ProductAt(p, Monomial(e, m), Zeros(e) + p[..j + 1], xs[i]) {
      ShiftedProduct(p, j, m, e, xs[i]);
    }
  }

  ghost predicate AlwaysPasses(comm: seq<G1>, xs: seq<Scalar>, m: nat) {
    forall f: seq<Scalar> :: |f| == m ==> MultiExp(comm, DualWord(xs, f)) == 0
  }

  lemma {:induction false} AlwaysPassingIsLowDegree(comm: seq<G1>, p: seq<int>, xs: seq<Scalar>, m: nat, j: nat)
    requires CommitsTo(comm, p, xs) && Distinct(xs) && |p| <= |xs| && AlwaysPasses(comm, xs, m)
    requires |xs| - m <= j <= |p|
    ensures forall k :: j <= k < |p| ==> Cong(p[k], 0)
    decreases |p| - j
  {
    hide Eval, DualWord, Monomial;
    if j < |p| {
      AlwaysPassingIsLowDegree(comm, p, xs, m, j + 1);
      PassingClearsCoefficient(comm, p, xs, j, m);
    }
  }

  /** What the test decides.  With the n - threshold - 1 coefficients that
      `get_dual_code_word` draws for f, a commitment vector passes for every f exactly when the
      committed polynomial has no coefficient above index `threshold`. */
  lemma LowDegTestDecides(comm: seq<G1>, p: seq<int>, xs: seq<Scalar>, threshold: nat)
    requires CommitsTo(comm, p, xs) && Distinct(xs) && |p| <= |xs| && threshold < |xs|
    ensures AlwaysPasses(comm, xs, |xs| - threshold - 1) <==> forall k :: threshold < k < |p| ==> Cong(p[k], 0)
  {
    hide Eval, DualWord;
    var m := |xs| - threshold - 1;
    if AlwaysPasses(comm, xs, m) && threshold + 1 <= |p| {
      AlwaysPassingIsLowDegree(comm, p, xs, m, threshold + 1);
    }
    if forall k :: threshold < k < |p| ==> Cong(p[k], 0) {
      forall f: seq<Scalar> | |f| == m ensures MultiExp(comm, DualWord(xs, f)) == 0 {
        LowDegreePasses(comm, p, f, xs, threshold + 1);
      }
    }
  }

  /** A polynomial with one coefficient more than `get_threshold()` slips through:
      X^threshold passes for every f that can be drawn. */
  lemma BeyondThresholdPasses(xs: seq<Scalar>, threshold: nat, f: seq<Scalar>)
    requires Distinct(xs) && threshold < |xs| && |f| == |xs| - threshold - 1
    ensures MultiExp(RedSeq(EvalAll(Monomial(threshold, threshold + 1), xs)), DualWord(xs, f)) == 0
  {
    hide Eval, DualWord, Monomial, MultiExp;
    var p := Monomial(threshold, threshold + 1);
    var comm := RedSeq(EvalAll(p, xs));
    LowDegTestDecides(comm, p, xs, threshold);
  }

  /** Completeness: a Pedersen line of polynomials with at most `threshold`
      coefficients passes with every f. */
  lemma HonestCommitmentPasses(comm: seq<G1>, s: seq<int>, r: seq<int>, base: (G1, G1), xs: seq<Scalar>, f: seq<Scalar>,
                               threshold: nat)
    requires Distinct(xs) && |comm| == |xs| && |s| == |r| == threshold < |xs| && |f| == |xs| - threshold - 1
    requires forall i :: 0 <= i < |xs| ==>
      comm[i] == PedersenCommit(base, Red(Eval(s, xs[i])), Red(Eval(r, xs[i])))
    ensures MultiExp(comm, DualWord(xs, f)) == 0
  {
    hide Eval, DualWord, PedersenCommit, MultiExp, Scale;
    var p := AddSeq(Scale(base.0, s), Scale(base.1, r));
    forall i | 0 <= i < |xs| ensures comm[i] == Red(Eval(p, xs[i])) {
      PedersenIsEvaluation(base, s, r, xs[i]);
    }
    LowDegreePasses(comm, p, f, xs, threshold);
  }

  lemma PedersenIsEvaluation(base: (G1, G1), s: seq<int>, r: seq<int>, x: int)
    ensures PedersenCommit(base, Red(Eval(s, x)), Red(Eval(r, x)))
         == Red(Eval(AddSeq(Scale(base.0, s), Scale(base.1, r)), x))
  {
    hide Eval, PedersenCommit;
    EvalAdd(Scale(base.0, s), Scale(base.1, r), x);
    EvalScale(base.0, s, x);
    EvalScale(base.1, r, x);
    PedersenValue(base, Red(Eval(s, x)), Red(Eval(r, x)));
    PedersenCong(base.0, Eval(s, x), base.1, Eval(r, x));
  }

  lemma PedersenCong(g: int, s: int, h: int, r: int)
    ensures Red(Mul(g, Red(s)) + Mul(h, Red(r))) == Red(g * s + h * r)
  {
    CongMul(g, g, Red(s), s);
    CongMul(h, h, Red(r), r);
    CongAdd(Mul(g, Red(s)), g * s, Mul(h, Red(r)), h * r);
  }

  lemma DealtLineEntry(c: Configuration, s: InputSecret, i: nat)
    requires i < c.n <= |c.batch.omegas|
    ensures ComputeLine(c.base, PlayerValues(c, s.f), PlayerValues(c, s.r))[i] ==
      PedersenCommit(c.base, Red(Eval(s.f, c.batch.omegas[i])), Red(Eval(s.r, c.batch.omegas[i])))
  {
    hide Eval, PedersenCommit;
  }

  lemma PlayerPointsDistinct(c: Configuration)
    requires ValidConfiguration(c) && c.n <= |c.batch.omegas|
    ensures Distinct(c.batch.omegas[..c.n])
  {
    hide Pow;
    NthRootPrimitive(c.batch.logN);
    PowersDistinct(NthRoot(c.batch.logN), c.batch.logN, |c.batch.omegas|);
  }

  lemma DealtLinePasses(c: Configuration, s: InputSecret, line: seq<G1>, f: seq<Scalar>)
    requires ValidConfiguration(c) && |s.f| == |s.r| == c.threshold < c.n <= |c.batch.omegas|
    requires |f| == c.n - c.threshold - 1
    requires line == ComputeLine(c.base, PlayerValues(c, s.f), PlayerValues(c, s.r))
    ensures MultiExp(line, DualWord(c.batch.omegas[..c.n], f)) == 0
  {
    var xs := c.batch.omegas[..c.n];
    PlayerPointsDistinct(c);
    hide Eval, PedersenCommit, ValidConfiguration, DualWord, MultiExp, ComputeLine, PlayerValues, Distinct;
    forall i | 0 <= i < |xs|
      ensures line[i] == PedersenCommit(c.base, Red(Eval(s.f, xs[i])), Red(Eval(s.r, xs[i])))
    {
      DealtLineEntry(c, s, i);
    }
    HonestCommitmentPasses(line, s.f, s.r, c.base, xs, f, c.threshold);
  }

  /** `low_deg_test` accepts what `compute_comm_and_shares` committed to, for every
      polynomial it may draw. */
  method TestDealtCommitment(c: Configuration, ghost secrets: seq<InputSecret>, comm: seq<seq<G1>>, f: seq<Scalar>)
    returns (ok: bool)
    requires ValidConfiguration(c) && IsLogCeil(c.n, c.batch.logN) && c.n <= |c.batch.omegas|
    requires forall b :: 0 <= b < |secrets| ==> |secrets[b].f| == |secrets[b].r| == c.threshold
    requires DealtCommitment(c, secrets, comm) && (c.threshold < c.n ==> |f| == c.n - c.threshold - 1)
    ensures ok
  {
    ok := LowDegTest(comm, c.threshold, c.n, c.batch, f);
    hide ValidConfiguration, DualWord, MultiExp, ComputeLine, PlayerValues;
    if c.threshold < c.n {
      forall b | 0 <= b < |comm| ensures MultiExp(comm[b], DualWord(c.batch.omegas[..c.n], f)) == 0 {
        DealtLinePasses(c, secrets[b], comm[b], f);
      }
    }
  }
}
