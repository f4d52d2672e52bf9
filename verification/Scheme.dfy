/** Dealing, reconstruction and completion of shares (scheme.rs, commitment.rs,
    vss/keys.rs). */
module Scheme {
  import opened Options
  import opened ScalarField
  import opened PolynomialAlgebra
  import opened Interpolation
  import opened EvaluationDomain
  import opened Fft
  import opened Lagrange
  import opened Group

  /** A batched share of the player `index`, with the blinding shares. */
  datatype Share = Share(index: nat, shares: seq<Scalar>, rands: seq<Scalar>)

  /** The polynomials of one batch slot: f carries the secret f[0], r blinds it. */
  datatype InputSecret = InputSecret(f: seq<Scalar>, r: seq<Scalar>)

  datatype Configuration = Configuration(n: nat, threshold: nat, dom: Domain, batch: BatchDomain, base: (G1, G1))

  /** The domain and its batch have the same size and hold n points. */
  ghost predicate ValidConfiguration(c: Configuration) {
    && ValidBatch(c.batch) && c.batch.N() > 1
    && ValidDomain(c.dom) && c.dom.logN == c.batch.logN && c.dom.omega == NthRoot(c.dom.logN)
    && 1 <= c.threshold <= c.n <= c.dom.N
  }

  // ---- dealing ----

  function PedersenCommit(base: (G1, G1), s: Scalar, r: Scalar): G1 {
    MultiExp([base.0, base.1], [s, r])
  }

  /** The share of player i: the values of all polynomials at w^i. */
  function DealtShare(c: Configuration, secrets: seq<InputSecret>, i: nat): Share
    requires i < |c.batch.omegas|
  {
    var x := c.batch.omegas[i];
    Share(i,
          seq(|secrets|, b requires 0 <= b < |secrets| => Red(Eval(secrets[b].f, x))),
          seq(|secrets|, b requires 0 <= b < |secrets| => Red(Eval(secrets[b].r, x))))
  }

  /** The input secret drawn with the random a, f and r: the first coefficient is
      replaced by the secret. */
  method NewInputSecret(threshold: nat, a: Scalar, f: seq<Scalar>, r: seq<Scalar>) returns (s: InputSecret)
    requires threshold >= 1 && |f| == |r| == threshold
    ensures |s.f| == |s.r| == threshold && s.r == r && s.f[1..] == f[1..]
    ensures Red(Eval(s.f, 0)) == a
  {
    s := InputSecret(f[0 := a], r);
    EvalAtZero(s.f);
  }

  /** The polynomial g carries the secret a and takes the values of f at the points. */
  ghost predicate Explains(g: seq<Scalar>, f: seq<Scalar>, a: Scalar, xs: seq<Scalar>) {
    |g| == |f| && Red(Eval(g, 0)) == a && forall k :: 0 <= k < |xs| ==> Cong(Eval(g, xs[k]), Eval(f, xs[k]))
  }

  /** Secrecy: one value less than there are coefficients says nothing about the secret;
      every secret is explained by exactly one polynomial. */
  lemma SharesHideSecret(f: seq<Scalar>, a: Scalar, xs: seq<Scalar>) returns (g: seq<Scalar>)
    requires |f| == |xs| + 1 && Distinct([0] + xs)
    ensures Explains(g, f, a, xs)
    ensures forall g' :: Explains(g', f, a, xs) ==> g' == g
  {
    hide Eval, Distinct;
    var points: seq<Scalar>, values: seq<int> := [0] + xs, [a] + EvalAll(f, xs);
    var p := PolynomialExists(points, values);
    g := RedSeq(p);
    forall k | 0 <= k < |points| ensures Cong(Eval(g, points[k]), values[k]) { EvalRed(p, points[k]); }
    assert points[0] == 0 && values[0] == a;
    forall k | 0 <= k < |xs| ensures Cong(Eval(g, xs[k]), Eval(f, xs[k])) {
      assert points[k + 1] == xs[k] && values[k + 1] == Eval(f, xs[k]);
    }
    forall g' | Explains(g', f, a, xs) ensures g' == g {
      OneExplanation(g, g', f, a, xs);
    }
  }

  lemma OneExplanation(g: seq<Scalar>, g': seq<Scalar>, f: seq<Scalar>, a: Scalar, xs: seq<Scalar>)
    requires |f| == |xs| + 1 && Distinct([0] + xs) && Explains(g, f, a, xs) && Explains(g', f, a, xs)
    ensures g' == g
  {
    hide Eval, Distinct;
    var points: seq<Scalar> := [0] + xs;
    forall k | 0 <= k < |points| ensures Cong(Eval(g', points[k]), Eval(g, points[k])) {
      if k > 0 { assert points[k] == xs[k - 1]; }
    }
    InterpolationUnique(g', g, points);
    assert RedSeq(g) == g && RedSeq(g') == g';
  }

  /** The commitment line of one batch slot: one Pedersen commitment a player. */
  function ComputeLine(base: (G1, G1), shares: seq<Scalar>, rands: seq<Scalar>): (r: seq<G1>)
    requires |shares| == |rands|
    ensures |r| == |shares|
    ensures forall i :: 0 <= i < |r| ==> r[i] == PedersenCommit(base, shares[i], rands[i])
  {
    seq(|shares|, i requires 0 <= i < |shares| => PedersenCommit(base, shares[i], rands[i]))
  }

  /** The values of f at the points of the n players. */
  function PlayerValues(c: Configuration, f: seq<Scalar>): (r: seq<Scalar>)
    requires c.n <= |c.batch.omegas|
    ensures |r| == c.n && forall i :: 0 <= i < c.n ==> r[i] == Red(Eval(f, c.batch.omegas[i]))
  {
    seq(c.n, i requires 0 <= i < c.n => Red(Eval(f, c.batch.omegas[i])))
  }

  /** The evaluation lines of all slots, with their commitments. */
  ghost predicate DealtLines(c: Configuration, secrets: seq<InputSecret>, fs: seq<seq<Scalar>>, rs: seq<seq<Scalar>>,
                             comm: seq<seq<G1>>, n: nat)
    requires c.n <= |c.batch.omegas| && n <= |secrets|
  {
    && |fs| == |rs| == |comm| == n
    && (forall b :: 0 <= b < n ==> fs[b] == PlayerValues(c, secrets[b].f) && rs[b] == PlayerValues(c, secrets[b].r))
    && forall b :: 0 <= b < n ==> comm[b] == ComputeLine(c.base, fs[b], rs[b])
  }

  lemma DealtLinesStep(c: Configuration, secrets: seq<InputSecret>, fs: seq<seq<Scalar>>, rs: seq<seq<Scalar>>,
                       comm: seq<seq<G1>>, b: nat)
    requires c.n <= |c.batch.omegas| && b < |secrets| && DealtLines(c, secrets, fs, rs, comm, b)
    ensures var f, r := PlayerValues(c, secrets[b].f), PlayerValues(c, secrets[b].r);
            DealtLines(c, secrets, fs + [f], rs + [r], comm + [ComputeLine(c.base, f, r)], b + 1)
  {
    hide Eval, ComputeLine, PlayerValues;
  }

  method DealLines(c: Configuration, secrets: seq<InputSecret>)
    returns (fs: seq<seq<Scalar>>, rs: seq<seq<Scalar>>, comm: seq<seq<G1>>)
    requires ValidConfiguration(c) && c.n <= |c.batch.omegas|
    requires forall b :: 0 <= b < |secrets| ==> |secrets[b].f| == |secrets[b].r| == c.threshold
    ensures DealtLines(c, secrets, fs, rs, comm, |secrets|)
  {
    assert c.threshold <= c.dom.N;
    assert DealtLines(c, secrets, [], [], [], 0);
    hide ValidConfiguration, Eval, ComputeLine, PlayerValues, DealtLines;
    fs, rs, comm := [], [], [];
    for b := 0 to |secrets|
      invariant DealtLines(c, secrets, fs, rs, comm, b)
    {
      var fEvals := EvaluateAtRoots(c, secrets[b].f);
      var rEvals := EvaluateAtRoots(c, secrets[b].r);
      DealtLinesStep(c, secrets, fs, rs, comm, b);
      comm := comm + [ComputeLine(c.base, fEvals, rEvals)];
      fs, rs := fs + [fEvals], rs + [rEvals];
    }
  }

  method ComputeCommAndShares(c: Configuration, secrets: seq<InputSecret>)
    returns (comm: seq<seq<G1>>, shares: seq<Share>)
    requires ValidConfiguration(c)
    requires forall b :: 0 <= b < |secrets| ==> |secrets[b].f| == |secrets[b].r| == c.threshold
    ensures |shares| == c.n && forall i :: 0 <= i < c.n ==> shares[i] == DealtShare(c, secrets, i)
    ensures DealtCommitment(c, secrets, comm)
  {
    assert c.n <= |c.batch.omegas|;
    hide ValidConfiguration, Eval, ComputeLine, PlayerValues, DealtShare, Transpose;
    var fs, rs;
    fs, rs, comm := DealLines(c, secrets);
    shares := Transpose(c.n, fs, rs);
    forall i: nat | i < c.n ensures shares[i] == DealtShare(c, secrets, i) {
      TransposedShare(c, secrets, i, shares[i]);
    }
  }

  /** Regrouping the evaluation lines by player. */
  function Transpose(n: nat, fs: seq<seq<Scalar>>, rs: seq<seq<Scalar>>): (shares: seq<Share>)
    requires |fs| == |rs| && forall b :: 0 <= b < |fs| ==> |fs[b]| == |rs[b]| == n
    ensures |shares| == n
    ensures forall i :: 0 <= i < n ==> shares[i].index == i && |shares[i].shares| == |shares[i].rands| == |fs|
    ensures forall i, b :: 0 <= i < n && 0 <= b < |fs| ==> shares[i].shares[b] == fs[b][i] && shares[i].rands[b] == rs[b][i]
  {
    seq(n, i requires 0 <= i < n =>
      Share(i,
            seq(|fs|, b requires 0 <= b < |fs| => fs[b][i]),
            seq(|rs|, b requires 0 <= b < |rs| => rs[b][i])))
  }

  lemma TransposedShare(c: Configuration, secrets: seq<InputSecret>, i: nat, share: Share)
    requires c.n <= |c.batch.omegas| && i < c.n
    requires share.index == i && |share.shares| == |share.rands| == |secrets|
    requires forall b :: 0 <= b < |secrets| ==> share.shares[b] == PlayerValues(c, secrets[b].f)[i]
    requires forall b :: 0 <= b < |secrets| ==> share.rands[b] == PlayerValues(c, secrets[b].r)[i]
    ensures share == DealtShare(c, secrets, i)
  {
    hide Eval;
    assert share.shares == DealtShare(c, secrets, i).shares;
    assert share.rands == DealtShare(c, secrets, i).rands;
  }

  /** One transform, truncated to the n players. */
  method EvaluateAtRoots(c: Configuration, f: seq<Scalar>) returns (evals: seq<Scalar>)
    requires ValidConfiguration(c) && |f| <= c.dom.N
    ensures evals == PlayerValues(c, f)
  {
    hide Eval, Pow;
    evals := FftAssign(f, c.dom);
    evals := evals[..c.n];
    forall i: nat | i < c.n ensures evals[i] == Red(Eval(f, c.batch.omegas[i])) {
      EvalAtResidue(f, Pow(c.dom.omega, i));
    }
  }

  lemma EvalAtResidue(f: seq<int>, x: int)
    ensures Red(Eval(f, x)) == Red(Eval(f, Red(x)))
  {
    EvalCong(f, f, x, Red(x));
  }

  // ---- verification of a share against the commitment ----

  /** `Commitment::verify`: every batch slot opens to the share. */
  predicate VerifyShare(base: (G1, G1), comm: seq<seq<G1>>, share: Share)
    requires |share.shares| == |share.rands| <= |comm|
    requires forall b :: 0 <= b < |comm| ==> share.index < |comm[b]|
  {
    forall b :: 0 <= b < |share.shares| ==>
      comm[b][share.index] == PedersenCommit(base, share.shares[b], share.rands[b])
  }

  /** What the dealer committed to. */
  ghost predicate DealtCommitment(c: Configuration, secrets: seq<InputSecret>, comm: seq<seq<G1>>)
    requires c.n <= |c.batch.omegas|
  {
    |comm| == |secrets| && forall b :: 0 <= b < |secrets| ==>
      comm[b] == ComputeLine(c.base, PlayerValues(c, secrets[b].f), PlayerValues(c, secrets[b].r))
  }

  /** Every dealt share verifies against the dealt commitment. */
  lemma DealtShareVerifies(c: Configuration, secrets: seq<InputSecret>, comm: seq<seq<G1>>, i: nat)
    requires ValidConfiguration(c) && i < c.n && DealtCommitment(c, secrets, comm)
    ensures forall b :: 0 <= b < |comm| ==> i < |comm[b]|
    ensures VerifyShare(c.base, comm, DealtShare(c, secrets, i))
  {
    hide Eval, PedersenCommit;
  }

  lemma PedersenValue(base: (G1, G1), s: Scalar, r: Scalar)
    ensures PedersenCommit(base, s, r) == Red(Mul(base.0, s) + Mul(base.1, r))
  {
    var p: seq<int>, k: seq<int> := [base.0, base.1], [s, r];
    assert DotTo(p, k, 2) == DotTo(p, k, 1) + p[1] * k[1];
    assert DotTo(p, k, 1) == DotTo(p, k, 0) + p[0] * k[0];
    CongAdd(Mul(base.0, s), p[0] * k[0], Mul(base.1, r), p[1] * k[1]);
  }

  /** With a proper first base no two values share a blinding and a commitment. */
  lemma OneValuePerBlinding(base: (G1, G1), v: Scalar, v': Scalar, r: Scalar)
    requires base.0 != 0 && PedersenCommit(base, v, r) == PedersenCommit(base, v', r)
    ensures v == v'
  {
    hide PedersenCommit;
    PedersenValue(base, v, r);
    PedersenValue(base, v', r);
    var a, b, k: int := Mul(base.0, v), Mul(base.0, v'), Mul(base.1, r);
    CongSub(a + k, b + k, k, k);
    CancelLeft(base.0, v, v');
  }

  /** Binding: a share that verifies stops verifying when the values of any slots change
      under the same blindings. */
  lemma ChangedShareFails(base: (G1, G1), comm: seq<seq<G1>>, share: Share, values: seq<Scalar>)
    requires base.0 != 0 && |values| == |share.shares| == |share.rands| <= |comm|
    requires forall b :: 0 <= b < |comm| ==> share.index < |comm[b]|
    requires VerifyShare(base, comm, share)
    ensures VerifyShare(base, comm, share.(shares := values)) <==> values == share.shares
  {
    hide PedersenCommit;
    if VerifyShare(base, comm, share.(shares := values)) {
      forall b | 0 <= b < |values| ensures values[b] == share.shares[b] {
        OneValuePerBlinding(base, values[b], share.shares[b], share.rands[b]);
      }
    }
  }

  // ---- reconstruction ----

  /** Batch slot b of the shares of the selected players. */
  function Column(shares: map<nat, Share>, selected: seq<nat>, b: nat): (r: seq<Scalar>)
    requires forall k :: 0 <= k < |selected| ==> selected[k] in shares && b < |shares[selected[k]].shares|
    ensures |r| == |selected| && forall k :: 0 <= k < |selected| ==> r[k] == shares[selected[k]].shares[b]
  {
    seq(|selected|, k requires 0 <= k < |selected| => shares[selected[k]].shares[b])
  }

  ghost predicate HasSlots(shares: map<nat, Share>, selected: seq<nat>, batchSize: nat) {
    forall k :: 0 <= k < |selected| ==> selected[k] in shares && batchSize <= |shares[selected[k]].shares|
  }

  /** The value the Lagrange combination at zero gives for batch slot b. */
  function Recovered(batch: BatchDomain, shares: map<nat, Share>, selected: seq<nat>, b: nat): Scalar
    requires HasSlots(shares, selected, b + 1)
    requires forall k :: 0 <= k < |selected| ==> selected[k] < |batch.omegas|
  {
    Red(Dot(Bases(Points(batch, selected), 0), Column(shares, selected, b)))
  }

  /** `interpolate`: recombine every slot and compare with the dealt secrets.  The
      order of `selected` is the iteration order of the share map. */
  method Interpolate(batch: BatchDomain, batchSize: nat, shares: map<nat, Share>, selected: seq<nat>,
                     secrets: Option<seq<Scalar>>) returns (ok: bool)
    requires Selection(batch, selected) && HasSlots(shares, selected, batchSize)
    requires secrets.Some? ==> |secrets.value| == batchSize
    ensures ok <==> (secrets.Some? ==>
      forall b :: 0 <= b < batchSize ==> secrets.value[b] == Recovered(batch, shares, selected, b))
  {
    hide DotTo;
    var lagr := LagrangeCoefficientsAtZero(batch, selected);
    for b := 0 to batchSize
      invariant secrets.Some? ==> forall d :: 0 <= d < b ==> secrets.value[d] == Recovered(batch, shares, selected, d)
    {
      var s := InnerProduct(lagr, Column(shares, selected, b));
      if secrets.Some? && secrets.value[b] != s {
        return false;
      }
    }
    ok := true;
  }

  /** The accumulation loop of `interpolate` and its variants. */
  method InnerProduct(a: seq<Scalar>, b: seq<Scalar>) returns (s: Scalar)
    requires |a| == |b|
    ensures s == Red(Dot(a, b))
  {
    s := 0;
    for i := 0 to |a|
      invariant s == Red(DotTo(a, b, i))
    {
      hide DotTo, Add, Mul;
      InnerStep(a, b, i, s);
      s := Add(s, Mul(a[i], b[i]));
    }
  }

  lemma InnerStep(a: seq<Scalar>, b: seq<Scalar>, i: nat, s: Scalar)
    requires i < |a| == |b| && s == Red(DotTo(a, b, i))
    ensures Add(s, Mul(a[i], b[i])) == Red(DotTo(a, b, i + 1))
  {
    var u: int, v: int := a[i], b[i];
    CongAdd(s, DotTo(a, b, i), Mul(u, v), u * v);
  }

  lemma ValuesAtPoints(f: seq<int>, xs: seq<int>, alpha: int, ys: seq<Scalar>)
    requires Distinct(xs) && |f| <= |xs| == |ys|
    requires forall k :: 0 <= k < |xs| ==> ys[k] == Red(Eval(f, xs[k]))
    ensures Red(Dot(Bases(xs, alpha), ys)) == Red(Eval(f, alpha))
  {
    hide Eval;
    Interpolates(f, xs, alpha);
    DotCong(Bases(xs, alpha), Bases(xs, alpha), ys, EvalAll(f, xs), |xs|);
  }

  /** Sharing then reconstruction: from any selection of at least `threshold`
      distinct players, in any order, every slot recovers its dealt secret, so
      `Interpolate` accepts the dealt secrets and no others. */
  lemma SharingThenReconstruction(c: Configuration, secrets: seq<InputSecret>, shares: map<nat, Share>,
                                  selected: seq<nat>, b: nat)
    requires ValidConfiguration(c) && b < |secrets|
    requires |secrets[b].f| == c.threshold <= |selected| && Selection(c.batch, selected)
    requires HasSlots(shares, selected, |secrets|)
    requires forall k :: 0 <= k < |selected| ==> shares[selected[k]] == DealtShare(c, secrets, selected[k])
    ensures Recovered(c.batch, shares, selected, b) == secrets[b].f[0]
  {
    hide Eval;
    var f := secrets[b].f;
    PointsDistinct(c.batch, selected);
    ValuesAtPoints(f, Points(c.batch, selected), 0, Column(shares, selected, b));
    EvalAtZero(f);
  }

  /** `interpolate` returns true on the dealt shares and the dealt secrets. */
  method ReconstructDealt(c: Configuration, secrets: seq<InputSecret>, shares: map<nat, Share>, selected: seq<nat>)
    returns (ok: bool)
    requires ValidConfiguration(c) && c.threshold <= |selected| && Selection(c.batch, selected)
    requires forall b :: 0 <= b < |secrets| ==> |secrets[b].f| == c.threshold
    requires HasSlots(shares, selected, |secrets|)
    requires forall k :: 0 <= k < |selected| ==> shares[selected[k]] == DealtShare(c, secrets, selected[k])
    ensures ok
  {
    assert c.threshold >= 1;
    hide ValidBatch, ValidConfiguration, DealtShare, Recovered;
    var dealt := seq(|secrets|, b requires 0 <= b < |secrets| => secrets[b].f[0]);
    forall b: nat | b < |secrets| ensures dealt[b] == Recovered(c.batch, shares, selected, b) {
      SharingThenReconstruction(c, secrets, shares, selected, b);
    }
    ok := Interpolate(c.batch, |secrets|, shares, selected, Some(dealt));
  }

  // ---- interpolation at other points ----

  /** `interpolate_on_single`: the combination of the values at each alpha. */
  method InterpolateOnSingle(evals: seq<Scalar>, selected: seq<nat>, alphas: seq<Scalar>, batch: BatchDomain)
    returns (r: seq<Scalar>)
    requires Selection(batch, selected) && |evals| == |selected|
    ensures |r| == |alphas|
    ensures forall a :: 0 <= a < |alphas| ==> r[a] == Red(Dot(CoefficientsAt(Points(batch, selected), alphas[a]), evals))
  {
    hide CoefficientsAt;
    var lagr := LagrangeCoefficients(batch, selected, alphas);
    r := [];
    for a := 0 to |alphas|
      invariant |r| == a
      invariant forall k :: 0 <= k < a ==> r[k] == Red(Dot(CoefficientsAt(Points(batch, selected), alphas[k]), evals))
    {
      var s := InnerProduct(lagr[a], evals);
      r := r + [s];
    }
  }

  /** `interpolate_on_single_with_proofs`: the same coefficients combine the proofs. */
  method InterpolateOnSingleWithProofs(evals: seq<Scalar>, selected: seq<nat>, alphas: seq<Scalar>, proofs: seq<G1>,
                                       batch: BatchDomain)
    returns (r: seq<(Scalar, G1)>)
    requires Selection(batch, selected) && |evals| == |proofs| == |selected|
    ensures |r| == |alphas|
    ensures forall a :: 0 <= a < |alphas| ==>
      var lagr := CoefficientsAt(Points(batch, selected), alphas[a]);
      r[a] == (Red(Dot(lagr, evals)), Red(Dot(lagr, proofs)))
  {
    hide CoefficientsAt, DotTo;
    var lagr := LagrangeCoefficients(batch, selected, alphas);
    r := [];
    for a := 0 to |alphas|
      invariant |r| == a
      invariant forall k :: 0 <= k < a ==> r[k] == (Red(Dot(lagr[k], evals)), Red(Dot(lagr[k], proofs)))
    {
      var s := InnerProduct(lagr[a], evals);
      var p := InnerProduct(lagr[a], proofs);
      r := r + [(s, p)];
    }
  }

  /** The indices below n that are not selected, in order. */
  function Missing(selected: seq<nat>, n: nat): (r: seq<nat>)
    ensures |r| <= n && forall k :: 0 <= k < |r| ==> r[k] < n && r[k] !in selected
  {
    if n == 0 then [] else Missing(selected, n - 1) + if n - 1 in selected then [] else [n - 1]
  }

  lemma {:induction false} MissingPrefix(selected: seq<nat>, i: nat, n: nat)
    requires i <= n
    ensures Missing(selected, i) <= Missing(selected, n)
    ensures i < n && i !in selected ==>
      |Missing(selected, i)| < |Missing(selected, n)| && Missing(selected, n)[|Missing(selected, i)|] == i
  {
    if i < n { MissingPrefix(selected, i, n - 1); }
  }

  ghost predicate Increasing(s: seq<nat>) {
    forall i, j :: 0 <= i < j < |s| ==> s[i] < s[j]
  }

  /** The state of the merge after index i and k known entries. */
  ghost predicate Merged<T>(selected: seq<nat>, known: seq<T>, filled: seq<T>, i: nat, k: nat, left: seq<T>, res: seq<T>) {
    var m := Missing(selected, i);
    && |res| == i && k <= |selected| == |known|
    && |m| <= |filled| && left == filled[|m|..]
    && (forall d :: 0 <= d < k ==> selected[d] < i && res[selected[d]] == known[d])
    && forall d :: 0 <= d < |m| ==> res[m[d]] == filled[d]
  }

  lemma MergeKnown<T>(selected: seq<nat>, known: seq<T>, filled: seq<T>, i: nat, k: nat, left: seq<T>, res: seq<T>)
    requires Merged(selected, known, filled, i, k, left, res) && k < |selected| && i == selected[k]
    ensures Merged(selected, known, filled, i + 1, k + 1, left, res + [known[k]])
  {
    assert Missing(selected, i + 1) == Missing(selected, i);
  }

  lemma MergeFilled<T>(n: nat, selected: seq<nat>, known: seq<T>, filled: seq<T>, i: nat, k: nat, left: seq<T>, res: seq<T>)
    requires Merged(selected, known, filled, i, k, left, res) && i < n && i !in selected
    requires |filled| == |Missing(selected, n)|
    ensures |left| > 0 && Merged(selected, known, filled, i + 1, k, left[1..], res + [left[0]])
  {
    MissingPrefix(selected, i, n);
    assert Missing(selected, i + 1) == Missing(selected, i) + [i];
  }

  /** The merge loop of `complete_evaluations`: known entries go to their own
      index, the interpolated ones fill the gaps in order. */
  method MergeMissing<T>(n: nat, selected: seq<nat>, known: seq<T>, filled: seq<T>) returns (res: seq<T>)
    requires |known| == |selected| && Increasing(selected)
    requires forall k :: 0 <= k < |selected| ==> selected[k] < n
    requires |filled| == |Missing(selected, n)|
    ensures |res| == n
    ensures forall k :: 0 <= k < |selected| ==> res[selected[k]] == known[k]
    ensures forall m :: 0 <= m < |filled| ==> res[Missing(selected, n)[m]] == filled[m]
  {
    hide Merged, Missing;
    var i, left := 0, filled;
    res := [];
    MergeStart(selected, known, filled);
    for k := 0 to |selected|
      invariant i == (if k == 0 then 0 else selected[k - 1] + 1) && i <= n
      invariant Merged(selected, known, filled, i, k, left, res)
    {
      i, left, res := FillGap(n, selected, known, i, selected[k], left, filled, res, k);
      MergeKnown(selected, known, filled, i, k, left, res);
      res := res + [known[k]];
      i := i + 1;
    }
    i, left, res := FillGap(n, selected, known, i, n, left, filled, res, |selected|);
    MergeEnd(n, selected, known, filled, left, res);
  }

  lemma MergeStart<T>(selected: seq<nat>, known: seq<T>, filled: seq<T>)
    requires |known| == |selected|
    ensures Merged(selected, known, filled, 0, 0, filled, [])
  {}

  lemma MergeEnd<T>(n: nat, selected: seq<nat>, known: seq<T>, filled: seq<T>, left: seq<T>, res: seq<T>)
    requires |filled| == |Missing(selected, n)| && Merged(selected, known, filled, n, |selected|, left, res)
    ensures |res| == n
    ensures forall k :: 0 <= k < |selected| ==> selected[k] < n && res[selected[k]] == known[k]
    ensures forall m :: 0 <= m < |filled| ==> res[Missing(selected, n)[m]] == filled[m]
  {}

  method FillGap<T>(n: nat, selected: seq<nat>, ghost known: seq<T>, i0: nat, end: nat, left0: seq<T>,
                    ghost filled: seq<T>, res0: seq<T>, ghost k: nat)
    returns (i: nat, left: seq<T>, res: seq<T>)
    requires i0 <= end <= n && |filled| == |Missing(selected, n)|
    requires forall d :: i0 <= d < end ==> d !in selected
    requires Merged(selected, known, filled, i0, k, left0, res0)
    ensures i == end && Merged(selected, known, filled, end, k, left, res)
  {
    hide Merged, Missing;
    i, left, res := i0, left0, res0;
    while end > i
      invariant i0 <= i <= end && Merged(selected, known, filled, i, k, left, res)
    {
      MergeFilled(n, selected, known, filled, i, k, left, res);
      res := res + [left[0]];
      left := left[1..];
      i := i + 1;
    }
  }

  // ---- completing a set of shares ----

  /** A share of one value with its opening proof, as Bingo exchanges them. */
  datatype KzgShare = KzgShare(index: nat, value: Scalar, proof: G1)

  /** One entry per element. */
  function Collect<S, T>(s: seq<S>, f: S -> T): (r: seq<T>)
    ensures |r| == |s| && forall k :: 0 <= k < |r| ==> r[k] == f(s[k])
  {
    seq(|s|, k requires 0 <= k < |s| => f(s[k]))
  }

  function Indices(shares: seq<KzgShare>): (r: seq<nat>)
    ensures |r| == |shares| && forall k :: 0 <= k < |r| ==> r[k] == shares[k].index
  {
    Collect(shares, (s: KzgShare) => s.index)
  }

  function Values(shares: seq<KzgShare>): (r: seq<Scalar>)
    ensures |r| == |shares| && forall k :: 0 <= k < |r| ==> r[k] == shares[k].value
  {
    seq(|shares|, k requires 0 <= k < |shares| => shares[k].value)
  }

  function Proofs(shares: seq<KzgShare>): (r: seq<G1>)
    ensures |r| == |shares| && forall k :: 0 <= k < |r| ==> r[k] == shares[k].proof
  {
    seq(|shares|, k requires 0 <= k < |shares| => shares[k].proof)
  }

  /** Shares sorted by distinct index, all below n. */
  ghost predicate SortedShares(batch: BatchDomain, n: nat, shares: seq<KzgShare>) {
    && Selection(batch, Indices(shares)) && n <= batch.N()
    && Increasing(Indices(shares))
    && forall k :: 0 <= k < |shares| ==> shares[k].index < n
  }

  /** The combination of one vector per share at the point of player i. */
  function Completed(batch: BatchDomain, shares: seq<KzgShare>, ys: seq<Scalar>, i: nat): Scalar
    requires i < |batch.omegas| && forall k :: 0 <= k < |shares| ==> shares[k].index < |batch.omegas|
  {
    Red(Dot(Bases(Points(batch, Indices(shares)), batch.omegas[i]), ys))
  }

  lemma MissingPoint(batch: BatchDomain, ids: seq<nat>, i: nat)
    requires Selection(batch, ids) && i < batch.N() && i !in ids
    ensures batch.omegas[i] !in Points(batch, ids)
  {
    if batch.omegas[i] in Points(batch, ids) {
      var k :| 0 <= k < |ids| && Points(batch, ids)[k] == batch.omegas[i];
      RootsDistinct(batch, i, ids[k]);
    }
  }

  lemma MissingCovers(selected: seq<nat>, i: nat, n: nat) returns (m: nat)
    requires i < n && i !in selected
    ensures m < |Missing(selected, n)| && Missing(selected, n)[m] == i
  {
    MissingPrefix(selected, i, n);
    m := |Missing(selected, i)|;
  }

  /** `complete_evaluations_with_proofs`: the known shares at their indices, and at
      every other index the combination of values and the combination of proofs. */
  method CompleteEvaluationsWithProofs(n: nat, shares: seq<KzgShare>, batch: BatchDomain)
    returns (res: seq<(Scalar, G1)>)
    requires SortedShares(batch, n, shares)
    ensures |res| == n
    ensures forall k :: 0 <= k < |shares| ==> res[shares[k].index] == (shares[k].value, shares[k].proof)
    ensures forall i :: 0 <= i < n && i !in Indices(shares) ==>
      res[i] == (Completed(batch, shares, Values(shares), i), Completed(batch, shares, Proofs(shares), i))
  {
    hide Basis, Bases, DotTo;
    var selected := Indices(shares);
    var missing := Missing(selected, n);
    var alphas := Points(batch, missing);
    forall m: nat | m < |missing| ensures alphas[m] !in Points(batch, selected) {
      MissingPoint(batch, selected, missing[m]);
    }
    var filled := InterpolateOnSingleWithProofs(Values(shares), selected, alphas, Proofs(shares), batch);
    var known := seq(|shares|, k requires 0 <= k < |shares| => (shares[k].value, shares[k].proof));
    res := MergeMissing(n, selected, known, filled);
    forall i: nat | i < n && i !in selected
      ensures res[i] == (Completed(batch, shares, Values(shares), i), Completed(batch, shares, Proofs(shares), i))
    {
      var m := MissingCovers(selected, i, n);
    }
  }

  /** `complete_evaluations`: the same without proofs. */
  method CompleteEvaluations(n: nat, shares: seq<KzgShare>, batch: BatchDomain) returns (res: seq<Scalar>)
    requires SortedShares(batch, n, shares)
    ensures |res| == n
    ensures forall k :: 0 <= k < |shares| ==> res[shares[k].index] == shares[k].value
    ensures forall i :: 0 <= i < n && i !in Indices(shares) ==> res[i] == Completed(batch, shares, Values(shares), i)
  {
    hide Basis, Bases, DotTo;
    var selected := Indices(shares);
    var missing := Missing(selected, n);
    var alphas := Points(batch, missing);
    forall m: nat | m < |missing| ensures alphas[m] !in Points(batch, selected) {
      MissingPoint(batch, selected, missing[m]);
    }
    var filled := InterpolateOnSingle(Values(shares), selected, alphas, batch);
    res := MergeMissing(n, selected, Values(shares), filled);
    forall i: nat | i < n && i !in selected ensures res[i] == Completed(batch, shares, Values(shares), i) {
      var m := MissingCovers(selected, i, n);
    }
  }

  /** Shares of a polynomial with at most as many coefficients as there are shares
      complete to its value in every slot. */
  lemma CompletionIsEvaluation(n: nat, shares: seq<KzgShare>, batch: BatchDomain, q: seq<int>, i: nat)
    requires SortedShares(batch, n, shares) && |q| <= |shares| && i < n
    requires forall k :: 0 <= k < |shares| ==> shares[k].value == Red(Eval(q, batch.omegas[shares[k].index]))
    ensures Completed(batch, shares, Values(shares), i) == Red(Eval(q, batch.omegas[i]))
  {
    hide Eval;
    PointsDistinct(batch, Indices(shares));
    ValuesAtPoints(q, Points(batch, Indices(shares)), batch.omegas[i], Values(shares));
  }

  function ShareIndices(shares: seq<Share>): seq<nat> {
    Collect(shares, (s: Share) => s.index)
  }

  /** Every share has the given number of slots and an index in the domain. */
  ghost predicate Rectangular(batch: BatchDomain, shares: seq<Share>, slots: nat) {
    forall k :: 0 <= k < |shares| ==>
      shares[k].index < |batch.omegas| && |shares[k].shares| == |shares[k].rands| == slots
  }

  /** Every share has at least the first `slots` slots. */
  ghost predicate Covers(batch: BatchDomain, shares: seq<Share>, slots: nat) {
    forall k :: 0 <= k < |shares| ==>
      shares[k].index < |batch.omegas| && slots <= |shares[k].shares| && slots <= |shares[k].rands|
  }

  function Slot(shares: seq<Share>, b: nat): (r: seq<Scalar>)
    requires forall k :: 0 <= k < |shares| ==> b < |shares[k].shares|
    ensures |r| == |shares| && forall k :: 0 <= k < |r| ==> r[k] == shares[k].shares[b]
  {
    seq(|shares|, k requires 0 <= k < |shares| => shares[k].shares[b])
  }

  function RandSlot(shares: seq<Share>, b: nat): (r: seq<Scalar>)
    requires forall k :: 0 <= k < |shares| ==> b < |shares[k].rands|
    ensures |r| == |shares| && forall k :: 0 <= k < |r| ==> r[k] == shares[k].rands[b]
  {
    seq(|shares|, k requires 0 <= k < |shares| => shares[k].rands[b])
  }

  /** Every slot of `share`, and of its blinding, is the combination of the given
      shares at the point of player i. */
  ghost predicate Interpolated(batch: BatchDomain, shares: seq<Share>, slots: nat, i: nat, share: Share)
    requires i < |batch.omegas| && Covers(batch, shares, slots)
  {
    var lagr := CoefficientsAt(Points(batch, ShareIndices(shares)), batch.omegas[i]);
    && share.index == i && |share.shares| == |share.rands| == slots
    && (forall b :: 0 <= b < slots ==> share.shares[b] == Red(Dot(lagr, Slot(shares, b))))
    && forall b :: 0 <= b < slots ==> share.rands[b] == Red(Dot(lagr, RandSlot(shares, b)))
  }

  /** `interpolate_specific_share`. */
  method InterpolateSpecificShare(batch: BatchDomain, shares: seq<Share>, i: nat) returns (share: Share)
    requires Selection(batch, ShareIndices(shares)) && i < batch.N()
    requires Rectangular(batch, shares, |shares[0].shares|)
    ensures Interpolated(batch, shares, |shares[0].shares|, i, share)
  {
    assert |ShareIndices(shares)| > 0;
    hide CoefficientsAt, Dot, Selection, Slot, RandSlot, Interpolated, Covers;
    NoneInterpolated(batch, shares, i);
    var s: seq<Scalar>, g: seq<Scalar> := [], [];
    for b := 0 to |shares[0].shares|
      invariant Covers(batch, shares, b) && Interpolated(batch, shares, b, i, Share(i, s, g))
    {
      RectangularCovers(batch, shares, |shares[0].shares|, b + 1);
      var si, gi := InterpolateOne(batch, shares, b, i);
      OneInterpolated(batch, shares, b, i, s, g, si, gi);
      s, g := s + [si], g + [gi];
    }
    share := Share(i, s, g);
  }

  lemma RectangularCovers(batch: BatchDomain, shares: seq<Share>, slots: nat, b: nat)
    requires Rectangular(batch, shares, slots) && b <= slots
    ensures Covers(batch, shares, b)
    ensures forall k :: 0 <= k < |shares| ==> b <= |shares[k].shares| && b <= |shares[k].rands|
  {}

  lemma NoneInterpolated(batch: BatchDomain, shares: seq<Share>, i: nat)
    requires i < |batch.omegas| && forall k :: 0 <= k < |shares| ==> shares[k].index < |batch.omegas|
    ensures Covers(batch, shares, 0) && Interpolated(batch, shares, 0, i, Share(i, [], []))
  {}

  lemma OneInterpolated(batch: BatchDomain, shares: seq<Share>, b: nat, i: nat, s: seq<Scalar>, g: seq<Scalar>,
                        si: Scalar, gi: Scalar)
    requires i < |batch.omegas| && Covers(batch, shares, b) && Covers(batch, shares, b + 1)
    requires Interpolated(batch, shares, b, i, Share(i, s, g))
    requires si == Red(Dot(CoefficientsAt(Points(batch, ShareIndices(shares)), batch.omegas[i]), Slot(shares, b)))
    requires gi == Red(Dot(CoefficientsAt(Points(batch, ShareIndices(shares)), batch.omegas[i]), RandSlot(shares, b)))
    ensures Interpolated(batch, shares, b + 1, i, Share(i, s + [si], g + [gi]))
  {
    hide CoefficientsAt, Dot, Slot, RandSlot;
  }

  /** `interpolate_one` on one batch slot: the same coefficients for value and blinding. */
  method InterpolateOne(batch: BatchDomain, shares: seq<Share>, b: nat, i: nat) returns (s: Scalar, g: Scalar)
    requires Selection(batch, ShareIndices(shares)) && i < batch.N()
    requires forall k :: 0 <= k < |shares| ==> b < |shares[k].shares| && b < |shares[k].rands|
    ensures s == Red(Dot(CoefficientsAt(Points(batch, ShareIndices(shares)), batch.omegas[i]), Slot(shares, b)))
    ensures g == Red(Dot(CoefficientsAt(Points(batch, ShareIndices(shares)), batch.omegas[i]), RandSlot(shares, b)))
  {
    hide CoefficientsAt, Dot;
    var lagr := LagrangeCoefficients(batch, ShareIndices(shares), [batch.omegas[i]]);
    s := InnerProduct(lagr[0], Slot(shares, b));
    g := InnerProduct(lagr[0], RandSlot(shares, b));
  }

  lemma RecoveredSlot(batch: BatchDomain, f: seq<int>, ids: seq<nat>, ys: seq<Scalar>, i: nat)
    requires Selection(batch, ids) && |f| <= |ids| == |ys| && i < batch.N() && i !in ids
    requires forall k :: 0 <= k < |ids| ==> ys[k] == Red(Eval(f, batch.omegas[ids[k]]))
    ensures Red(Dot(CoefficientsAt(Points(batch, ids), batch.omegas[i]), ys)) == Red(Eval(f, batch.omegas[i]))
  {
    hide Eval, DotTo;
    MissingPoint(batch, ids, i);
    PointsDistinct(batch, ids);
    ValuesAtPoints(f, Points(batch, ids), batch.omegas[i], ys);
  }

  /** Recovery of a missing share: from at least `threshold` dealt shares of other
      players the recovered share is the one dealt to player i, blinding included. */
  lemma RecoveredShareIsDealt(c: Configuration, secrets: seq<InputSecret>, shares: seq<Share>, i: nat, recovered: Share)
    requires ValidConfiguration(c) && i < c.n <= |c.batch.omegas|
    requires forall b :: 0 <= b < |secrets| ==> |secrets[b].f| == |secrets[b].r| == c.threshold
    requires Selection(c.batch, ShareIndices(shares)) && c.threshold <= |shares| && i !in ShareIndices(shares)
    requires Rectangular(c.batch, shares, |secrets|)
    requires forall k :: 0 <= k < |shares| ==> shares[k] == DealtShare(c, secrets, shares[k].index)
    requires Interpolated(c.batch, shares, |secrets|, i, recovered)
    ensures recovered == DealtShare(c, secrets, i)
  {
    hide Eval, DotTo, ValidConfiguration, Selection, CoefficientsAt;
    var d := DealtShare(c, secrets, i);
    forall b: nat | b < |secrets| ensures recovered.shares[b] == d.shares[b] && recovered.rands[b] == d.rands[b] {
      RecoveredSlot(c.batch, secrets[b].f, ShareIndices(shares), Slot(shares, b), i);
      RecoveredSlot(c.batch, secrets[b].r, ShareIndices(shares), RandSlot(shares, b), i);
    }
    assert recovered.shares == d.shares && recovered.rands == d.rands;
  }
}
