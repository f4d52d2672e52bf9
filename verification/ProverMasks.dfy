/** The random values of the NiVSS provers hide the witness: for given challenges every
    response comes from exactly one choice of them (vss/ni_vss/nizk_sharing.rs,
    nizk_chunking.rs). */
module ProverMasks {
  import opened ScalarField
  import opened PolynomialAlgebra
  import opened Interpolation
  import opened EvaluationDomain
  import opened Group
  import opened NivssUtils
  import opened Chunking
  import opened Encryption
  import opened NizkChunking
  import opened ChunkingProver
  import opened NizkSharing

  /** m is the one mask with k + m = z. */
  lemma OneMask(k: int, z: Scalar, m: Scalar)
    ensures Add(k, m) == z <==> m == Sub(z, k)
  {
    if Add(k, m) == z {
      CongSub(k + m, z, k, k);
    } else if m == Sub(z, k) {
      CongAdd(k, k, Sub(z, k), z - k);
    }
  }

  /** The responses of `prove_sharing`. */
  ghost predicate Responds(o: SharingOracles, h: G1, st: Statement, w: SharingWitness, alpha: Scalar, beta: Scalar,
                           rho: Scalar, zs: Scalar, zr: Scalar, zab: Scalar)
  {
    var p := ProveSharing(o, h, st, w, alpha, beta, rho);
    p.zs == zs && p.zr == zr && p.zab == zab
  }

  /** Whatever the witness, for a given challenge each triple of responses is given for
      exactly one triple of random scalars. */
  lemma SharingMasks(o: SharingOracles, h: G1, st: Statement, w: SharingWitness, c: Scalar, zs: Scalar, zr: Scalar, zab: Scalar)
    returns (alpha: Scalar, beta: Scalar, rho: Scalar)
    requires forall x, ff, aa, yy :: o.first(x, ff, aa, yy) == c
    ensures Responds(o, h, st, w, alpha, beta, rho, zs, zr, zab)
    ensures forall a, b, r :: Responds(o, h, st, w, a, b, r, zs, zr, zab) ==> a == alpha && b == beta && r == rho
  {
    hide Add, Sub, Mul, Times, MultiExp, Dot, XPowers;
    var xpowers := XPowers(o.share(st), |st.pks|);
    var ks, kr := Mul(Red(Dot(w.shares, xpowers)), c), Mul(Red(Dot(w.randomness, xpowers)), c);
    var kab := Mul(Add(w.encS, w.encR), c);
    alpha, beta, rho := Sub(zs, ks), Sub(zr, kr), Sub(zab, kab);
    OneMask(ks, zs, alpha);
    OneMask(kr, zr, beta);
    OneMask(kab, zab, rho);
    forall a, b, r | Responds(o, h, st, w, a, b, r, zs, zr, zab) ensures a == alpha && b == beta && r == rho {
      OneMask(ks, zs, a);
      OneMask(kr, zr, b);
      OneMask(kab, zab, r);
    }
  }

  /** The last responses of `prove_chunking`. */
  ghost predicate LastResponses(e: Challenge, r: seq<Scalar>, beta: seq<Scalar>, xpowers: seq<Scalar>, delta: seq<Scalar>,
                                zr: seq<Scalar>, zbeta: Scalar)
  {
    && |delta| == |e| + 1 && RowResponses(e, r, xpowers, delta) == zr
    && Add(Red(Dot(beta, xpowers)), delta[0]) == zbeta
  }

  /** For given challenges each vector of last responses is given for exactly one delta. */
  lemma DeltaMasks(e: Challenge, r: seq<Scalar>, beta: seq<Scalar>, xpowers: seq<Scalar>, zr: seq<Scalar>, zbeta: Scalar)
    returns (delta: seq<Scalar>)
    requires |zr| == |e|
    ensures LastResponses(e, r, beta, xpowers, delta, zr, zbeta)
    ensures forall d :: LastResponses(e, r, beta, xpowers, d, zr, zbeta) ==> d == delta
  {
    hide Add, Sub, Dot, Weighted;
    delta := [Sub(zbeta, Red(Dot(beta, xpowers)))] +
      seq(|e|, i requires 0 <= i < |e| => Sub(zr[i], Red(Dot(r, Weighted(xpowers, e[i])))));
    OneMask(Red(Dot(beta, xpowers)), zbeta, delta[0]);
    forall i | 0 <= i < |e| ensures RowResponses(e, r, xpowers, delta)[i] == zr[i] {
      OneMask(Red(Dot(r, Weighted(xpowers, e[i]))), zr[i], delta[i + 1]);
    }
    forall d | LastResponses(e, r, beta, xpowers, d, zr, zbeta) ensures d == delta {
      OneDelta(e, r, beta, xpowers, d, delta, zr, zbeta);
    }
  }

  lemma OneDelta(e: Challenge, r: seq<Scalar>, beta: seq<Scalar>, xpowers: seq<Scalar>, d: seq<Scalar>, delta: seq<Scalar>,
                 zr: seq<Scalar>, zbeta: Scalar)
    requires LastResponses(e, r, beta, xpowers, d, zr, zbeta) && LastResponses(e, r, beta, xpowers, delta, zr, zbeta)
    ensures d == delta
  {
    hide Add, Sub, Dot, Weighted;
    forall i | 0 <= i < |d| ensures d[i] == delta[i] {
      if i == 0 {
        OneMask(Red(Dot(beta, xpowers)), zbeta, d[0]);
        OneMask(Red(Dot(beta, xpowers)), zbeta, delta[0]);
      } else {
        var k := Red(Dot(r, Weighted(xpowers, e[i - 1])));
        assert RowResponses(e, r, xpowers, d)[i - 1] == zr[i - 1] == RowResponses(e, r, xpowers, delta)[i - 1];
        OneMask(k, zr[i - 1], d[i]);
        OneMask(k, zr[i - 1], delta[i]);
      }
    }
  }

  /** The commitments of the first move hide the draw: with y0 not the neutral element
      they come from exactly one beta, whatever sigma is. */
  lemma BetaMasks(y0: G1, sigma: seq<Scalar>, cc: seq<G1>) returns (beta: seq<Scalar>)
    requires y0 != 0 && |cc| == |sigma|
    ensures |beta| == |sigma| && Commitments(y0, beta, sigma) == cc
    ensures forall b :: |b| == |sigma| && Commitments(y0, b, sigma) == cc ==> b == beta
  {
    hide MultiExp;
    beta := seq(|cc|, k requires 0 <= k < |cc| => Mul(Sub(cc[k], sigma[k]), Inv(y0)));
    forall k | 0 <= k < |cc| ensures Commitments(y0, beta, sigma)[k] == cc[k] { OneOpening(y0, beta[k], sigma[k], cc[k]); }
    forall b | |b| == |sigma| && Commitments(y0, b, sigma) == cc ensures b == beta {
      forall k | 0 <= k < |b| ensures b[k] == beta[k] { OneOpening(y0, b[k], sigma[k], cc[k]); }
    }
  }

  lemma OneOpening(y0: G1, b: Scalar, s: Scalar, c: G1)
    requires y0 != 0
    ensures MultiExp([y0, G1_GENERATOR], [b, s]) == c <==> b == Mul(Sub(c, s), Inv(y0))
  {
    hide MultiExp;
    PairValue(y0, G1_GENERATOR, b, s);
    CongMul(Red(1), 1, s, s);
    var m: int, y: int, i: int, d := y0 * b, y0, Inv(y0), Sub(c, s);
    CongAdd(m, m, Red(1) * s, s);
    if Cong(m + s, c) {
      CongSub(m + s, c, s, s);
      InvSolves(y, b, d);
    } else if b == Mul(d, i) {
      OpeningBack(y, i, d, b, s, c);
    }
  }

  lemma OpeningBack(y: int, i: int, d: int, b: int, s: int, c: int)
    requires Cong(y * i, 1) && Cong(b, d * i) && Cong(d, c - s)
    ensures Cong(y * b + s, c)
  {
    CongMul(y, y, b, d * i);
    MulAssoc(y, d, i);
    MulSwap(y, d, i);
    CongMul(y * i, 1, d, d);
    CongAdd(y * b, d, s, s);
    CongAdd(d, c - s, s, s);
  }
}
