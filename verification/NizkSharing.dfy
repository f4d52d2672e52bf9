/** The proof of correct sharing (vss/ni_vss/nizk_sharing.rs). */
module NizkSharing {
  import opened ScalarField
  import opened PolynomialAlgebra
  import opened Interpolation
  import opened EvaluationDomain
  import opened Group
  import opened NivssUtils
  import opened Chunking
  import opened Encryption
  import opened ChunkingCompleteness

  datatype SharingWitness = SharingWitness(encS: Scalar, encR: Scalar, shares: seq<Scalar>, randomness: seq<Scalar>)

  datatype ProofSharing = ProofSharing(ff: G1, aa: G1, yy: G1, zs: Scalar, zr: Scalar, zab: Scalar)

  /** What the transcript of `ShareOracle` absorbs. */
  datatype Statement = Statement(commits: seq<G1>, pks: seq<G1>, rAA: G1, encSS: seq<G1>, rBB: G1, encRR: seq<G1>)

  datatype SharingOracles = SharingOracles(share: Statement -> Scalar, first: (Scalar, G1, G1, G1) -> Scalar)

  /** `prove_sharing`, with its three random scalars as parameters. */
  function ProveSharing(o: SharingOracles, h: G1, st: Statement, w: SharingWitness, alpha: Scalar, beta: Scalar, rho: Scalar)
    : ProofSharing
  {
    var x := o.share(st);
    var xpowers := XPowers(x, |st.pks|);
    var s, r := Red(Dot(w.shares, xpowers)), Red(Dot(w.randomness, xpowers));
    var pkMulXi := MultiExp(st.pks, xpowers);
    var ff := Times(G1_GENERATOR, rho);
    var aa := MultiExp([G1_GENERATOR, h], [alpha, beta]);
    var yy := Add(Times(pkMulXi, rho), aa);
    var chal := o.first(x, ff, aa, yy);
    ProofSharing(ff, aa, yy, Add(Mul(s, chal), alpha), Add(Mul(r, chal), beta), Add(Mul(Add(w.encS, w.encR), chal), rho))
  }

  /** The chunk ciphertexts of a receiver recombined with the powers of 2^16. */
  function Recombine(cc: seq<seq<G1>>): (r: seq<G1>)
    ensures |r| == |cc| && forall i :: 0 <= i < |r| ==> r[i] == MultiExp(cc[i], ChunkWeights())
  {
    seq(|cc|, i requires 0 <= i < |cc| => MultiExp(cc[i], ChunkWeights()))
  }

  /** The statement the verifier rebuilds from the chunk ciphertexts. */
  function Rebuilt(commits: seq<G1>, ct: CiphertextChunks, pks: seq<G1>, rBB: G1, encRR: seq<G1>): Statement {
    Statement(commits, pks, MultiExp(ct.rr, ChunkWeights()), Recombine(ct.cc), rBB, encRR)
  }

  /** The three equations; `verify_sharing` panics when one of them fails. */
  predicate KeyEquation(st: Statement, p: ProofSharing, chal: Scalar) {
    Add(Times(Add(st.rAA, st.rBB), chal), p.ff) == Times(G1_GENERATOR, p.zab)
  }

  predicate CommitmentEquation(h: G1, st: Statement, p: ProofSharing, xpowers: seq<Scalar>, chal: Scalar) {
    Add(Times(MultiExp(st.commits, xpowers), chal), p.aa) == MultiExp([G1_GENERATOR, h], [p.zs, p.zr])
  }

  predicate CiphertextEquation(h: G1, st: Statement, p: ProofSharing, xpowers: seq<Scalar>, chal: Scalar) {
    Add(Times(Add(MultiExp(st.encSS, xpowers), MultiExp(st.encRR, xpowers)), chal), p.yy) ==
      MultiExp([MultiExp(st.pks, xpowers), G1_GENERATOR, h], [p.zab, p.zs, p.zr])
  }

  /** The checks on a statement. */
  predicate CheckSharing(o: SharingOracles, h: G1, st: Statement, p: ProofSharing) {
    var x := o.share(st);
    var xpowers := XPowers(x, |st.commits|);
    var chal := o.first(x, p.ff, p.aa, p.yy);
    && KeyEquation(st, p, chal)
    && CommitmentEquation(h, st, p, xpowers, chal)
    && CiphertextEquation(h, st, p, xpowers, chal)
  }

  /** `verify_sharing` returns true. */
  predicate VerifySharing(o: SharingOracles, h: G1, commits: seq<G1>, ct: CiphertextChunks, pks: seq<G1>, rBB: G1,
                          encRR: seq<G1>, p: ProofSharing) {
    CheckSharing(o, h, Rebuilt(commits, ct, pks, rBB, encRR), p)
  }

  // ---- completeness ----

  /** a_i + k * b_i, entry by entry, up to congruence. */
  ghost predicate Combination(t: seq<Scalar>, a: seq<Scalar>, ka: int, b: seq<Scalar>, kb: int) {
    |t| == |a| == |b| && forall i :: 0 <= i < |t| ==> CombinationAt(t[i], a[i], ka, b[i], kb)
  }

  function Blend(ka: int, a: int, kb: int, b: int): int { ka * a + kb * b }

  function Line(s: int, x: int, a: int): int { s * x + a }

  ghost predicate CombinationAt(t: int, a: int, ka: int, b: int, kb: int) {
    Cong(t, Blend(ka, a, kb, b))
  }

  lemma {:induction false} CombinationDot(t: seq<Scalar>, a: seq<Scalar>, ka: int, b: seq<Scalar>, kb: int, w: seq<Scalar>, n: nat)
    requires Combination(t, a, ka, b, kb) && n <= |t|
    ensures Cong(DotTo(t, w, n), Blend(ka, DotTo(a, w, n), kb, DotTo(b, w, n)))
  {
    hide CombinationAt;
    if n > 0 {
      CombinationDot(t, a, ka, b, kb, w, n - 1);
      assert CombinationAt(t[n - 1], a[n - 1], ka, b[n - 1], kb);
      CombinationTerm(t[n - 1], a[n - 1], ka, b[n - 1], kb, At(w, n - 1), DotTo(t, w, n - 1), DotTo(a, w, n - 1),
                      DotTo(b, w, n - 1));
    }
  }

  lemma CombinationTerm(t: int, a: int, ka: int, b: int, kb: int, w: int, dt: int, da: int, db: int)
    requires CombinationAt(t, a, ka, b, kb) && Cong(dt, Blend(ka, da, kb, db))
    ensures Cong(dt + t * w, Blend(ka, da + a * w, kb, db + b * w))
  {
    CongMul(t, ka * a + kb * b, w, w);
    CongAdd(dt, ka * da + kb * db, t * w, (ka * a + kb * b) * w);
    CombinationShape(a, ka, b, kb, w, da, db);
  }

  lemma CombinationShape(a: int, ka: int, b: int, kb: int, w: int, da: int, db: int)
    ensures ka * da + kb * db + (ka * a + kb * b) * w == ka * (da + a * w) + kb * (db + b * w)
  {}

  /** The exponents of an honest statement: commitments to the shares, and two
      ElGamal ciphertexts under every key. */
  ghost predicate Consistent(h: G1, st: Statement, w: SharingWitness) {
    && |w.shares| == |w.randomness| == |st.pks|
    && Combination(st.commits, w.shares, 1, w.randomness, h)
    && Combination(st.encSS, w.shares, 1, st.pks, w.encS)
    && Combination(st.encRR, w.randomness, h, st.pks, w.encR)
    && st.rAA == w.encS && st.rBB == w.encR
  }

  lemma SigmaResponse(s: int, d: int, x: int, a: int, z: int)
    requires Cong(s, d) && z == Add(Mul(s, x), a)
    ensures Cong(z, Line(d, x, a))
  {
    CongMul(s, d, x, x);
    CongAdd(Mul(s, x), d * x, a, a);
  }

  /** z = s * x + alpha and z' = r * x + beta open x * C + A. */
  lemma OpensSum(c: int, s: int, h: int, r: int, x: int, alpha: int, beta: int, zs: int, zr: int)
    requires Cong(c, Blend(1, s, h, r)) && Cong(zs, Line(s, x, alpha)) && Cong(zr, Line(r, x, beta))
    ensures Cong(c * x + (alpha + h * beta), zs + h * zr)
  {
    CongMul(c, s + h * r, x, x);
    CongAdd(c * x, (s + h * r) * x, alpha + h * beta, alpha + h * beta);
    CongMul(h, h, zr, r * x + beta);
    CongAdd(zs, s * x + alpha, h * zr, h * (r * x + beta));
    OpensShape(s, h, r, x, alpha, beta);
  }

  lemma OpensShape(s: int, h: int, r: int, x: int, alpha: int, beta: int)
    ensures (s + h * r) * x + (alpha + h * beta) == (s * x + alpha) + h * (r * x + beta)
  {}

  function MaskedLeft(c1: int, c2: int, h: int, pk: int, x: int, alpha: int, beta: int, rho: int): int {
    (c1 + c2) * x + (pk * rho + (alpha + h * beta))
  }

  function MaskedRight(h: int, pk: int, zs: int, zr: int, zab: int): int {
    pk * zab + (zs + h * zr)
  }

  /** The masked sum: C * x + Y against pk * zab + z + h * z'. */
  lemma OpensMasked(c1: int, c2: int, s: int, h: int, r: int, pk: int, a: int, b: int, x: int, alpha: int, beta: int,
                    rho: int, zs: int, zr: int, zab: int)
    requires Cong(c1, Blend(1, s, a, pk)) && Cong(c2, Blend(h, r, b, pk))
    requires Cong(zs, Line(s, x, alpha)) && Cong(zr, Line(r, x, beta)) && Cong(zab, Line(a + b, x, rho))
    ensures Cong(MaskedLeft(c1, c2, h, pk, x, alpha, beta, rho), MaskedRight(h, pk, zs, zr, zab))
  {
    hide MaskedLeft, MaskedRight, Blend, Line;
    LeftCong(c1, Blend(1, s, a, pk), c2, Blend(h, r, b, pk), h, pk, x, alpha, beta, rho);
    RightCong(h, pk, zs, Line(s, x, alpha), zr, Line(r, x, beta), zab, Line(a + b, x, rho));
    MaskedShape(s, h, r, pk, a, b, x, alpha, beta, rho);
  }

  lemma LeftCong(c1: int, c1': int, c2: int, c2': int, h: int, pk: int, x: int, alpha: int, beta: int, rho: int)
    requires Cong(c1, c1') && Cong(c2, c2')
    ensures Cong(MaskedLeft(c1, c2, h, pk, x, alpha, beta, rho), MaskedLeft(c1', c2', h, pk, x, alpha, beta, rho))
  {
    CongAdd(c1, c1', c2, c2');
    CongMul(c1 + c2, c1' + c2', x, x);
    var t := pk * rho + (alpha + h * beta);
    CongAdd((c1 + c2) * x, (c1' + c2') * x, t, t);
  }

  lemma RightCong(h: int, pk: int, zs: int, zs': int, zr: int, zr': int, zab: int, zab': int)
    requires Cong(zs, zs') && Cong(zr, zr') && Cong(zab, zab')
    ensures Cong(MaskedRight(h, pk, zs, zr, zab), MaskedRight(h, pk, zs', zr', zab'))
  {
    CongMul(h, h, zr, zr');
    CongAdd(zs, zs', h * zr, h * zr');
    CongMul(pk, pk, zab, zab');
    CongAdd(pk * zab, pk * zab', zs + h * zr, zs' + h * zr');
  }

  lemma MaskedShape(s: int, h: int, r: int, pk: int, a: int, b: int, x: int, alpha: int, beta: int, rho: int)
    ensures MaskedLeft(Blend(1, s, a, pk), Blend(h, r, b, pk), h, pk, x, alpha, beta, rho) ==
      MaskedRight(h, pk, Line(s, x, alpha), Line(r, x, beta), Line(a + b, x, rho))
  {}

  lemma KeyEquationHolds(st: Statement, p: ProofSharing, a: Scalar, b: Scalar, rho: Scalar, chal: Scalar)
    requires st.rAA == a && st.rBB == b && p.ff == Times(G1_GENERATOR, rho)
    requires p.zab == Add(Mul(Add(a, b), chal), rho)
    ensures KeyEquation(st, p, chal)
  {
    hide Add, Mul;
    TimesGenerator(rho);
    TimesGenerator(p.zab);
  }

  lemma OnePlus(c: int, x: int, y: int)
    requires Cong(c, Red(1) * x + y)
    ensures Cong(c, x + y)
  {
    CongMul(Red(1), 1, x, x);
    CongAdd(Red(1) * x, x, y, y);
  }

  lemma ScaledSum(c: int, x: int, a: int, y: int, z: int)
    requires Cong(a, z)
    ensures Cong(Add(Mul(c, x), a), c * x + z)
  {
    CongAdd(Mul(c, x), c * x, a, z);
  }

  lemma CommitmentEquationHolds(h: G1, st: Statement, p: ProofSharing, w: SharingWitness, xpowers: seq<Scalar>, chal: Scalar,
                                alpha: Scalar, beta: Scalar)
    requires Combination(st.commits, w.shares, 1, w.randomness, h)
    requires p.aa == MultiExp([G1_GENERATOR, h], [alpha, beta])
    requires p.zs == Add(Mul(Red(Dot(w.shares, xpowers)), chal), alpha)
    requires p.zr == Add(Mul(Red(Dot(w.randomness, xpowers)), chal), beta)
    ensures CommitmentEquation(h, st, p, xpowers, chal)
  {
    hide Add, Mul, DotTo, MultiExp, Combination;
    var c, s, r := MultiExp(st.commits, xpowers), Dot(w.shares, xpowers), Dot(w.randomness, xpowers);
    CommitmentDot(h, st, w, xpowers);
    BlindingPair(h, alpha, beta);
    BlindingPair(h, p.zs, p.zr);
    SigmaResponse(Red(s), s, chal, alpha, p.zs);
    SigmaResponse(Red(r), r, chal, beta, p.zr);
    OpensSum(c, s, h, r, chal, alpha, beta, p.zs, p.zr);
    ScaledSum(c, chal, p.aa, 0, alpha + h * beta);
  }

  lemma BlindingPair(h: G1, alpha: Scalar, beta: Scalar)
    ensures Cong(MultiExp([G1_GENERATOR, h], [alpha, beta]), alpha + h * beta)
  {
    hide MultiExp;
    PairValue(G1_GENERATOR, h, alpha, beta);
    OnePlus(MultiExp([G1_GENERATOR, h], [alpha, beta]), alpha, h * beta);
  }

  lemma CommitmentDot(h: G1, st: Statement, w: SharingWitness, xpowers: seq<Scalar>)
    requires Combination(st.commits, w.shares, 1, w.randomness, h)
    ensures Cong(MultiExp(st.commits, xpowers), Blend(1, Dot(w.shares, xpowers), h, Dot(w.randomness, xpowers)))
  {
    hide DotTo, CombinationAt;
    CombinationDot(st.commits, w.shares, 1, w.randomness, h, xpowers, |st.commits|);
  }

  /** An ElGamal column against the powers: its plaintext part, and its mask times
      the combined key. */
  lemma ColumnDot(t: seq<Scalar>, a: seq<Scalar>, ka: int, pks: seq<G1>, mask: int, xpowers: seq<Scalar>)
    requires Combination(t, a, ka, pks, mask)
    ensures Cong(MultiExp(t, xpowers), Blend(ka, Dot(a, xpowers), mask, MultiExp(pks, xpowers)))
  {
    hide DotTo, CombinationAt;
    CombinationDot(t, a, ka, pks, mask, xpowers, |t|);
    var pk := Dot(pks, xpowers);
    CongMul(mask, mask, pk, Red(pk));
    var plain := ka * Dot(a, xpowers);
    CongAdd(plain, plain, mask * pk, mask * Red(pk));
  }

  lemma CiphertextEquationHolds(h: G1, st: Statement, p: ProofSharing, w: SharingWitness, xpowers: seq<Scalar>,
                                chal: Scalar, alpha: Scalar, beta: Scalar, rho: Scalar)
    requires Consistent(h, st, w)
    requires p.yy == Add(Times(MultiExp(st.pks, xpowers), rho), MultiExp([G1_GENERATOR, h], [alpha, beta]))
    requires p.zs == Add(Mul(Red(Dot(w.shares, xpowers)), chal), alpha)
    requires p.zr == Add(Mul(Red(Dot(w.randomness, xpowers)), chal), beta)
    requires p.zab == Add(Mul(Add(w.encS, w.encR), chal), rho)
    ensures CiphertextEquation(h, st, p, xpowers, chal)
  {
    hide Add, Mul, Dot, MultiExp, Combination, MaskedLeft, MaskedRight, Blend, Line;
    var c1, c2, pk := MultiExp(st.encSS, xpowers), MultiExp(st.encRR, xpowers), MultiExp(st.pks, xpowers);
    CiphertextMiddle(h, st, p, w, xpowers, chal, alpha, beta, rho);
    CiphertextLeft(h, c1, c2, pk, chal, alpha, beta, rho, p.yy);
    CiphertextRight(h, pk, p.zab, p.zs, p.zr);
  }

  lemma CiphertextMiddle(h: G1, st: Statement, p: ProofSharing, w: SharingWitness, xpowers: seq<Scalar>,
                         chal: Scalar, alpha: Scalar, beta: Scalar, rho: Scalar)
    requires Consistent(h, st, w)
    requires p.zs == Add(Mul(Red(Dot(w.shares, xpowers)), chal), alpha)
    requires p.zr == Add(Mul(Red(Dot(w.randomness, xpowers)), chal), beta)
    requires p.zab == Add(Mul(Add(w.encS, w.encR), chal), rho)
    ensures Cong(MaskedLeft(MultiExp(st.encSS, xpowers), MultiExp(st.encRR, xpowers), h, MultiExp(st.pks, xpowers),
                            chal, alpha, beta, rho),
                 MaskedRight(h, MultiExp(st.pks, xpowers), p.zs, p.zr, p.zab))
  {
    hide Add, Mul, Dot, MultiExp, Combination, MaskedLeft, MaskedRight, Blend, Line;
    var c1, c2, pk := MultiExp(st.encSS, xpowers), MultiExp(st.encRR, xpowers), MultiExp(st.pks, xpowers);
    var s, r := Dot(w.shares, xpowers), Dot(w.randomness, xpowers);
    ColumnDot(st.encSS, w.shares, 1, st.pks, w.encS, xpowers);
    ColumnDot(st.encRR, w.randomness, h, st.pks, w.encR, xpowers);
    SigmaResponse(Red(s), s, chal, alpha, p.zs);
    SigmaResponse(Red(r), r, chal, beta, p.zr);
    KeyResponse(w.encS, w.encR, chal, rho, p.zab);
    OpensMasked(c1, c2, s, h, r, pk, w.encS, w.encR, chal, alpha, beta, rho, p.zs, p.zr, p.zab);
  }

  lemma CiphertextLeft(h: G1, c1: G1, c2: G1, pk: G1, chal: Scalar, alpha: Scalar, beta: Scalar, rho: Scalar, yy: G1)
    requires yy == Add(Times(pk, rho), MultiExp([G1_GENERATOR, h], [alpha, beta]))
    ensures Cong(Add(Times(Add(c1, c2), chal), yy), MaskedLeft(c1, c2, h, pk, chal, alpha, beta, rho))
  {
    hide Add, Mul, MultiExp;
    var aa, hb: int, a: int := MultiExp([G1_GENERATOR, h], [alpha, beta]), (h as int) * beta, alpha;
    BlindingPair(h, alpha, beta);
    ScaledSum(pk, rho, aa, 0, a + hb);
    SumTimes(c1, c2, chal);
    ScaledCong(Add(c1, c2), c1 as int + c2, chal, yy, (pk as int) * rho + (a + hb));
  }

  lemma CiphertextRight(h: G1, pk: G1, zab: Scalar, zs: Scalar, zr: Scalar)
    ensures Cong(MultiExp([pk, G1_GENERATOR, h], [zab, zs, zr]), MaskedRight(h, pk, zs, zr, zab))
  {
    hide MultiExp;
    TripleValue(pk, G1_GENERATOR, h, zab, zs, zr);
    LastTerms(MultiExp([pk, G1_GENERATOR, h], [zab, zs, zr]), (pk as int) * zab, zs, (h as int) * zr);
  }

  lemma KeyResponse(a: Scalar, b: Scalar, chal: Scalar, rho: Scalar, zab: Scalar)
    requires zab == Add(Mul(Add(a, b), chal), rho)
    ensures Cong(zab, Line(a + b, chal, rho))
  {
    SigmaResponse(Add(a, b), a + b, chal, rho, zab);
  }

  lemma SumTimes(c1: int, c2: int, x: int)
    ensures Cong(Add(c1, c2), c1 + c2)
  {}

  lemma ScaledCong(c: int, c': int, x: int, y: int, y': int)
    requires Cong(c, c') && Cong(y, y')
    ensures Cong(Add(Mul(c, x), y), c' * x + y')
  {
    CongMul(c, c', x, x);
    CongAdd(Mul(c, x), c' * x, y, y');
  }

  lemma LastTerms(t: int, u: int, zs: int, v: int)
    requires Cong(t, u + Red(1) * zs + v)
    ensures Cong(t, u + (zs + v))
  {
    CongMul(Red(1), 1, zs, zs);
    CongAdd(u + v, u + v, Red(1) * zs, zs);
  }

  /** Completeness: on an honest statement the three checks hold for every answer of
      the oracles and every choice of the prover. */
  lemma SharingComplete(o: SharingOracles, h: G1, st: Statement, w: SharingWitness, alpha: Scalar, beta: Scalar, rho: Scalar)
    requires Consistent(h, st, w)
    ensures CheckSharing(o, h, st, ProveSharing(o, h, st, w, alpha, beta, rho))
  {
    hide Add, Mul, Dot, MultiExp, Times, Combination, KeyEquation, CommitmentEquation, CiphertextEquation;
    var p := ProveSharing(o, h, st, w, alpha, beta, rho);
    var x := o.share(st);
    SameLength(h, st, w);
    var xpowers := XPowers(x, |st.pks|);
    var chal := o.first(x, p.ff, p.aa, p.yy);
    KeyEquationHolds(st, p, w.encS, w.encR, rho, chal);
    CommitmentEquationHolds(h, st, p, w, xpowers, chal, alpha, beta);
    CiphertextEquationHolds(h, st, p, w, xpowers, chal, alpha, beta, rho);
  }

  lemma SameLength(h: G1, st: Statement, w: SharingWitness)
    requires Consistent(h, st, w)
    ensures |st.commits| == |st.pks|
  {}
}
