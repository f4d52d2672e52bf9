/** The dealing of NiVSS (vss/ni_vss/dealing.rs) and its completeness. */
module Dealing {
  import opened Options
  import opened ScalarField
  import opened PolynomialAlgebra
  import opened Interpolation
  import opened EvaluationDomain
  import opened PowerSums
  import opened Group
  import opened NivssUtils
  import opened Chunking
  import opened Encryption
  import opened NizkChunking
  import opened ChunkingProver
  import opened ChunkingCompleteness
  import opened NizkSharing
  import opened Scheme

  datatype Transcript = Transcript(ciphertext: CiphertextChunks, rBB: G1, encRR: seq<G1>, chunkPf: ProofChunking,
                                   sharePf: ProofSharing)

  /** All random values of a dealing. */
  datatype DealerCoins = DealerCoins(r: seq<Scalar>, prover: ProverCoins, rB: Scalar, alpha: Scalar, beta: Scalar, rho: Scalar)

  /** g*a_i + pk_i*mask for every receiver. */
  function MaskColumn(g: G1, a: seq<Scalar>, pks: seq<G1>, mask: Scalar): (r: seq<G1>)
    requires |a| == |pks|
    ensures |r| == |pks| && forall i :: 0 <= i < |r| ==> r[i] == Add(Times(g, a[i]), Times(pks[i], mask))
  {
    seq(|pks|, i requires 0 <= i < |pks| => Add(Times(g, a[i]), Times(pks[i], mask)))
  }

  function AllDigits(shares: seq<Scalar>): (r: seq<seq<nat>>)
    ensures |r| == |shares| && forall i :: 0 <= i < |r| ==> r[i] == Digits(shares[i], NUM_CHUNKS)
  {
    seq(|shares|, i requires 0 <= i < |shares| => Digits(shares[i], NUM_CHUNKS))
  }

  method ChunkAll(shares: seq<Scalar>) returns (chunks: seq<seq<nat>>)
    ensures chunks == AllDigits(shares)
  {
    hide Digits;
    chunks := [];
    for i := 0 to |shares|
      invariant |chunks| == i && forall k :: 0 <= k < i ==> chunks[k] == Digits(shares[k], NUM_CHUNKS)
    {
      var c := FromScalar(shares[i]);
      chunks := chunks + [c];
    }
  }

  /** The rejection loop turns down every draw. */
  ghost predicate AllRejected(o: Oracles, pks: seq<G1>, ct: CiphertextChunks, chunks: seq<seq<nat>>, c: ProverCoins)
    requires |chunks| == |pks| && CoinsFit(c, |pks|)
  {
    forall a :: 0 <= a < |c.draws| ==>
      !InRange(Attempt(o, pks, ct, ChunkScalars(chunks), c, c.draws[a]), |pks|, |ct.rr|)
  }

  /** `encrypt_and_prove`. */
  method EncryptAndProve(o: Oracles, pks: seq<G1>, shares: seq<Scalar>, c: DealerCoins)
    returns (ct: CiphertextChunks, proof: Option<ProofChunking>, r0: Scalar)
    requires |shares| == |pks| && |c.r| == NUM_CHUNKS && CoinsFit(c.prover, |pks|)
    ensures Encrypts(pks, AllDigits(shares), c.r, ct) && r0 == Red(Dot(c.r, ChunkWeights()))
    ensures proof.Some? ==> VerifyChunking(o, pks, ct, proof.value)
    ensures proof.None? <==> AllRejected(o, pks, ct, AllDigits(shares), c.prover)
  {
    hide Digits, DotTo, VerifyChunking, EncryptedRow, Attempt, Assembled, InRange;
    var plaintexts := ChunkAll(shares);
    ct, r0 := EncChunks(pks, plaintexts, c.r);
    ghost var a;
    proof, a := ProveChunking(o, pks, ct, c.r, ChunkScalars(plaintexts), c.prover);
    if proof.Some? {
      ChunkingComplete(o, pks, plaintexts, ct, c.r, c.prover, c.prover.draws[a]);
    }
  }

  // ---- the statement rebuilt from the chunks ----

  /** A share against the chunk weights. */
  lemma WeightedChunks(s: Scalar)
    requires ScalarsFit()
    ensures Cong(Dot(RedSeq(Digits(s, NUM_CHUNKS)), ChunkWeights()), s)
  {
    hide Eval, DotTo, Digits, ScalarsFit, Powers;
    var d := Digits(s, NUM_CHUNKS);
    ChunksValue(s);
    PowersDotEval(Red(CHUNK_SIZE), RedSeq(d), NUM_CHUNKS);
    EvalCong(RedSeq(d), d, Red(CHUNK_SIZE), CHUNK_SIZE);
  }

  /** The recombined chunk ciphertext is the ElGamal ciphertext of the share. */
  lemma RecombinedRow(pk: G1, r: seq<Scalar>, s: Scalar, mask: Scalar)
    requires ScalarsFit() && |r| == NUM_CHUNKS && mask == Red(Dot(r, ChunkWeights()))
    ensures MultiExp(EncryptedRow(pk, r, Digits(s, NUM_CHUNKS)), ChunkWeights()) ==
      Add(Times(G1_GENERATOR, s), Times(pk, mask))
  {
    hide Digits, DotTo, SplitRow, ScalarsFit, EncryptedRow, Times, ChunkWeights;
    var row, w := EncryptedRow(pk, r, Digits(s, NUM_CHUNKS)), ChunkWeights();
    var chunks := RedSeq(Digits(s, NUM_CHUNKS));
    EncryptedRowSplits(pk, r, Digits(s, NUM_CHUNKS));
    SplitDot(row, chunks, pk, r, w);
    WeightedChunks(s);
    TimesGenerator(s);
    TimesValue(pk, mask);
    MaskedShare(Dot(row, w), Dot(chunks, w), pk, Dot(r, w), s, mask, Times(pk, mask));
  }

  lemma MaskedShare(c: int, d: int, pk: int, rw: int, s: int, mask: int, t: int)
    requires Cong(c, d + pk * rw) && Cong(d, s) && Cong(mask, rw) && Cong(t, pk * mask)
    ensures Red(c) == Add(s, t)
  {
    CongMul(pk, pk, mask, rw);
    CongAdd(d, s, pk * rw, t);
  }

  /** The chunk ciphertexts recombined with the powers of 2^16 are the prover's
      enc_ss and r_aa, so prover and verifier hash the same statement. */
  lemma RebuiltStatement(commits: seq<G1>, ct: CiphertextChunks, pks: seq<G1>, rBB: G1, encRR: seq<G1>,
                         shares: seq<Scalar>, r: seq<Scalar>, mask: Scalar)
    requires ScalarsFit() && |shares| == |pks| && Encrypts(pks, AllDigits(shares), r, ct)
    requires mask == Red(Dot(r, ChunkWeights()))
    ensures Rebuilt(commits, ct, pks, rBB, encRR) ==
      Statement(commits, pks, Times(G1_GENERATOR, mask), MaskColumn(G1_GENERATOR, shares, pks, mask), rBB, encRR)
  {
    hide Digits, DotTo, ScalarsFit, EncryptedRow, Times, ChunkWeights, Add, BatchMul;
    GeneratorMultiples(r);
    TimesGenerator(mask);
    forall i | 0 <= i < |pks| ensures Recombine(ct.cc)[i] == MaskColumn(G1_GENERATOR, shares, pks, mask)[i] {
      RecombinedRow(pks[i], r, shares[i], mask);
    }
  }

  // ---- the statement is honest ----

  lemma MaskColumnBlends(g: G1, a: seq<Scalar>, pks: seq<G1>, mask: Scalar, k: int)
    requires |a| == |pks| && Cong(g, k)
    ensures Combination(MaskColumn(g, a, pks, mask), a, k, pks, mask)
  {
    hide Times;
    forall i | 0 <= i < |pks| ensures CombinationAt(MaskColumn(g, a, pks, mask)[i], a[i], k, pks[i], mask) {
      TimesValue(g, a[i]);
      TimesValue(pks[i], mask);
      MaskEntry(Times(g, a[i]), g, k, a[i], Times(pks[i], mask), pks[i], mask);
    }
  }

  lemma MaskEntry(t: int, g: int, k: int, a: int, u: int, pk: int, mask: int)
    requires Cong(t, g * a) && Cong(g, k) && Cong(u, pk * mask)
    ensures CombinationAt(Add(t, u), a, k, pk, mask)
  {
    CongMul(g, k, a, a);
    MulCommutes(pk, mask);
    CongAdd(t, k * a, u, mask * pk);
  }

  /** Commitments to the shares under their randomness, as a commitment line holds. */
  ghost predicate CommitsTo(h: G1, commits: seq<G1>, shares: seq<Scalar>, randomness: seq<Scalar>) {
    && |commits| == |shares| == |randomness|
    && forall i :: 0 <= i < |commits| ==> commits[i] == MultiExp([G1_GENERATOR, h], [shares[i], randomness[i]])
  }

  lemma CommitmentsBlend(h: G1, commits: seq<G1>, shares: seq<Scalar>, randomness: seq<Scalar>)
    requires CommitsTo(h, commits, shares, randomness)
    ensures Combination(commits, shares, 1, randomness, h)
  {
    hide MultiExp;
    forall i | 0 <= i < |commits| ensures CombinationAt(commits[i], shares[i], 1, randomness[i], h) {
      BlindingPair(h, shares[i], randomness[i]);
    }
  }

  lemma HonestStatement(h: G1, commits: seq<G1>, pks: seq<G1>, shares: seq<Scalar>, randomness: seq<Scalar>, mask: Scalar,
                        rB: Scalar)
    requires CommitsTo(h, commits, shares, randomness) && |pks| == |shares|
    ensures Consistent(h, Statement(commits, pks, Times(G1_GENERATOR, mask), MaskColumn(G1_GENERATOR, shares, pks, mask),
                                    Times(G1_GENERATOR, rB), MaskColumn(h, randomness, pks, rB)),
                       SharingWitness(mask, rB, shares, randomness))
  {
    hide Combination, Times, MaskColumn, CommitsTo;
    Lengths(h, commits, shares, randomness);
    CommitmentsBlend(h, commits, shares, randomness);
    MaskColumnBlends(G1_GENERATOR, shares, pks, mask, 1);
    MaskColumnBlends(h, randomness, pks, rB, h);
    TimesGenerator(mask);
    TimesGenerator(rB);
  }

  lemma Lengths(h: G1, commits: seq<G1>, shares: seq<Scalar>, randomness: seq<Scalar>)
    requires CommitsTo(h, commits, shares, randomness)
    ensures |commits| == |shares| == |randomness|
  {}

  // ---- dealing and verification ----

  /** `verify_dealing`. */
  ghost predicate VerifyDealing(o: Oracles, so: SharingOracles, h: G1, commits: seq<G1>, pks: seq<G1>, t: Transcript) {
    && VerifySharing(so, h, commits, t.ciphertext, pks, t.rBB, t.encRR, t.sharePf)
    && VerifyChunking(o, pks, t.ciphertext, t.chunkPf)
  }

  lemma OneCiphertext(pks: seq<G1>, chunks: seq<seq<nat>>, r: seq<Scalar>, ct: CiphertextChunks, ct': CiphertextChunks)
    requires Encrypts(pks, chunks, r, ct) && Encrypts(pks, chunks, r, ct')
    ensures ct == ct'
  {
    hide EncryptedRow;
    assert ct.cc == ct'.cc;
  }

  /** No draw is accepted on the ciphertext of the shares. */
  ghost predicate NoDrawAccepted(o: Oracles, keys: seq<G1>, shares: seq<Scalar>, c: DealerCoins, ct: CiphertextChunks)
    requires |keys| == |shares| && CoinsFit(c.prover, |keys|)
  {
    Encrypts(keys, AllDigits(shares), c.r, ct) && AllRejected(o, keys, ct, AllDigits(shares), c.prover)
  }

  /** `create_dealing`: on commitments to the shares, every transcript it returns
      passes `verify_dealing`.  None stands for a rejection loop that has not ended
      within the given draws. */
  method CreateDealing(o: Oracles, so: SharingOracles, h: G1, commits: seq<G1>, keys: seq<G1>, shares: seq<Scalar>,
                       randomness: seq<Scalar>, c: DealerCoins) returns (t: Option<Transcript>)
    requires ScalarsFit() && CommitsTo(h, commits, shares, randomness) && |keys| == |shares|
    requires |c.r| == NUM_CHUNKS && CoinsFit(c.prover, |keys|)
    ensures t.Some? ==> VerifyDealing(o, so, h, commits, keys, t.value)
    ensures t.Some? ==> Encrypts(keys, AllDigits(shares), c.r, t.value.ciphertext)
    ensures t.None? <==> exists ct :: NoDrawAccepted(o, keys, shares, c, ct)
  {
    Lengths(h, commits, shares, randomness);
    hide VerifyChunking, Times, Add, CommitsTo, ScalarsFit, DotTo, Digits, EncryptedRow, Encrypts, Rebuilt, CheckSharing,
      ProveSharing, Consistent, MaskColumn, ChunkWeights, CoinsFit, AllRejected;
    var ct, chunkPf, rA := EncryptAndProve(o, keys, shares, c);
    assert chunkPf.None? <==> NoDrawAccepted(o, keys, shares, c, ct);
    if chunkPf.None? {
      return None;
    }
    forall ct' ensures !NoDrawAccepted(o, keys, shares, c, ct') {
      if Encrypts(keys, AllDigits(shares), c.r, ct') { OneCiphertext(keys, AllDigits(shares), c.r, ct, ct'); }
    }
    var rBB := Times(G1_GENERATOR, c.rB);
    var encRR := MaskColumn(h, randomness, keys, c.rB);
    var encSS := MaskColumn(G1_GENERATOR, shares, keys, rA);
    var st := Statement(commits, keys, Times(G1_GENERATOR, rA), encSS, rBB, encRR);
    var w := SharingWitness(rA, c.rB, shares, randomness);
    var sharePf := ProveSharing(so, h, st, w, c.alpha, c.beta, c.rho);
    t := Some(Transcript(ct, rBB, encRR, chunkPf.value, sharePf));
    RebuiltStatement(commits, ct, keys, rBB, encRR, shares, c.r, rA);
    HonestStatement(h, commits, keys, shares, randomness, rA, c.rB);
    SharingComplete(so, h, st, w, c.alpha, c.beta, c.rho);
  }
}
