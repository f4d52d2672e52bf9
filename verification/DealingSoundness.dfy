/** What the dealings accepted by `verify_dealing` (vss/ni_vss/dealing.rs) say about their
    ciphertext. */
module DealingSoundness {
  import opened ScalarField
  import opened PolynomialAlgebra
  import opened Interpolation
  import opened Group
  import opened NivssUtils
  import opened Chunking
  import opened Encryption
  import opened NizkChunking
  import opened NizkSharing
  import opened Dealing
  import CS = ChunkingSoundness
  import SS = SharingSoundness

  /** What the proofs of a dealing are about. */
  datatype Public = Public(h: G1, commits: seq<G1>, pks: seq<G1>, ct: CiphertextChunks, rBB: G1, encRR: seq<G1>)

  /** One run of the verifier, with its oracles and the two proofs it saw. */
  datatype DealingRun = DealingRun(o: Oracles, so: SharingOracles, chunkPf: ProofChunking, sharePf: ProofSharing)

  ghost predicate Accepts(d: Public, r: DealingRun) {
    VerifyDealing(r.o, r.so, d.h, d.commits, d.pks, Transcript(d.ct, d.rBB, d.encRR, r.chunkPf, r.sharePf))
  }

  function ChunkRun(r: DealingRun): CS.Run {
    CS.Run(r.o, r.chunkPf)
  }

  function ChunkRuns(runs: seq<DealingRun>): (c: seq<CS.Run>)
    ensures |c| == |runs| && forall a :: 0 <= a < |c| ==> c[a] == ChunkRun(runs[a])
  {
    seq(|runs|, a requires 0 <= a < |runs| => ChunkRun(runs[a]))
  }

  function SharePair(r: DealingRun, r': DealingRun): SS.Rewound {
    SS.Rewound(r.so, r'.so, r.sharePf, r'.sharePf)
  }

  function SharePairs(runs: seq<DealingRun>, runs': seq<DealingRun>): (c: seq<SS.Rewound>)
    requires |runs| == |runs'|
    ensures |c| == |runs| && forall a :: 0 <= a < |c| ==> c[a] == SharePair(runs[a], runs'[a])
  {
    seq(|runs|, a requires 0 <= a < |runs| => SharePair(runs[a], runs'[a]))
  }

  /** 33 accepted dealings that differ from the second challenge of the chunking proof
      on, whose first challenge is e. */
  ghost predicate ChunksRewound(d: Public, runs: seq<DealingRun>, e: Challenge) {
    && |runs| == 33 && Distinct(CS.SecondAnswers(ChunkRuns(runs), e))
    && forall a :: 0 <= a < 33 ==> Accepts(d, runs[a]) && OnChallenge(d, runs[0], runs[a], e)
  }

  ghost predicate OnChallenge(d: Public, first: DealingRun, r: DealingRun, e: Challenge) {
    && CS.SameMoves(first.chunkPf, r.chunkPf)
    && FirstChallenge(r.o, d.pks, d.ct, FirstMove(r.chunkPf.y0, r.chunkPf.bb, r.chunkPf.cc)) == e
  }

  /** Two accepted dealings with one first move of the sharing proof and different
      challenges. */
  ghost predicate SharingRewound(d: Public, r: DealingRun, r': DealingRun) {
    var st, p, p' := Rebuilt(d.commits, d.ct, d.pks, d.rBB, d.encRR), r.sharePf, r'.sharePf;
    && Accepts(d, r) && Accepts(d, r') && r.so.share(st) == r'.so.share(st)
    && p.ff == p'.ff && p.aa == p'.aa && p.yy == p'.yy
    && r.so.first(r.so.share(st), p.ff, p.aa, p.yy) != r'.so.first(r.so.share(st), p.ff, p.aa, p.yy)
  }

  /** Soundness of the proof of chunking inside a dealing. */
  lemma DealingChunks(d: Public, sks: seq<Scalar>, runs: seq<DealingRun>, e: Challenge)
    requires CS.Receivers(d.pks, sks, d.ct) && ChunksRewound(d, runs, e)
    ensures |d.ct.cc| == |sks| == |d.pks| == |e| && Shaped(e, |d.pks|, NUM_CHUNKS) && LengthsMatch(|d.pks|, runs[0].chunkPf)
    ensures forall k :: 0 <= k < NUM_ZK_REPETITIONS ==>
      CS.SmallSum(CS.AllUnmasked(sks, d.ct), runs[0].chunkPf, e, |d.pks|, k)
  {
    hide VerifySharing, VerifyChunking, CS.SameMoves, Distinct, CS.Receivers, CS.SmallSum;
    var c := ChunkRuns(runs);
    forall a | 0 <= a < 33 ensures CS.AcceptsOn(d.pks, d.ct, c[a], e) && CS.SameMoves(c[0].p, c[a].p) {
      assert Accepts(d, runs[a]) && OnChallenge(d, runs[0], runs[a], e);
    }
    CS.ChunkSums(d.pks, sks, d.ct, c, e);
  }

  /** Soundness of the proof of sharing inside a dealing: with as many rewound pairs as
      receivers, on different share answers, what receiver i decrypts opens
      commitment i. */
  lemma DealingShares(d: Public, sk: Scalar, runs: seq<DealingRun>, runs': seq<DealingRun>, i: nat)
    requires |d.commits| == |d.pks| == |d.ct.cc| == |d.encRR| == |runs| == |runs'| && i < |d.pks|
    requires d.pks[i] == Times(G1_GENERATOR, sk)
    requires forall a :: 0 <= a < |runs| ==> SharingRewound(d, runs[a], runs'[a])
    requires Distinct([0] + SS.ShareAnswers(Rebuilt(d.commits, d.ct, d.pks, d.rBB, d.encRR), SharePairs(runs, runs')))
    ensures Add(SS.Decrypted(MultiExp(d.ct.cc[i], ChunkWeights()), MultiExp(d.ct.rr, ChunkWeights()), sk),
                SS.Decrypted(d.encRR[i], d.rBB, sk)) == d.commits[i]
  {
    hide CheckSharing, VerifyChunking, Distinct, Add, SS.Decrypted, MultiExp, Times, Rebuilt;
    var rs := SharePairs(runs, runs');
    forall a | 0 <= a < |rs| ensures SS.VerifiedTwice(d.h, d.commits, d.ct, d.pks, d.rBB, d.encRR, rs[a]) {
      assert SharingRewound(d, runs[a], runs'[a]);
    }
    hide SS.VerifiedTwice;
    SS.DecryptionOpensCommitment(d.h, d.commits, d.ct, d.pks, d.rBB, d.encRR, rs, i, sk);
  }
}
