/** What the accepted proofs of correct chunking say about their ciphertext: rewinding the
    challenges of `verify_chunking` (vss/ni_vss/nizk_chunking.rs) bounds the chunks. */
module ChunkingSoundness {
  import opened ScalarField
  import opened PolynomialAlgebra
  import opened Interpolation
  import opened Group
  import opened NivssUtils
  import opened Chunking
  import opened Encryption
  import opened NizkChunking
  import opened ChunkingProver
  import opened ChunkingCompleteness

  /** One run of the verifier. */
  datatype Run = Run(o: Oracles, p: ProofChunking)

  /** The two moves before the second challenge agree. */
  ghost predicate SameMoves(p: ProofChunking, q: ProofChunking) {
    p.y0 == q.y0 && p.bb == q.bb && p.cc == q.cc && p.zs == q.zs && p.dd == q.dd && p.yy == q.yy
  }

  function SecondAnswer(r: Run, e: Challenge): Scalar {
    r.o.second(e, SecondMove(r.p.zs, r.p.dd, r.p.yy))
  }

  function SecondAnswers(runs: seq<Run>, e: Challenge): (xs: seq<Scalar>)
    ensures |xs| == |runs| && forall a :: 0 <= a < |xs| ==> xs[a] == SecondAnswer(runs[a], e)
  {
    seq(|runs|, a requires 0 <= a < |runs| => SecondAnswer(runs[a], e))
  }

  /** A run that accepts, on the first challenge e. */
  ghost predicate AcceptsOn(pks: seq<G1>, ct: CiphertextChunks, r: Run, e: Challenge) {
    VerifyChunking(r.o, pks, ct, r.p) && FirstChallenge(r.o, pks, ct, FirstMove(r.p.y0, r.p.bb, r.p.cc)) == e
  }

  /** 33 accepting runs that differ only from the second challenge on. */
  ghost predicate Rewound(pks: seq<G1>, ct: CiphertextChunks, runs: seq<Run>, e: Challenge) {
    && |runs| == 33 && Distinct(SecondAnswers(runs, e))
    && forall a :: 0 <= a < |runs| ==> AcceptsOn(pks, ct, runs[a], e) && SameMoves(runs[0].p, runs[a].p)
  }

  /** The receivers' keys, and the array type of the ciphertext rows. */
  ghost predicate Receivers(pks: seq<G1>, sks: seq<Scalar>, ct: CiphertextChunks) {
    && |pks| == |sks| && (forall i :: 0 <= i < |pks| ==> pks[i] == Times(G1_GENERATOR, sks[i]))
    && |ct.rr| == NUM_CHUNKS && forall i :: 0 <= i < |ct.cc| ==> |ct.cc[i]| == NUM_CHUNKS
  }

  /** What the receivers see: every chunk ciphertext with its mask removed. */
  function AllUnmasked(sks: seq<Scalar>, ct: CiphertextChunks): (s: seq<seq<Scalar>>)
    requires |sks| == |ct.cc|
    ensures |s| == |sks| && forall i :: 0 <= i < |s| ==> s[i] == Unmasked(ct.rr, ct.cc[i], sks[i])
  {
    seq(|sks|, i requires 0 <= i < |sks| => Unmasked(ct.rr, ct.cc[i], sks[i]))
  }

  lemma UnmaskedSplits(rr: seq<G1>, cc: seq<G1>, pk: G1, sk: Scalar)
    requires |cc| == |rr| && pk == Times(G1_GENERATOR, sk)
    ensures SplitRow(cc, Unmasked(rr, cc, sk), pk, rr)
  {
    hide Times, Sub;
    TimesGenerator(sk);
    forall j | 0 <= j < |cc| ensures Cong(cc[j], Unmasked(rr, cc, sk)[j] + pk * rr[j]) {
      TimesValue(rr[j], sk);
      Remask(cc[j], rr[j], sk, Times(rr[j], sk));
    }
  }

  lemma Remask(c: int, r: int, sk: int, mask: int)
    requires Cong(mask, r * sk)
    ensures Cong(c, Sub(c, mask) + sk * r)
  {
    MulCommutes(r, sk);
    CongAdd(Sub(c, mask), c - mask, sk * r, mask);
  }

  // ---- one run ----

  lemma RandomnessEntry(pks: seq<G1>, rr: seq<G1>, e: Challenge, xpowers: seq<Scalar>, dd: seq<G1>, zr: seq<Scalar>, i: nat)
    requires i < |e| == |pks| == |zr| && |dd| == |pks| + 1
    requires RandomnessEquation(rr, e[i], xpowers, dd[i + 1], zr[i])
    ensures EntrySum(zr, KeyDots(pks, e, rr, xpowers), dd[1..], i)
  {
    hide Dot, Weighted, Times;
    TimesGenerator(zr[i]);
    var k, d: int := Dot(rr, Weighted(xpowers, e[i])), dd[i + 1];
    CongAdd(Red(k), k, d, d);
  }

  lemma RunRandomness(pks: seq<G1>, rr: seq<G1>, e: Challenge, xpowers: seq<Scalar>, dd: seq<G1>, zr: seq<Scalar>)
    requires |e| == |pks| == |zr| && |dd| == |pks| + 1
    requires forall i :: 0 <= i < |pks| ==> RandomnessEquation(rr, e[i], xpowers, dd[i + 1], zr[i])
    ensures Cong(MultiExp(pks, zr), DotTo(pks, KeyDots(pks, e, rr, xpowers), |e|) + Dot(pks, dd[1..]))
  {
    hide DotTo, RandomnessEquation, KeyDots, EntrySum;
    var kd, tail := KeyDots(pks, e, rr, xpowers), dd[1..];
    forall i | 0 <= i < |pks| ensures EntrySum(zr, kd, tail, i) { RandomnessEntry(pks, rr, e, xpowers, dd, zr, i); }
    SumOfVectors(pks, kd, tail, zr, |pks|);
  }

  lemma RunBlinding(p: ProofChunking, xpowers: seq<Scalar>)
    requires |p.dd| > 0 && |p.bb| == |xpowers| && BlindingEquation(p, xpowers)
    ensures Cong(p.zbeta, Dot(xpowers, p.bb) + p.dd[0])
  {
    hide Times, DotTo;
    TimesGenerator(p.zbeta);
    DotCommutes(p.bb, xpowers, |p.bb|);
    var k: int, d: int := Dot(p.bb, xpowers), p.dd[0];
    CongAdd(Red(k), k, d, d);
  }

  /** The last equation, solved for what does not depend on the challenge. */
  lemma Solve(left: int, yy: int, wc: int, ws: int, sums: int, keys: int, ccs: int, kr: int, ds: int, pair: int,
              y0: int, zbeta: int, bbs: int, d0: int, acc: int, zs: int)
    requires Cong(left, wc + ccs) && Cong(wc, ws + keys) && Cong(sums, ws) && Cong(kr, keys + ds)
    requires Cong(pair, y0 * zbeta + Red(1) * acc) && Cong(zbeta, bbs + d0) && Cong(acc, zs)
    requires Add(left, yy) == Add(kr, pair)
    ensures Cong(Constant(yy, ds, y0, d0) + Excess(sums, ccs, zs, y0, bbs), 0)
  {
    var yz, yb, yd := y0 * zbeta, y0 * bbs, y0 * d0;
    ResponseProduct(y0, zbeta, bbs, d0);
    CongAdd(wc, ws + keys, ccs, ccs);
    CongAdd(left, ws + keys + ccs, yy, yy);
    RightTotal(kr, pair, keys, ds, yz, yb + yd, acc, zs);
    Move(sums, ws, keys, ccs, yy, ds, yb, yd, zs);
  }

  lemma Move(sums: int, ws: int, keys: int, ccs: int, yy: int, ds: int, yb: int, yd: int, zs: int)
    requires Cong(sums, ws) && Cong(ws + keys + ccs + yy, keys + ds + (yb + yd) + zs)
    ensures Cong((yy - ds - yd) + (sums + ccs - zs - yb), 0)
  {
    var r := keys + ds + (yb + yd) + zs;
    CongSub(ws + keys + ccs + yy, r, r, r);
    CongSub(sums, ws, zs + yb + ds + yd - ccs - yy, zs + yb + ds + yd - ccs - yy);
  }

  /** The part of the last equation that no second challenge multiplies. */
  function Constant(yy: int, ds: int, y0: int, d0: int): int {
    yy - ds - y0 * d0
  }

  lemma AllSplit(pks: seq<G1>, sks: seq<Scalar>, ct: CiphertextChunks)
    requires Receivers(pks, sks, ct) && |ct.cc| == |pks|
    ensures |AllUnmasked(sks, ct)| == |pks| && forall i :: 0 <= i < |pks| ==> |ct.cc[i]| == |ct.rr|
    ensures forall i :: 0 <= i < |pks| ==> SplitRow(ct.cc[i], AllUnmasked(sks, ct)[i], pks[i], ct.rr)
  {
    hide SplitRow, Unmasked, Times;
    forall i | 0 <= i < |pks| ensures SplitRow(ct.cc[i], AllUnmasked(sks, ct)[i], pks[i], ct.rr) {
      UnmaskedSplits(ct.rr, ct.cc[i], pks[i], sks[i]);
    }
  }

  /** What the last equation says at one second challenge. */
  lemma RunEquation(pks: seq<G1>, s: seq<seq<Scalar>>, ct: CiphertextChunks, p: ProofChunking, e: Challenge,
                    xpowers: seq<Scalar>)
    requires |s| == |pks| == |ct.cc| == |e| && LengthsMatch(|pks|, p) && |xpowers| == NUM_ZK_REPETITIONS
    requires Shaped(e, |pks|, |ct.rr|) && ChunkEquation(pks, ct, p, e, xpowers) && BlindingEquation(p, xpowers)
    requires forall i :: 0 <= i < |pks| ==> |ct.cc[i]| == |ct.rr| && SplitRow(ct.cc[i], s[i], pks[i], ct.rr)
    requires forall i :: 0 <= i < |pks| ==> RandomnessEquation(ct.rr, e[i], xpowers, p.dd[i + 1], p.zr[i])
    ensures Cong(Constant(p.yy, Dot(pks, p.dd[1..]), p.y0, p.dd[0]) +
                   Dot(xpowers, Excesses(LayerSums(s, e, |e|), p.cc, p.zs, p.y0, p.bb, NUM_ZK_REPETITIONS)), 0)
  {
    hide DotTo, MultiExp, WeightedSum, ChunkProducts, KeyDots, LayerSums, Excesses, Excess, Constant, Add,
      RandomnessEquation, BlindingEquation, SplitRow;
    var sums := LayerSums(s, e, |e|);
    LeftSide(ct, e, p.cc, xpowers, |ct.rr|);
    SplitSum(pks, ct.cc, s, ct.rr, e, xpowers, |pks|);
    Exchange(xpowers, s, e, |e|);
    RunRandomness(pks, ct.rr, e, xpowers, p.dd, p.zr);
    RunBlinding(p, xpowers);
    PairValue(p.y0, G1_GENERATOR, p.zbeta, Red(Dot(p.zs, xpowers)));
    DotCommutes(p.zs, xpowers, NUM_ZK_REPETITIONS);
    ExcessDot(sums, p.cc, p.zs, p.y0, p.bb, NUM_ZK_REPETITIONS, xpowers);
    Solve(MultiExp(ChunkProducts(ct, e, p.cc), xpowers), p.yy, WeightedSum(ct.cc, e, xpowers, |e|),
          WeightedSum(s, e, xpowers, |e|), Dot(xpowers, sums), DotTo(pks, KeyDots(pks, e, ct.rr, xpowers), |e|),
          Dot(xpowers, p.cc), MultiExp(pks, p.zr), Dot(pks, p.dd[1..]),
          MultiExp([p.y0, G1_GENERATOR], [p.zbeta, Red(Dot(p.zs, xpowers))]), p.y0, p.zbeta, Dot(xpowers, p.bb), p.dd[0],
          Red(Dot(p.zs, xpowers)), Dot(xpowers, p.zs));
  }

  // ---- all runs together ----

  /** An accepted ciphertext has one row for every receiver. */
  lemma OneRowEach(pks: seq<G1>, sks: seq<Scalar>, ct: CiphertextChunks, r: Run, e: Challenge)
    requires Receivers(pks, sks, ct) && AcceptsOn(pks, ct, r, e)
    ensures |ct.cc| == |sks| == |pks| == |e| && Shaped(e, |pks|, NUM_CHUNKS) && LengthsMatch(|pks|, r.p)
  {
    FlattenLength(ct.cc, NUM_CHUNKS);
  }

  lemma AcceptedRun(pks: seq<G1>, sks: seq<Scalar>, ct: CiphertextChunks, r: Run, e: Challenge)
    requires Receivers(pks, sks, ct) && AcceptsOn(pks, ct, r, e) && |ct.cc| == |pks| == |e|
    requires Shaped(e, |pks|, NUM_CHUNKS) && LengthsMatch(|pks|, r.p)
    ensures Cong(Constant(r.p.yy, Dot(pks, r.p.dd[1..]), r.p.y0, r.p.dd[0]) +
                   Dot(XPowers(SecondAnswer(r, e), NUM_ZK_REPETITIONS),
                       Excesses(LayerSums(AllUnmasked(sks, ct), e, |e|), r.p.cc, r.p.zs, r.p.y0, r.p.bb,
                                NUM_ZK_REPETITIONS)), 0)
  {
    hide Dot, Constant, Excesses, LayerSums, AllUnmasked, XPowers, SplitRow, ChunkEquation, BlindingEquation,
      RandomnessEquation, Flatten, InRange;
    AllSplit(pks, sks, ct);
    RunEquation(pks, AllUnmasked(sks, ct), ct, r.p, e, XPowers(SecondAnswer(r, e), NUM_ZK_REPETITIONS));
  }

  /** Twice 32 times the largest challenge-weighted sum of 16-bit chunks. */
  function ResponseBound(n: nat): Scalar {
    Red(64 * (n * 16 * 65535 * 255))
  }

  lemma AcceptedRange(pks: seq<G1>, sks: seq<Scalar>, ct: CiphertextChunks, r: Run, e: Challenge, k: nat)
    requires Receivers(pks, sks, ct) && AcceptsOn(pks, ct, r, e) && k < |r.p.zs|
    ensures r.p.zs[k] < ResponseBound(|pks|)
  {
    hide FirstChallenge, XPowers, RandomnessEquation, BlindingEquation, ChunkEquation, Flatten;
  }

  /** In repetition k the challenge-weighted sum of the chunks s is the published small
      response, up to the mask of the first move. */
  ghost predicate SmallSum(s: seq<seq<Scalar>>, p: ProofChunking, e: Challenge, n: nat, k: nat)
    requires |s| == |e| && Shaped(e, |e|, NUM_CHUNKS) && LengthsMatch(n, p) && k < NUM_ZK_REPETITIONS
  {
    Balanced(LayerSum(s, e, k, |e|), p.cc[k], p.zs[k], p.y0, p.bb[k]) && p.zs[k] < ResponseBound(n)
  }

  /** Soundness of the proof of chunking: when 33 runs accept that share all moves before
      the second challenge, every repetition gives a small sum of what the receivers
      see. */
  lemma ChunkSums(pks: seq<G1>, sks: seq<Scalar>, ct: CiphertextChunks, runs: seq<Run>, e: Challenge)
    requires Receivers(pks, sks, ct) && Rewound(pks, ct, runs, e)
    ensures |ct.cc| == |sks| == |pks| == |e| && Shaped(e, |pks|, NUM_CHUNKS) && LengthsMatch(|pks|, runs[0].p)
    ensures forall k :: 0 <= k < NUM_ZK_REPETITIONS ==> SmallSum(AllUnmasked(sks, ct), runs[0].p, e, |pks|, k)
  {
    hide AcceptsOn, Receivers, SmallSum, Distinct, SameMoves, LayerSums, AllUnmasked;
    var p := runs[0].p;
    OneRowEach(pks, sks, ct, runs[0], e);
    RunsBalance(pks, sks, ct, runs, e);
    forall k | 0 <= k < NUM_ZK_REPETITIONS ensures SmallSum(AllUnmasked(sks, ct), p, e, |pks|, k) {
      AcceptedRange(pks, sks, ct, runs[0], e, k);
      SmallSumAt(AllUnmasked(sks, ct), p, e, |pks|, k);
    }
  }

  lemma SmallSumAt(s: seq<seq<Scalar>>, p: ProofChunking, e: Challenge, n: nat, k: nat)
    requires |s| == |e| && Shaped(e, |e|, NUM_CHUNKS) && LengthsMatch(n, p) && k < NUM_ZK_REPETITIONS
    requires Balanced(LayerSums(s, e, |e|)[k], p.cc[k], p.zs[k], p.y0, p.bb[k]) && p.zs[k] < ResponseBound(n)
    ensures SmallSum(s, p, e, n, k)
  {
    hide Balanced, LayerSum, ResponseBound;
  }

  lemma RunsBalance(pks: seq<G1>, sks: seq<Scalar>, ct: CiphertextChunks, runs: seq<Run>, e: Challenge)
    requires Receivers(pks, sks, ct) && Rewound(pks, ct, runs, e) && |ct.cc| == |sks| == |pks| == |e|
    requires Shaped(e, |e|, NUM_CHUNKS) && LengthsMatch(|pks|, runs[0].p)
    ensures forall k :: 0 <= k < NUM_ZK_REPETITIONS ==>
      Balanced(LayerSums(AllUnmasked(sks, ct), e, |e|)[k], runs[0].p.cc[k], runs[0].p.zs[k], runs[0].p.y0, runs[0].p.bb[k])
  {
    hide Dot, DotTo, Constant, Excesses, LayerSums, LayerSum, AllUnmasked, XPowers, AcceptsOn, Receivers, Balanced, Distinct;
    var p := runs[0].p;
    var sums, xs := LayerSums(AllUnmasked(sks, ct), e, |e|), SecondAnswers(runs, e);
    var constant := Constant(p.yy, Dot(pks, p.dd[1..]), p.y0, p.dd[0]);
    forall a | 0 <= a < |xs|
      ensures Cong(constant + Dot(XPowers(xs[a], NUM_ZK_REPETITIONS),
                                  Excesses(sums, p.cc, p.zs, p.y0, p.bb, NUM_ZK_REPETITIONS)), 0)
    {
      OneRowEach(pks, sks, ct, runs[a], e);
      AcceptedRun(pks, sks, ct, runs[a], e);
    }
    EachBalanced(constant, sums, p.cc, p.zs, p.y0, p.bb, NUM_ZK_REPETITIONS, xs);
  }

  // ---- one chunk ----

  lemma {:induction false} DotOneDifference(c: seq<int>, l: seq<int>, l': seq<int>, j: nat, n: nat)
    requires forall b: nat :: b != j ==> At(l, b) == At(l', b)
    ensures DotTo(c, l, n) - DotTo(c, l', n) == if j < n then (At(l, j) - At(l', j)) * At(c, j) else 0
  {
    if n > 0 {
      DotOneDifference(c, l, l', j, n - 1);
      if j == n - 1 { MulDistribute(At(c, j), At(l, j), At(l', j)); }
    }
  }

  /** How the entry of receiver i and chunk j changes in repetition k. */
  function Change(e: Challenge, e': Challenge, i: nat, j: nat, k: nat): int
    requires i < |e| && i < |e'| && j < |e[i]| && j < |e'[i]| && k < |e[i][j]| && k < |e'[i][j]|
  {
    e[i][j][k] as int - e'[i][j][k] as int
  }

  /** In repetition k only that entry may change. */
  ghost predicate AgreeBut(e: Challenge, e': Challenge, n: nat, m: nat, i: nat, j: nat, k: nat)
    requires Shaped(e, n, m) && Shaped(e', n, m) && k < NUM_ZK_REPETITIONS
  {
    forall a, b :: 0 <= a < n && 0 <= b < m && (a != i || b != j) ==> e[a][b][k] == e'[a][b][k]
  }

  lemma RowDifference(c: seq<Scalar>, e: Challenge, e': Challenge, m: nat, i: nat, j: nat, k: nat, a: nat)
    requires a < |e| == |e'| && Shaped(e, |e|, m) && Shaped(e', |e|, m) && k < NUM_ZK_REPETITIONS && |c| == m && j < m
    requires AgreeBut(e, e', |e|, m, i, j, k)
    ensures Dot(c, Layer(e[a], k)) - Dot(c, Layer(e'[a], k)) == if a == i then Change(e, e', a, j, k) * c[j] else 0
  {
    var l, l' := Layer(e[a], k), Layer(e'[a], k);
    if a == i {
      assert forall b: nat :: b != j ==> At(l, b) == At(l', b);
      DotOneDifference(c, l, l', j, m);
    } else {
      assert l == l';
    }
  }

  lemma {:induction false} LayerDifference(s: seq<seq<Scalar>>, e: Challenge, e': Challenge, m: nat, i: nat, j: nat, k: nat, n: nat)
    requires n <= |s| == |e| == |e'| && Shaped(e, |e|, m) && Shaped(e', |e|, m) && k < NUM_ZK_REPETITIONS
    requires i < |e| && j < m && AgreeBut(e, e', |e|, m, i, j, k) && forall a :: 0 <= a < |s| ==> |s[a]| == m
    ensures LayerSum(s, e, k, n) - LayerSum(s, e', k, n) == if i < n then Change(e, e', i, j, k) * s[i][j] else 0
  {
    hide Dot, AgreeBut, Change;
    if n > 0 {
      LayerDifference(s, e, e', m, i, j, k, n - 1);
      RowDifference(s[n - 1], e, e', m, i, j, k, n - 1);
    }
  }

  /** The chunk, times the change of the challenge, is a difference of two small
      responses. */
  ghost predicate BoundedChunk(change: int, chunk: int, z: Scalar, z': Scalar, n: nat) {
    z < ResponseBound(n) && z' < ResponseBound(n) && Cong(change * chunk, z - z')
  }

  lemma ChunkIsBounded(s: seq<seq<Scalar>>, p: ProofChunking, e: Challenge, p': ProofChunking, e': Challenge, n: nat,
                       i: nat, j: nat, k: nat)
    requires |s| == |e| == |e'| && Shaped(e, |e|, NUM_CHUNKS) && Shaped(e', |e|, NUM_CHUNKS)
    requires LengthsMatch(n, p) && LengthsMatch(n, p') && k < NUM_ZK_REPETITIONS && i < |s| && j < NUM_CHUNKS
    requires forall a :: 0 <= a < |s| ==> |s[a]| == NUM_CHUNKS
    requires SmallSum(s, p, e, n, k) && SmallSum(s, p', e', n, k) && AgreeBut(e, e', |e|, NUM_CHUNKS, i, j, k)
    requires p.y0 == p'.y0 && p.bb == p'.bb && p.cc == p'.cc
    ensures BoundedChunk(Change(e, e', i, j, k), s[i][j], p.zs[k], p'.zs[k], n)
  {
    LayerDifference(s, e, e', NUM_CHUNKS, i, j, k, |e|);
    hide LayerSum, AgreeBut, Balanced, ResponseBound, Change;
    var z: int, z': int := p.zs[k], p'.zs[k];
    TwoBalances(LayerSum(s, e, k, |e|), LayerSum(s, e', k, |e|), p.cc[k], z, z', p.y0, p.bb[k]);
  }

  lemma TwoBalances(a: int, a': int, b: int, c: int, c': int, k: int, d: int)
    requires Balanced(a, b, c, k, d) && Balanced(a', b, c', k, d)
    ensures Cong(a - a', c - c')
  {
    var t := k * d;
    CongSub(a + b, c + t, a' + b, c' + t);
  }

  /** 33 runs on each of two first challenges to one first move. */
  ghost predicate RewoundTwice(pks: seq<G1>, ct: CiphertextChunks, runs: seq<Run>, e: Challenge, runs': seq<Run>,
                               e': Challenge)
  {
    && Rewound(pks, ct, runs, e) && Rewound(pks, ct, runs', e')
    && runs[0].p.y0 == runs'[0].p.y0 && runs[0].p.bb == runs'[0].p.bb && runs[0].p.cc == runs'[0].p.cc
  }

  ghost predicate DifferAt(e: Challenge, e': Challenge, n: nat, i: nat, j: nat, k: nat) {
    && i < n && j < NUM_CHUNKS && k < NUM_ZK_REPETITIONS && Shaped(e, n, NUM_CHUNKS) && Shaped(e', n, NUM_CHUNKS)
    && AgreeBut(e, e', n, NUM_CHUNKS, i, j, k)
  }

  /** What receiver i sees in place j is bounded. */
  ghost predicate SeenBounded(sks: seq<Scalar>, ct: CiphertextChunks, runs: seq<Run>, e: Challenge, runs': seq<Run>,
                              e': Challenge, n: nat, i: nat, j: nat, k: nat)
    requires DifferAt(e, e', n, i, j, k) && |runs| == |runs'| == 33
  {
    && i < |ct.cc| && i < |sks| && j < |Unmasked(ct.rr, ct.cc[i], sks[i])|
    && k < |runs[0].p.zs| && k < |runs'[0].p.zs|
    && BoundedChunk(Change(e, e', i, j, k), Unmasked(ct.rr, ct.cc[i], sks[i])[j], runs[0].p.zs[k], runs'[0].p.zs[k], n)
  }

  /** Rewinding the first challenge as well, in one entry, bounds what receiver i sees in
      place j. */
  lemma SeenChunkIsBounded(pks: seq<G1>, sks: seq<Scalar>, ct: CiphertextChunks, runs: seq<Run>, e: Challenge,
                           runs': seq<Run>, e': Challenge, i: nat, j: nat, k: nat)
    requires Receivers(pks, sks, ct) && RewoundTwice(pks, ct, runs, e, runs', e') && DifferAt(e, e', |pks|, i, j, k)
    ensures SeenBounded(sks, ct, runs, e, runs', e', |pks|, i, j, k)
  {
    hide SmallSum, AgreeBut, BoundedChunk, Change, AcceptsOn, SameMoves, Distinct, SecondAnswers;
    ChunkSums(pks, sks, ct, runs, e);
    ChunkSums(pks, sks, ct, runs', e');
    ChunkIsBounded(AllUnmasked(sks, ct), runs[0].p, e, runs'[0].p, e', |pks|, i, j, k);
  }
}
