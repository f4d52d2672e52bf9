/** The rejection loop of `prove_chunking` (vss/ni_vss/nizk_chunking.rs): which draws lead
    to a published response, and to which one. */
module ChunkingRejection {
  import opened ScalarField
  import opened PolynomialAlgebra
  import opened Interpolation
  import opened Group
  import opened NivssUtils
  import opened Encryption
  import opened NizkChunking
  import opened ChunkingProver

  /** Chunks of 16 bits for every receiver. */
  ghost predicate SmallChunks(s: seq<seq<Scalar>>, m: nat) {
    forall i :: 0 <= i < |s| ==> |s[i]| == m && forall j :: 0 <= j < m ==> s[i][j] < 65536
  }

  ghost predicate OneByteEntries(e: Challenge, m: nat) {
    Shaped(e, |e|, m) && forall i, j, k :: 0 <= i < |e| && 0 <= j < m && 0 <= k < NUM_ZK_REPETITIONS ==> e[i][j][k] < 256
  }

  lemma TermBound(x: nat, y: nat)
    requires x <= 65535 && y <= 255
    ensures 0 <= x * y <= 65535 * 255
  {
    MulMonotone(x, 65535, y);
  }

  lemma {:induction false} RowBound(c: seq<Scalar>, l: seq<nat>, n: nat)
    requires n <= |c| == |l| && forall j :: 0 <= j < n ==> c[j] < 65536 && l[j] < 256
    ensures 0 <= DotTo(c, l, n) <= n * (65535 * 255)
  {
    if n > 0 {
      RowBound(c, l, n - 1);
      TermBound(c[n - 1], l[n - 1]);
    }
  }

  /** The challenge-weighted sum of honest chunks is at most the largest sum. */
  lemma {:induction false} SumBound(s: seq<seq<Scalar>>, e: Challenge, m: nat, k: nat, n: nat)
    requires n <= |s| == |e| && SmallChunks(s, m) && OneByteEntries(e, m) && k < NUM_ZK_REPETITIONS
    ensures 0 <= LayerSum(s, e, k, n) <= n * (m * (65535 * 255))
  {
    if n > 0 {
      SumBound(s, e, m, k, n - 1);
      RowBound(s[n - 1], Layer(e[n - 1], k), m);
      MulDistribute(m * (65535 * 255), n, 1);
    }
  }

  /** A draw d below range = 64 * largest + largest becomes the response sum + d - largest,
      which is accepted exactly if it is at least 0 and less than 64 * largest. */
  lemma DrawOutcome(sum: int, d: int, largest: int, z: Scalar)
    requires 0 <= sum <= largest && 0 <= d < 65 * largest <= P && Cong(z, sum + (d - largest))
    ensures z < 64 * largest <==> largest - sum <= d < largest - sum + 64 * largest
    ensures z < 64 * largest ==> z == sum + d - largest
  {
    var v := sum + (d - largest);
    if v < 0 {
      CongIntro(v + P, v, 1);
    }
    assert Red(v) == if v < 0 then v + P else if v < P then v else Red(v);
  }

  lemma ResponseValue(sum: int, d: Scalar, largest: int)
    ensures Cong(Red(sum + Add(d, Neg(Red(largest)))), sum + (d - largest))
  {
    CongSub(0, 0, Red(largest), largest);
    CongAdd(d, d, Neg(Red(largest)), -largest);
    CongAdd(sum, sum, Add(d, Neg(Red(largest))), d - largest);
  }

  lemma LargestSum(n: nat, m: nat)
    ensures MaxSum(n, m) == n * (m * (65535 * 255)) && ZBound(n, m) == Red(64 * (n * (m * (65535 * 255))))
  {
    var c := 65535 * 255;
    assert MaxSum(n, m) == n * (m * c) by {
      MulAssoc(n * m, 65535, 255);
      MulAssoc(n, m, c);
    }
  }

  /** The largest sum n receivers and m chunks of 16 bits can give against one-byte
      challenges. */
  function Largest(n: nat, m: nat): nat {
    n * (m * (65535 * 255))
  }

  /** What repetition k publishes: with range = 65 * largest fitting in the field, a draw
      leads to a response below the bound exactly if it lies in the 64 * largest values
      from largest - sum on, and the response then is its place among them.  So whatever
      the chunks are, the same number of draws is accepted and every response comes from
      exactly one of them. */
  lemma AcceptedDraws(s: seq<seq<Scalar>>, e: Challenge, draw: seq<Scalar>, m: nat, k: nat)
    requires |s| == |e| && SmallChunks(s, m) && OneByteEntries(e, m) && |draw| == NUM_ZK_REPETITIONS > k
    requires 0 < 65 * Largest(|e|, m) <= P && draw[k] < 65 * Largest(|e|, m)
    ensures var first, z := Largest(|e|, m) - LayerSum(s, e, k, |e|), Responses(e, s, Sigma(draw, |e|, m))[k];
            && 0 <= first <= Largest(|e|, m)
            && (z < ZBound(|e|, m) <==> first <= draw[k] < first + 64 * Largest(|e|, m))
            && (z < ZBound(|e|, m) ==> z == draw[k] - first)
  {
    hide LayerSum, MaxSum, ZBound, Responses, Sigma, Largest, SmallChunks;
    SumIsSmall(s, e, m, k);
    BoundIs(|e|, m);
    ResponseAt(s, e, draw, m, k);
    DrawOutcome(LayerSum(s, e, k, |e|), draw[k], Largest(|e|, m), Responses(e, s, Sigma(draw, |e|, m))[k]);
  }

  lemma ResponseAt(s: seq<seq<Scalar>>, e: Challenge, draw: seq<Scalar>, m: nat, k: nat)
    requires |s| == |e| && |draw| == NUM_ZK_REPETITIONS > k
    requires forall i, j :: 0 <= i < |e| && 0 <= j < |e[i]| ==> |e[i][j]| == NUM_ZK_REPETITIONS
    ensures Cong(Responses(e, s, Sigma(draw, |e|, m))[k], LayerSum(s, e, k, |e|) + (draw[k] - MaxSum(|e|, m)))
  {
    hide LayerSum, MaxSum, Neg, Add;
    ResponseValue(LayerSum(s, e, k, |e|), draw[k], MaxSum(|e|, m));
  }

  lemma SumIsSmall(s: seq<seq<Scalar>>, e: Challenge, m: nat, k: nat)
    requires |s| == |e| && SmallChunks(s, m) && OneByteEntries(e, m) && k < NUM_ZK_REPETITIONS
    ensures 0 <= LayerSum(s, e, k, |e|) <= Largest(|e|, m)
  {
    hide LayerSum, SmallChunks, OneByteEntries;
    SumBound(s, e, m, k, |e|);
  }

  lemma BoundIs(n: nat, m: nat)
    requires 65 * Largest(n, m) <= P && 0 < Largest(n, m)
    ensures MaxSum(n, m) == Largest(n, m) && ZBound(n, m) == 64 * Largest(n, m)
  {
    LargestSum(n, m);
  }

  /** The window of repetition k. */
  ghost predicate InWindow(s: seq<seq<Scalar>>, e: Challenge, draw: seq<Scalar>, m: nat, k: nat)
    requires |s| <= |e| && Shaped(e, |e|, m) && k < NUM_ZK_REPETITIONS <= |draw|
  {
    var first := Largest(|s|, m) - LayerSum(s, e, k, |s|);
    first <= draw[k] < first + 64 * Largest(|s|, m)
  }

  /** The rejection loop accepts a draw exactly if it lies in the window of every
      repetition. */
  lemma AttemptAccepted(o: Oracles, pks: seq<G1>, ct: CiphertextChunks, s: seq<seq<Scalar>>, c: ProverCoins, draw: seq<Scalar>)
    requires |s| == |pks| && SmallChunks(s, |ct.rr|) && |c.beta| == |draw| == NUM_ZK_REPETITIONS
    requires 0 < 65 * Largest(|pks|, |ct.rr|) <= P
    requires forall k :: 0 <= k < NUM_ZK_REPETITIONS ==> draw[k] < 65 * Largest(|pks|, |ct.rr|)
    ensures InRange(Attempt(o, pks, ct, s, c, draw), |pks|, |ct.rr|) <==>
      forall k :: 0 <= k < NUM_ZK_REPETITIONS ==>
        InWindow(s, FirstChallenge(o, pks, ct, MoveOf(c, draw, |pks|, |ct.rr|)), draw, |ct.rr|, k)
  {
    hide LayerSum, MaxSum, ZBound, Responses, Sigma, Largest, SmallChunks, OneByteEntries, MoveOf;
    var n, m := |pks|, |ct.rr|;
    var e := FirstChallenge(o, pks, ct, MoveOf(c, draw, n, m));
    BytesOnly(o, pks, ct, MoveOf(c, draw, n, m));
    var zs := Attempt(o, pks, ct, s, c, draw);
    forall k | 0 <= k < NUM_ZK_REPETITIONS ensures zs[k] < ZBound(n, m) <==> InWindow(s, e, draw, m, k) {
      AcceptedDraws(s, e, draw, m, k);
    }
  }

  lemma BytesOnly(o: Oracles, pks: seq<G1>, ct: CiphertextChunks, move: FirstMove)
    ensures OneByteEntries(FirstChallenge(o, pks, ct, move), |ct.rr|) && |FirstChallenge(o, pks, ct, move)| == |pks|
  {}
}
