/** `prove_chunking` (vss/ni_vss/nizk_chunking.rs) and its completeness. */
module ChunkingProver {
  import opened Options
  import opened ScalarField
  import opened PolynomialAlgebra
  import opened Interpolation
  import opened Group
  import opened NivssUtils
  import opened Chunking
  import opened Encryption
  import opened NizkChunking
  import opened Scheme

  /** The first move made with a draw. */
  function MoveOf(c: ProverCoins, draw: seq<Scalar>, n: nat, m: nat): FirstMove
    requires |c.beta| == |draw|
  {
    FirstMove(c.y0, BatchMul(G1_GENERATOR, c.beta), Commitments(c.y0, c.beta, Sigma(draw, n, m)))
  }

  /** The responses a draw leads to. */
  function Attempt(o: Oracles, pks: seq<G1>, ct: CiphertextChunks, s: seq<seq<Scalar>>, c: ProverCoins, draw: seq<Scalar>)
    : (zs: seq<Scalar>)
    requires |s| == |pks| && |c.beta| == |draw| == NUM_ZK_REPETITIONS
    ensures |zs| == NUM_ZK_REPETITIONS
  {
    var n, m := |pks|, |ct.rr|;
    Responses(FirstChallenge(o, pks, ct, MoveOf(c, draw, n, m)), s, Sigma(draw, n, m))
  }

  function RowResponses(e: Challenge, r: seq<Scalar>, xpowers: seq<Scalar>, delta: seq<Scalar>): (zr: seq<Scalar>)
    requires |delta| == |e| + 1
    ensures |zr| == |e|
    ensures forall i :: 0 <= i < |e| ==> zr[i] == Add(Red(Dot(r, Weighted(xpowers, e[i]))), delta[i + 1])
  {
    seq(|e|, i requires 0 <= i < |e| => Add(Red(Dot(r, Weighted(xpowers, e[i]))), delta[i + 1]))
  }

  /** The proof assembled from an accepted draw. */
  function Assembled(o: Oracles, pks: seq<G1>, ct: CiphertextChunks, r: seq<Scalar>, s: seq<seq<Scalar>>, c: ProverCoins,
                     draw: seq<Scalar>): ProofChunking
    requires |s| == |pks| && |c.beta| == |draw| == NUM_ZK_REPETITIONS && |c.delta| == |pks| + 1
  {
    var move := MoveOf(c, draw, |pks|, |ct.rr|);
    var e := FirstChallenge(o, pks, ct, move);
    var zs := Attempt(o, pks, ct, s, c, draw);
    var dd := BatchMul(G1_GENERATOR, c.delta);
    var yy := MultiExp([c.y0] + pks, c.delta);
    var xpowers := XPowers(o.second(e, SecondMove(zs, dd, yy)), NUM_ZK_REPETITIONS);
    ProofChunking(c.y0, move.bb, move.cc, dd, yy, RowResponses(e, r, xpowers, c.delta), zs,
                  Add(Red(Dot(c.beta, xpowers)), c.delta[0]))
  }

  /** The loop over the receivers, with its running index into delta. */
  method RespondRows(e: Challenge, r: seq<Scalar>, xpowers: seq<Scalar>, delta: seq<Scalar>) returns (zr: seq<Scalar>)
    requires |delta| == |e| + 1
    ensures zr == RowResponses(e, r, xpowers, delta)
  {
    hide DotTo, Add;
    zr := [];
    var deltaIdx := 1;
    for i := 0 to |e|
      invariant deltaIdx == i + 1 && |zr| == i
      invariant forall k :: 0 <= k < i ==> zr[k] == Add(Red(Dot(r, Weighted(xpowers, e[k]))), delta[k + 1])
    {
      var exponents := WeighRow(xpowers, e[i]);
      var z := ScalarMultExp(r, exponents);
      zr := zr + [Add(z, delta[deltaIdx])];
      deltaIdx := deltaIdx + 1;
    }
  }

  method WeighRow(xpowers: seq<Scalar>, row: seq<seq<nat>>) returns (w: seq<Scalar>)
    ensures w == Weighted(xpowers, row)
  {
    hide DotTo;
    w := [];
    for j := 0 to |row|
      invariant |w| == j && forall k :: 0 <= k < j ==> w[k] == Red(Dot(xpowers, row[k]))
    {
      var x := ScalarUsizeMultExp(xpowers, row[j]);
      w := w + [x];
    }
  }

  method Commit(y0: G1, beta: seq<Scalar>, sigma: seq<Scalar>) returns (cc: seq<G1>)
    requires |beta| == |sigma|
    ensures cc == Commitments(y0, beta, sigma)
  {
    hide MultiExp;
    cc := [];
    for i := 0 to |beta|
      invariant |cc| == i
      invariant forall k :: 0 <= k < i ==> cc[k] == MultiExp([y0, G1_GENERATOR], [beta[k], sigma[k]])
    {
      cc := cc + [MultiExp([y0, G1_GENERATOR], [beta[i], sigma[i]])];
    }
  }

  ghost predicate Witness(pks: seq<G1>, ct: CiphertextChunks, r: seq<Scalar>, s: seq<seq<Scalar>>) {
    && |r| == |ct.rr| == NUM_CHUNKS && |s| == |pks|
    && forall i :: 0 <= i < |s| ==> |s[i]| == NUM_CHUNKS
  }

  /** One pass of the rejection loop. */
  method TryDraw(o: Oracles, pks: seq<G1>, ct: CiphertextChunks, ghost r: seq<Scalar>, s: seq<seq<Scalar>>, c: ProverCoins,
                 draw: seq<Scalar>) returns (move: FirstMove, e: Challenge, zs: seq<Scalar>)
    requires Witness(pks, ct, r, s) && |c.beta| == |draw| == NUM_ZK_REPETITIONS
    ensures move == MoveOf(c, draw, |pks|, |ct.rr|) && e == FirstChallenge(o, pks, ct, move)
    ensures zs == Attempt(o, pks, ct, s, c, draw)
  {
    hide Commitments, Sigma, Responses, AllChunks;
    var sigma := Sigma(draw, |pks|, |ct.rr|);
    var cc := Commit(c.y0, c.beta, sigma);
    move := FirstMove(c.y0, BatchMul(G1_GENERATOR, c.beta), cc);
    e := FirstChallenge(o, pks, ct, move);
    zs := RespondAll(e, s, sigma);
  }

  /** `prove_chunking`: the first draw whose responses all lie in range is turned into
      a proof; there is none when every draw is rejected. */
  method ProveChunking(o: Oracles, pks: seq<G1>, ct: CiphertextChunks, r: seq<Scalar>, s: seq<seq<Scalar>>, c: ProverCoins)
    returns (p: Option<ProofChunking>, ghost a: nat)
    requires Witness(pks, ct, r, s) && CoinsFit(c, |pks|)
    ensures a <= |c.draws| && (p.Some? <==> a < |c.draws|)
    ensures forall b :: 0 <= b < a ==> !InRange(Attempt(o, pks, ct, s, c, c.draws[b]), |pks|, |ct.rr|)
    ensures p.Some? ==> InRange(Attempt(o, pks, ct, s, c, c.draws[a]), |pks|, |ct.rr|)
    ensures p.Some? ==> p.value == Assembled(o, pks, ct, r, s, c, c.draws[a])
  {
    hide Attempt, FirstChallenge, MoveOf, InRange, DotTo;
    a := 0;
    for i := 0 to |c.draws|
      invariant a == i
      invariant forall b :: 0 <= b < i ==> !InRange(Attempt(o, pks, ct, s, c, c.draws[b]), |pks|, |ct.rr|)
    {
      var move, e, zs := TryDraw(o, pks, ct, r, s, c, c.draws[i]);
      if InRange(zs, |pks|, |ct.rr|) {
        var proof := Finish(o, pks, r, c, move, e, zs);
        return Some(proof), i;
      }
      a := a + 1;
    }
    p := None;
  }

  /** The moves after the rejection loop. */
  method Finish(o: Oracles, pks: seq<G1>, r: seq<Scalar>, c: ProverCoins, move: FirstMove, e: Challenge, zs: seq<Scalar>)
    returns (p: ProofChunking)
    requires |c.delta| == |pks| + 1 == |e| + 1
    ensures var dd, yy := BatchMul(G1_GENERATOR, c.delta), MultiExp([c.y0] + pks, c.delta);
            var xpowers := XPowers(o.second(e, SecondMove(zs, dd, yy)), NUM_ZK_REPETITIONS);
            p == ProofChunking(c.y0, move.bb, move.cc, dd, yy, RowResponses(e, r, xpowers, c.delta), zs,
                               Add(Red(Dot(c.beta, xpowers)), c.delta[0]))
  {
    hide BatchMul, MultiExp, DotTo, XPowers, RowResponses, Add;
    var dd, yy := BatchMul(G1_GENERATOR, c.delta), MultiExp([c.y0] + pks, c.delta);
    var x := o.second(e, SecondMove(zs, dd, yy));
    var xpowers := GetXpowers(x, NUM_ZK_REPETITIONS);
    var zr := RespondRows(e, r, xpowers, c.delta);
    var zbeta := ScalarMultExp(c.beta, xpowers);
    p := ProofChunking(c.y0, move.bb, move.cc, dd, yy, zr, zs, Add(zbeta, c.delta[0]));
  }
}
