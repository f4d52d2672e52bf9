/** The proof of correct chunking (vss/ni_vss/nizk_chunking.rs), after section 6.5
    of ePrint 2021/339. */
module NizkChunking {
  import opened ScalarField
  import opened PolynomialAlgebra
  import opened Interpolation
  import opened Group
  import opened NivssUtils
  import opened Chunking
  import opened Encryption
  import opened Scheme

  const NUM_ZK_REPETITIONS: nat := 32
  const CHALLENGE_MASK: nat := 255

  datatype FirstMove = FirstMove(y0: G1, bb: seq<G1>, cc: seq<G1>)

  datatype SecondMove = SecondMove(zs: seq<Scalar>, dd: seq<G1>, yy: G1)

  datatype ProofChunking = ProofChunking(y0: G1, bb: seq<G1>, cc: seq<G1>, dd: seq<G1>, yy: G1,
                                         zr: seq<Scalar>, zs: seq<Scalar>, zbeta: Scalar)

  /** The challenge e[i][j][k]: receiver i, chunk j, repetition k. */
  type Challenge = seq<seq<seq<nat>>>

  /** The random oracles: the transcript and byte stream of the first challenge,
      and the hash of the second. */
  datatype Oracles = Oracles(bytes: (seq<G1>, CiphertextChunks, FirstMove) -> (nat -> nat),
                             second: (Challenge, SecondMove) -> Scalar)

  ghost predicate Shaped(e: Challenge, n: nat, m: nat) {
    && |e| == n
    && (forall i :: 0 <= i < n ==> |e[i]| == m)
    && forall i, j :: 0 <= i < n && 0 <= j < m ==> |e[i][j]| == NUM_ZK_REPETITIONS
  }

  /** `get_all_chunks`: one byte of the stream per entry, in order. */
  function AllChunks(bytes: nat -> nat, n: nat, m: nat): (e: Challenge)
    ensures Shaped(e, n, m)
    ensures forall i, j, k :: 0 <= i < n && 0 <= j < m && 0 <= k < NUM_ZK_REPETITIONS ==> e[i][j][k] <= CHALLENGE_MASK
  {
    seq(n, i requires 0 <= i < n =>
      seq(m, j requires 0 <= j < m =>
        seq(NUM_ZK_REPETITIONS, k requires 0 <= k < NUM_ZK_REPETITIONS =>
          bytes((i * m + j) * NUM_ZK_REPETITIONS + k) % (CHALLENGE_MASK + 1))))
  }

  /** The rows one after the other. */
  function Flatten<T>(rows: seq<seq<T>>): seq<T> {
    if |rows| == 0 then [] else Flatten(rows[..|rows| - 1]) + rows[|rows| - 1]
  }

  /** Rows of one width: entry (i, j) lands at i * w + j. */
  lemma {:induction false} FlattenRows<T>(rows: seq<seq<T>>, w: nat, i: nat, j: nat)
    requires forall k :: 0 <= k < |rows| ==> |rows[k]| == w
    ensures |Flatten(rows)| == |rows| * w
    ensures i < |rows| && j < w ==> 0 <= i * w + j < |rows| * w && Flatten(rows)[i * w + j] == rows[i][j]
  {
    if |rows| > 0 {
      var last := |rows| - 1;
      FlattenRows(rows[..last], w, i, j);
      MulDistribute(w, last, 1);
    }
  }

  /** An index splits into the row and the place in it. */
  lemma SplitIndex(p: nat, n: nat, w: nat) returns (i: nat, j: nat)
    requires p < n * w
    ensures i < n && j < w && p == i * w + j
  {
    i, j := p / w, p % w;
    if i >= n { MulMonotone(n, i, w); }
  }

  /** The challenge consumes the stream serially: receiver after receiver, chunk after
      chunk, entry p is byte p. */
  lemma ChallengeIsStream(bytes: nat -> nat, n: nat, m: nat, p: nat)
    requires p < n * m * 32
    ensures |Flatten(Flatten(AllChunks(bytes, n, m)))| == n * m * 32
    ensures Flatten(Flatten(AllChunks(bytes, n, m)))[p] == bytes(p) % 256
  {
    hide Flatten;
    var e := AllChunks(bytes, n, m);
    var q, k := SplitIndex(p, n * m, 32);
    var i, j := SplitIndex(q, n, m);
    FlattenRows(e, m, i, j);
    RowsFlat(e, n, m);
    FlattenRows(Flatten(e), 32, q, k);
  }

  /** Flattening once leaves rows of 32 entries. */
  lemma RowsFlat(e: Challenge, n: nat, m: nat)
    requires Shaped(e, n, m)
    ensures |Flatten(e)| == n * m && forall q :: 0 <= q < n * m ==> |Flatten(e)[q]| == 32
  {
    hide Flatten;
    FlattenRows(e, m, 0, 0);
    forall q | 0 <= q < n * m ensures |Flatten(e)[q]| == 32 {
      var i, j := SplitIndex(q, n, m);
      FlattenRows(e, m, i, j);
    }
  }

  /** Entry (i, j, k) is read at one place of the stream. */
  lemma EntryOfStream(e: Challenge, n: nat, m: nat, i: nat, j: nat, k: nat)
    requires Shaped(e, n, m) && i < n && j < m && k < 32
    ensures 0 <= (i * m + j) * 32 + k < |Flatten(Flatten(e))|
    ensures Flatten(Flatten(e))[(i * m + j) * 32 + k] == e[i][j][k]
  {
    hide Flatten;
    FlattenRows(e, m, i, j);
    RowsFlat(e, n, m);
    FlattenRows(Flatten(e), 32, i * m + j, k);
  }

  function ByteAt(s: seq<nat>, p: nat): nat {
    if p < |s| then s[p] else 0
  }

  /** Every challenge of that shape with entries of one byte comes from some stream. */
  lemma EveryChallengeIsStream(e: Challenge, n: nat, m: nat)
    requires Shaped(e, n, m)
    requires forall i, j, k :: 0 <= i < n && 0 <= j < m && 0 <= k < 32 ==> e[i][j][k] < 256
    ensures exists bytes: nat -> nat :: AllChunks(bytes, n, m) == e
  {
    hide Flatten;
    var s := Flatten(Flatten(e));
    var bytes := (p: nat) => ByteAt(s, p);
    forall i, j, k | 0 <= i < n && 0 <= j < m && 0 <= k < 32 ensures AllChunks(bytes, n, m)[i][j][k] == e[i][j][k] {
      EntryOfStream(e, n, m, i, j, k);
    }
    SameChallenge(AllChunks(bytes, n, m), e, n, m);
  }

  lemma SameChallenge(d: Challenge, e: Challenge, n: nat, m: nat)
    requires Shaped(d, n, m) && Shaped(e, n, m)
    requires forall i, j, k :: 0 <= i < n && 0 <= j < m && 0 <= k < 32 ==> d[i][j][k] == e[i][j][k]
    ensures d == e
  {
    forall i | 0 <= i < n ensures d[i] == e[i] {
      forall j | 0 <= j < m ensures d[i][j] == e[i][j] {}
    }
  }

  function FirstChallenge(o: Oracles, pks: seq<G1>, ct: CiphertextChunks, move: FirstMove): (e: Challenge)
    ensures Shaped(e, |pks|, |ct.rr|)
  {
    AllChunks(o.bytes(pks, ct, move), |pks|, |ct.rr|)
  }

  /** The first challenge binds keys, ciphertext and first move: on inputs that differ in
      any of them the oracle may answer with any two challenges. */
  lemma ChallengesBindInputs(pks: seq<G1>, ct: CiphertextChunks, move: FirstMove, e: Challenge, pks': seq<G1>,
                             ct': CiphertextChunks, move': FirstMove, e': Challenge)
    requires (pks, ct, move) != (pks', ct', move')
    requires Shaped(e, |pks|, |ct.rr|) && Shaped(e', |pks'|, |ct'.rr|) && OneByteEach(e) && OneByteEach(e')
    ensures exists o: Oracles :: FirstChallenge(o, pks, ct, move) == e && FirstChallenge(o, pks', ct', move') == e'
  {
    hide AllChunks, Shaped, OneByteEach;
    OneByteStream(e, |pks|, |ct.rr|);
    OneByteStream(e', |pks'|, |ct'.rr|);
    var bytes: nat -> nat :| AllChunks(bytes, |pks|, |ct.rr|) == e;
    var bytes': nat -> nat :| AllChunks(bytes', |pks'|, |ct'.rr|) == e';
    var o := Oracles((a, b, c) => if (a, b, c) == (pks, ct, move) then bytes else bytes', (x, y) => 0);
    assert FirstChallenge(o, pks, ct, move) == e && FirstChallenge(o, pks', ct', move') == e';
  }

  ghost predicate OneByteEach(e: Challenge) {
    forall i, j, k :: 0 <= i < |e| && 0 <= j < |e[i]| && 0 <= k < |e[i][j]| ==> e[i][j][k] < 256
  }

  lemma OneByteStream(e: Challenge, n: nat, m: nat)
    requires Shaped(e, n, m) && OneByteEach(e)
    ensures exists bytes: nat -> nat :: AllChunks(bytes, n, m) == e
  {
    hide AllChunks;
    EveryChallengeIsStream(e, n, m);
  }

  /** The bound on an honest sum of challenge-weighted chunks. */
  function MaxSum(n: nat, m: nat): nat {
    n * m * (CHUNK_SIZE - 1) * CHALLENGE_MASK
  }

  /** The exclusive bound on a published response. */
  function ZBound(n: nat, m: nat): Scalar {
    Red(2 * NUM_ZK_REPETITIONS * MaxSum(n, m))
  }

  // ---- sums over the challenge ----

  /** Repetition k of the row of receiver i. */
  function Layer(row: seq<seq<nat>>, k: nat): (r: seq<nat>)
    requires forall j :: 0 <= j < |row| ==> k < |row[j]|
    ensures |r| == |row| && forall j :: 0 <= j < |r| ==> r[j] == row[j][k]
  {
    seq(|row|, j requires 0 <= j < |row| => row[j][k])
  }

  /** The exponent of R_j: the powers of the second challenge weighted by e[i][j]. */
  function Weighted(xpowers: seq<Scalar>, row: seq<seq<nat>>): (r: seq<Scalar>)
    ensures |r| == |row| && forall j :: 0 <= j < |r| ==> r[j] == Red(Dot(xpowers, row[j]))
  {
    seq(|row|, j requires 0 <= j < |row| => Red(Dot(xpowers, row[j])))
  }

  /** Sum over receivers below n and chunks of c[i][j] * e[i][j][k]. */
  function LayerSum(c: seq<seq<Scalar>>, e: Challenge, k: nat, n: nat): int
    requires n <= |c| && n <= |e|
    requires forall i, j :: 0 <= i < n && 0 <= j < |e[i]| ==> k < |e[i][j]|
  {
    if n == 0 then 0 else LayerSum(c, e, k, n - 1) + Dot(c[n - 1], Layer(e[n - 1], k))
  }

  function LayerSums(c: seq<seq<Scalar>>, e: Challenge, n: nat): (r: seq<int>)
    requires n <= |c| && n <= |e|
    requires forall i, j :: 0 <= i < n && 0 <= j < |e[i]| ==> |e[i][j]| == NUM_ZK_REPETITIONS
    ensures |r| == NUM_ZK_REPETITIONS
    ensures forall k :: 0 <= k < |r| ==> r[k] == LayerSum(c, e, k, n)
  {
    seq(NUM_ZK_REPETITIONS, k requires 0 <= k < NUM_ZK_REPETITIONS => LayerSum(c, e, k, n))
  }

  /** Sum over receivers below n of c[i] against the weighted exponents. */
  function WeightedSum(c: seq<seq<Scalar>>, e: Challenge, xpowers: seq<Scalar>, n: nat): int
    requires n <= |c| && n <= |e|
  {
    if n == 0 then 0 else WeightedSum(c, e, xpowers, n - 1) + Dot(c[n - 1], Weighted(xpowers, e[n - 1]))
  }

  function RowDots(c: seq<int>, row: seq<seq<nat>>, k: nat): (r: seq<int>)
    requires forall j :: 0 <= j < |row| ==> |row[j]| == k
    ensures |r| == k && forall l :: 0 <= l < k ==> r[l] == Dot(c, Layer(row, l))
  {
    seq(k, l requires 0 <= l < k => Dot(c, Layer(row, l)))
  }

  /** The unreduced weighted exponents from the first k repetitions. */
  ghost function PartWeighted(xpowers: seq<int>, row: seq<seq<nat>>, k: nat): (r: seq<int>)
    ensures |r| == |row| && forall j :: 0 <= j < |r| ==> r[j] == DotTo(xpowers, row[j], k)
  {
    seq(|row|, j requires 0 <= j < |row| => DotTo(xpowers, row[j], k))
  }

  /** Exchanging the sum over repetitions with the sum over chunks, one receiver. */
  lemma {:induction false} ExchangeRow(xpowers: seq<int>, c: seq<int>, row: seq<seq<nat>>, k: nat, n: nat)
    requires |xpowers| == n && k <= n && forall j :: 0 <= j < |row| ==> |row[j]| == n
    ensures DotTo(xpowers, RowDots(c, row, n), k) == Dot(c, PartWeighted(xpowers, row, k))
  {
    if k == 0 {
      DotWithZeros(c, PartWeighted(xpowers, row, 0), |c|);
    } else {
      ExchangeRow(xpowers, c, row, k - 1, n);
      var b, l, d := PartWeighted(xpowers, row, k - 1), Layer(row, k - 1), PartWeighted(xpowers, row, k);
      forall j | 0 <= j < |c| ensures At(d, j) == At(b, j) + xpowers[k - 1] * At(l, j) {}
      DotLinear(c, b, l, d, xpowers[k - 1], |c|);
    }
  }

  lemma {:induction false} DotWithZeros(a: seq<int>, b: seq<int>, n: nat)
    requires forall i :: 0 <= i < |b| ==> b[i] == 0
    ensures DotTo(a, b, n) == 0
  {
    if n > 0 { DotWithZeros(a, b, n - 1); }
  }

  /** Exchanging the sum over repetitions with the double sum. */
  lemma {:induction false} Exchange(xpowers: seq<Scalar>, c: seq<seq<Scalar>>, e: Challenge, n: nat)
    requires |xpowers| == NUM_ZK_REPETITIONS && n <= |c| && n <= |e|
    requires forall i, j :: 0 <= i < n && 0 <= j < |e[i]| ==> |e[i][j]| == NUM_ZK_REPETITIONS
    ensures Cong(Dot(xpowers, LayerSums(c, e, n)), WeightedSum(c, e, xpowers, n))
  {
    if n == 0 {
      DotWithZeros(xpowers, LayerSums(c, e, 0), NUM_ZK_REPETITIONS);
    } else {
      Exchange(xpowers, c, e, n - 1);
      ExchangeStep(xpowers, c, e, n);
    }
  }

  lemma ExchangeStep(xpowers: seq<Scalar>, c: seq<seq<Scalar>>, e: Challenge, n: nat)
    requires |xpowers| == NUM_ZK_REPETITIONS && 0 < n <= |c| && n <= |e|
    requires forall i, j :: 0 <= i < n && 0 <= j < |e[i]| ==> |e[i][j]| == NUM_ZK_REPETITIONS
    requires Cong(Dot(xpowers, LayerSums(c, e, n - 1)), WeightedSum(c, e, xpowers, n - 1))
    ensures Cong(Dot(xpowers, LayerSums(c, e, n)), WeightedSum(c, e, xpowers, n))
  {
    var b, d, f := LayerSums(c, e, n - 1), RowDots(c[n - 1], e[n - 1], NUM_ZK_REPETITIONS), LayerSums(c, e, n);
    forall k | 0 <= k < NUM_ZK_REPETITIONS ensures At(f, k) == At(b, k) + 1 * At(d, k) {}
    hide DotTo;
    DotLinear(xpowers, b, d, f, 1, NUM_ZK_REPETITIONS);
    ExchangeRow(xpowers, c[n - 1], e[n - 1], NUM_ZK_REPETITIONS, NUM_ZK_REPETITIONS);
    var part, weighted := PartWeighted(xpowers, e[n - 1], NUM_ZK_REPETITIONS), Weighted(xpowers, e[n - 1]);
    DotCong(c[n - 1], c[n - 1], part, weighted, |c[n - 1]|);
    CongAdd(Dot(xpowers, b), WeightedSum(c, e, xpowers, n - 1), Dot(c[n - 1], part), Dot(c[n - 1], weighted));
  }

  // ---- verification ----

  function LayerScalars(e: Challenge, k: nat): (r: seq<seq<Scalar>>)
    requires forall i, j :: 0 <= i < |e| && 0 <= j < |e[i]| ==> k < |e[i][j]|
    ensures |r| == |e| && forall i :: 0 <= i < |e| ==> r[i] == RedSeq(Layer(e[i], k))
  {
    seq(|e|, i requires 0 <= i < |e| => RedSeq(Layer(e[i], k)))
  }

  /** Product over i, j of C_ij^e_ijk, times cc_k, for every repetition k. */
  function ChunkProducts(ct: CiphertextChunks, e: Challenge, cc: seq<G1>): (r: seq<G1>)
    requires |cc| == NUM_ZK_REPETITIONS
    requires forall i, j :: 0 <= i < |e| && 0 <= j < |e[i]| ==> |e[i][j]| == NUM_ZK_REPETITIONS
    ensures |r| == NUM_ZK_REPETITIONS
    ensures forall k :: 0 <= k < |r| ==> r[k] == Add(MultiExp(Flatten(ct.cc), Flatten(LayerScalars(e, k))), cc[k])
  {
    seq(NUM_ZK_REPETITIONS, k requires 0 <= k < NUM_ZK_REPETITIONS =>
      Add(MultiExp(Flatten(ct.cc), Flatten(LayerScalars(e, k))), cc[k]))
  }

  predicate LengthsMatch(n: nat, p: ProofChunking) {
    |p.bb| == |p.cc| == |p.zs| == NUM_ZK_REPETITIONS && |p.dd| == n + 1 && |p.zr| == n
  }

  predicate InRange(zs: seq<Scalar>, n: nat, m: nat) {
    forall k :: 0 <= k < |zs| ==> zs[k] < ZBound(n, m)
  }

  predicate RandomnessEquation(rr: seq<G1>, row: seq<seq<nat>>, xpowers: seq<Scalar>, d: G1, z: Scalar) {
    Add(MultiExp(rr, Weighted(xpowers, row)), d) == Times(G1_GENERATOR, z)
  }

  predicate BlindingEquation(p: ProofChunking, xpowers: seq<Scalar>)
    requires |p.dd| > 0
  {
    Add(MultiExp(p.bb, xpowers), p.dd[0]) == Times(G1_GENERATOR, p.zbeta)
  }

  predicate ChunkEquation(pks: seq<G1>, ct: CiphertextChunks, p: ProofChunking, e: Challenge, xpowers: seq<Scalar>)
    requires |p.cc| == NUM_ZK_REPETITIONS && Shaped(e, |pks|, |ct.rr|)
  {
    Add(MultiExp(ChunkProducts(ct, e, p.cc), xpowers), p.yy) ==
      Add(MultiExp(pks, p.zr), MultiExp([p.y0, G1_GENERATOR], [p.zbeta, Red(Dot(p.zs, xpowers))]))
  }

  /** `verify_chunking` returns Ok. */
  ghost predicate VerifyChunking(o: Oracles, pks: seq<G1>, ct: CiphertextChunks, p: ProofChunking) {
    var n, m := |pks|, |ct.rr|;
    var e := FirstChallenge(o, pks, ct, FirstMove(p.y0, p.bb, p.cc));
    var xpowers := XPowers(o.second(e, SecondMove(p.zs, p.dd, p.yy)), NUM_ZK_REPETITIONS);
    && LengthsMatch(n, p)
    && InRange(p.zs, n, m)
    && (forall i :: 0 <= i < n ==> RandomnessEquation(ct.rr, e[i], xpowers, p.dd[i + 1], p.zr[i]))
    && BlindingEquation(p, xpowers)
    && |Flatten(ct.cc)| == m * n
    && ChunkEquation(pks, ct, p, e, xpowers)
  }

  // ---- the prover ----

  /** The random values of the prover; `draws` are the successive attempts of the
      rejection loop. */
  datatype ProverCoins = ProverCoins(y0: G1, beta: seq<Scalar>, draws: seq<seq<Scalar>>, delta: seq<Scalar>)

  ghost predicate CoinsFit(c: ProverCoins, n: nat) {
    && |c.beta| == NUM_ZK_REPETITIONS && |c.delta| == n + 1
    && forall a :: 0 <= a < |c.draws| ==> |c.draws[a]| == NUM_ZK_REPETITIONS
  }

  /** A draw shifted down by the bound on the sum it has to hide. */
  function Sigma(draw: seq<Scalar>, n: nat, m: nat): (r: seq<Scalar>)
    ensures |r| == |draw|
    ensures forall k :: 0 <= k < |r| ==> r[k] == Add(draw[k], Neg(Red(MaxSum(n, m))))
  {
    seq(|draw|, k requires 0 <= k < |draw| => Add(draw[k], Neg(Red(MaxSum(n, m)))))
  }

  function Commitments(y0: G1, beta: seq<Scalar>, sigma: seq<Scalar>): (r: seq<G1>)
    requires |beta| == |sigma|
    ensures |r| == |beta|
    ensures forall k :: 0 <= k < |r| ==> r[k] == MultiExp([y0, G1_GENERATOR], [beta[k], sigma[k]])
  {
    seq(|beta|, k requires 0 <= k < |beta| => MultiExp([y0, G1_GENERATOR], [beta[k], sigma[k]]))
  }

  /** The responses: the challenge-weighted sums of the chunks, hidden by sigma. */
  function Responses(e: Challenge, s: seq<seq<Scalar>>, sigma: seq<Scalar>): (r: seq<Scalar>)
    requires |s| == |e| && |sigma| == NUM_ZK_REPETITIONS
    requires forall i, j :: 0 <= i < |e| && 0 <= j < |e[i]| ==> |e[i][j]| == NUM_ZK_REPETITIONS
    ensures |r| == NUM_ZK_REPETITIONS
    ensures forall k :: 0 <= k < |r| ==> r[k] == Red(LayerSum(s, e, k, |e|) + sigma[k])
  {
    seq(NUM_ZK_REPETITIONS, k requires 0 <= k < NUM_ZK_REPETITIONS => Red(LayerSum(s, e, k, |e|) + sigma[k]))
  }

  function ChunkScalars(chunks: seq<seq<nat>>): (r: seq<seq<Scalar>>)
    ensures |r| == |chunks| && forall i :: 0 <= i < |r| ==> r[i] == RedSeq(chunks[i])
  {
    seq(|chunks|, i requires 0 <= i < |chunks| => RedSeq(chunks[i]))
  }

  /** The inner accumulation over one receiver. */
  method AddRow(acc0: Scalar, s: seq<Scalar>, row: seq<seq<nat>>, k: nat) returns (acc: Scalar)
    requires |row| == |s| && forall j :: 0 <= j < |row| ==> k < |row[j]|
    ensures acc == Red(acc0 + Dot(s, Layer(row, k)))
  {
    acc := acc0;
    for j := 0 to |row|
      invariant acc == Red(acc0 + DotTo(s, Layer(row, k), j))
    {
      hide DotTo, Add, Mul;
      RowStep(s, Layer(row, k), j, acc0, acc);
      acc := Add(acc, Mul(Red(row[j][k]), s[j]));
    }
  }

  lemma RowStep(s: seq<int>, l: seq<int>, j: nat, acc0: int, acc: int)
    requires j < |s| == |l| && Cong(acc, acc0 + DotTo(s, l, j))
    ensures Add(acc, Mul(Red(l[j]), s[j])) == Red(acc0 + DotTo(s, l, j + 1))
  {
    var u, v, d := s[j], l[j], DotTo(s, l, j);
    CongMul(Red(v), v, u, u);
    MulCommutes(u, v);
    CongAdd(acc, acc0 + d, Mul(Red(v), u), v * u);
  }

  lemma RespondStep(s: seq<seq<Scalar>>, e: Challenge, k: nat, i: nat, acc: Scalar)
    requires i < |s| == |e| && forall i, j :: 0 <= i < |e| && 0 <= j < |e[i]| ==> k < |e[i][j]|
    requires acc == Red(LayerSum(s, e, k, i))
    ensures Red(acc + Dot(s[i], Layer(e[i], k))) == Red(LayerSum(s, e, k, i + 1))
  {
    hide Dot;
    var d := Dot(s[i], Layer(e[i], k));
    CongAdd(acc, LayerSum(s, e, k, i), d, d);
  }

  /** One response, by the nested accumulation of `prove_chunking`. */
  method Respond(e: Challenge, s: seq<seq<Scalar>>, k: nat, sigma: Scalar) returns (acc: Scalar)
    requires |s| == |e| && forall i :: 0 <= i < |e| ==> |s[i]| == |e[i]|
    requires forall i, j :: 0 <= i < |e| && 0 <= j < |e[i]| ==> k < |e[i][j]|
    ensures acc == Red(LayerSum(s, e, k, |e|) + sigma)
  {
    hide Add, Dot;
    acc := 0;
    assert acc == Red(LayerSum(s, e, k, 0));
    for i := 0 to |e|
      invariant acc == Red(LayerSum(s, e, k, i))
    {
      RespondStep(s, e, k, i, acc);
      hide LayerSum, Dot;
      acc := AddRow(acc, s[i], e[i], k);
    }
    AddSigma(acc, LayerSum(s, e, k, |e|), sigma);
    acc := Add(acc, sigma);
  }

  lemma AddSigma(acc: int, sum: int, sigma: int)
    requires Cong(acc, sum)
    ensures Add(acc, sigma) == Red(sum + sigma)
  {
    CongAdd(acc, sum, sigma, sigma);
  }

  method RespondAll(e: Challenge, s: seq<seq<Scalar>>, sigma: seq<Scalar>) returns (zs: seq<Scalar>)
    requires |s| == |e| && |sigma| == NUM_ZK_REPETITIONS && forall i :: 0 <= i < |e| ==> |s[i]| == |e[i]|
    requires forall i, j :: 0 <= i < |e| && 0 <= j < |e[i]| ==> |e[i][j]| == NUM_ZK_REPETITIONS
    ensures zs == Responses(e, s, sigma)
  {
    hide LayerSum;
    zs := [];
    for k := 0 to NUM_ZK_REPETITIONS
      invariant |zs| == k && forall l :: 0 <= l < k ==> zs[l] == Red(LayerSum(s, e, l, |e|) + sigma[l])
    {
      var z := Respond(e, s, k, sigma[k]);
      zs := zs + [z];
    }
  }
}
