/** Every chunking proof that leaves the rejection loop is accepted. */
module ChunkingCompleteness {
  import opened ScalarField
  import opened PolynomialAlgebra
  import opened Interpolation
  import opened Group
  import opened NivssUtils
  import opened Chunking
  import opened Encryption
  import opened NizkChunking
  import opened ChunkingProver
  import opened Scheme

  // ---- the flattened products ----

  lemma {:induction false} DotAppend(a: seq<int>, b: seq<int>, c: seq<int>, d: seq<int>, n: nat)
    requires |a| == |c|
    ensures DotTo(a + b, c + d, |a| + n) == DotTo(a, c, |a|) + DotTo(b, d, n)
  {
    if n > 0 {
      DotAppend(a, b, c, d, n - 1);
      assert At(a + b, |a| + n - 1) == At(b, n - 1) && At(c + d, |a| + n - 1) == At(d, n - 1);
    } else {
      PrefixDot(a, b, c, d, |a|);
    }
  }

  lemma {:induction false} PrefixDot(a: seq<int>, b: seq<int>, c: seq<int>, d: seq<int>, n: nat)
    requires n <= |a| == |c|
    ensures DotTo(a + b, c + d, n) == DotTo(a, c, n)
  {
    if n > 0 { PrefixDot(a, b, c, d, n - 1); }
  }

  lemma {:induction false} FlattenLength(rows: seq<seq<Scalar>>, m: nat)
    requires forall i :: 0 <= i < |rows| ==> |rows[i]| == m
    ensures |Flatten(rows)| == m * |rows|
  {
    if |rows| > 0 {
      FlattenLength(rows[..|rows| - 1], m);
      MulDistribute(m, |rows|, 1);
    }
  }

  /** The flattened product of repetition k is the sum over its layer. */
  lemma {:induction false} FlattenLayer(c: seq<seq<Scalar>>, e: Challenge, k: nat, m: nat, n: nat)
    requires n <= |c| == |e| && k < NUM_ZK_REPETITIONS
    requires Shaped(e, |e|, m) && forall i :: 0 <= i < |c| ==> |c[i]| == m
    ensures Cong(Dot(Flatten(c[..n]), Flatten(LayerScalars(e, k)[..n])), LayerSum(c, e, k, n))
  {
    hide Flatten, Dot, DotTo, LayerSum, LayerScalars;
    var ls := LayerScalars(e, k);
    if n == 0 {
      FlattenNone(c, e, k);
    } else {
      FlattenLayer(c, e, k, m, n - 1);
      FlattenLast(c, n);
      FlattenLast(ls, n);
      NextLayer(c, e, k, n);
      FlattenLength(c[..n - 1], m);
      FlattenLength(ls[..n - 1], m);
      FlattenStep(Flatten(c[..n - 1]), Flatten(ls[..n - 1]), c[n - 1], Layer(e[n - 1], k), LayerSum(c, e, k, n - 1));
    }
  }

  lemma FlattenNone(c: seq<seq<Scalar>>, e: Challenge, k: nat)
    requires forall i, j :: 0 <= i < |e| && 0 <= j < |e[i]| ==> k < |e[i][j]|
    ensures Dot(Flatten(c[..0]), Flatten(LayerScalars(e, k)[..0])) == 0 == LayerSum(c, e, k, 0)
  {}

  lemma NextLayer(c: seq<seq<Scalar>>, e: Challenge, k: nat, n: nat)
    requires 0 < n <= |c| && n <= |e| && forall i, j :: 0 <= i < |e| && 0 <= j < |e[i]| ==> k < |e[i][j]|
    ensures LayerSum(c, e, k, n) == LayerSum(c, e, k, n - 1) + Dot(c[n - 1], Layer(e[n - 1], k))
  {
    hide Dot, Layer;
  }

  lemma FlattenLast(rows: seq<seq<Scalar>>, n: nat)
    requires 0 < n <= |rows|
    ensures Flatten(rows[..n]) == Flatten(rows[..n - 1]) + rows[n - 1]
  {
    assert rows[..n][..n - 1] == rows[..n - 1];
  }

  lemma FlattenStep(a: seq<Scalar>, b: seq<Scalar>, row: seq<Scalar>, l: seq<nat>, sum: int)
    requires |a| == |b| && |row| == |l| && Cong(Dot(a, b), sum)
    ensures Cong(Dot(a + row, b + RedSeq(l)), sum + Dot(row, l))
  {
    hide Dot, RedSeq;
    var r := RedSeq(l);
    DotConcat(a, row, b, r);
    DotResidues(row, l);
    CongAdd(Dot(a, b), sum, Dot(row, r), Dot(row, l));
  }

  lemma DotConcat(a: seq<int>, b: seq<int>, c: seq<int>, d: seq<int>)
    requires |a| == |c| && |b| == |d|
    ensures Dot(a + b, c + d) == Dot(a, c) + Dot(b, d)
  {
    hide DotTo;
    DotAppend(a, b, c, d, |b|);
  }

  lemma DotResidues(row: seq<int>, l: seq<int>)
    requires |row| == |l|
    ensures Cong(Dot(row, RedSeq(l)), Dot(row, l))
  {
    hide DotTo;
    DotCong(row, row, RedSeq(l), l, |row|);
  }

  // ---- a ciphertext splits into its chunk and its mask ----

  function KeyDots(pks: seq<G1>, e: Challenge, r: seq<Scalar>, xpowers: seq<Scalar>): (d: seq<int>)
    ensures |d| == |e| && forall i :: 0 <= i < |e| ==> d[i] == Dot(r, Weighted(xpowers, e[i]))
  {
    seq(|e|, i requires 0 <= i < |e| => Dot(r, Weighted(xpowers, e[i])))
  }

  /** C_ij is s_ij + pk_i * r_j in the exponent. */
  ghost predicate SplitRow(c: seq<Scalar>, s: seq<Scalar>, pk: G1, r: seq<Scalar>) {
    |c| == |s| == |r| && forall j :: 0 <= j < |c| ==> Cong(c[j], s[j] + pk * r[j])
  }

  lemma EncryptedRowSplits(pk: G1, r: seq<Scalar>, chunks: seq<nat>)
    requires |r| == |chunks|
    ensures SplitRow(EncryptedRow(pk, r, chunks), RedSeq(chunks), pk, r)
  {
    forall j | 0 <= j < |r| ensures Cong(EncryptedRow(pk, r, chunks)[j], RedSeq(chunks)[j] + pk * r[j]) {
      hide MultiExp;
      PairValue(pk, G1_GENERATOR, r[j], Red(chunks[j]));
      ChunkTerm(MultiExp([pk, G1_GENERATOR], [r[j], Red(chunks[j])]), pk * r[j], Red(chunks[j]));
    }
  }

  lemma ChunkTerm(c: int, mask: int, x: int)
    requires Cong(c, mask + Red(1) * x)
    ensures Cong(c, x + mask)
  {
    CongMul(Red(1), 1, x, x);
    CongAdd(mask, mask, Red(1) * x, x);
  }

  lemma SplitDot(c: seq<Scalar>, s: seq<Scalar>, pk: G1, r: seq<Scalar>, w: seq<Scalar>)
    requires SplitRow(c, s, pk, r)
    ensures Cong(Dot(c, w), Dot(s, w) + pk * Dot(r, w))
  {
    hide DotTo;
    var n, k := |c|, pk as int;
    var d: seq<int> := seq(n, j requires 0 <= j < n => s[j] + k * r[j]);
    DotCong(c, d, w, w, n);
    DotLinear(w, s, r, d, k, n);
    DotCommutes(w, d, n);
    DotCommutes(w, s, n);
    DotCommutes(w, r, n);
  }

  /** The chunk ciphertexts against the weighted exponents: the chunks against
      them, and the keys against the masks. */
  lemma {:induction false} SplitSum(pks: seq<G1>, c: seq<seq<Scalar>>, s: seq<seq<Scalar>>, r: seq<Scalar>, e: Challenge,
                                    xpowers: seq<Scalar>, n: nat)
    requires n <= |pks| == |c| == |s| == |e|
    requires forall i :: 0 <= i < |pks| ==> SplitRow(c[i], s[i], pks[i], r)
    ensures Cong(WeightedSum(c, e, xpowers, n),
                 WeightedSum(s, e, xpowers, n) + DotTo(pks, KeyDots(pks, e, r, xpowers), n))
  {
    hide Dot, DotTo, SplitRow, KeyDots, Weighted, WeightedSum;
    var kd := KeyDots(pks, e, r, xpowers);
    if n == 0 {
      EmptySums(pks, c, s, e, xpowers, kd);
    } else {
      SplitSum(pks, c, s, r, e, xpowers, n - 1);
      var w := Weighted(xpowers, e[n - 1]);
      var t := NextKeyTerm(pks, e, r, xpowers, n);
      NextWeighted(c, e, xpowers, n);
      NextWeighted(s, e, xpowers, n);
      SplitDot(c[n - 1], s[n - 1], pks[n - 1], r, w);
      AddSplit(WeightedSum(c, e, xpowers, n - 1), WeightedSum(s, e, xpowers, n - 1), DotTo(pks, kd, n - 1),
               Dot(c[n - 1], w), Dot(s[n - 1], w), t);
    }
  }

  lemma EmptySums(pks: seq<G1>, c: seq<seq<Scalar>>, s: seq<seq<Scalar>>, e: Challenge, xpowers: seq<Scalar>, kd: seq<int>)
    ensures WeightedSum(c, e, xpowers, 0) == WeightedSum(s, e, xpowers, 0) == DotTo(pks, kd, 0) == 0
  {}

  lemma NextKeyTerm(pks: seq<G1>, e: Challenge, r: seq<Scalar>, xpowers: seq<Scalar>, n: nat) returns (t: int)
    requires 0 < n <= |pks| == |e|
    ensures t == pks[n - 1] * Dot(r, Weighted(xpowers, e[n - 1]))
    ensures var kd := KeyDots(pks, e, r, xpowers); DotTo(pks, kd, n) == DotTo(pks, kd, n - 1) + t
  {
    hide Dot, Weighted;
    t := pks[n - 1] * Dot(r, Weighted(xpowers, e[n - 1]));
  }

  lemma NextWeighted(c: seq<seq<Scalar>>, e: Challenge, xpowers: seq<Scalar>, n: nat)
    requires 0 < n <= |c| && n <= |e|
    ensures WeightedSum(c, e, xpowers, n) ==
      WeightedSum(c, e, xpowers, n - 1) + Dot(c[n - 1], Weighted(xpowers, e[n - 1]))
  {
    hide Dot, Weighted;
  }

  lemma AddSplit(wc: int, ws: int, k: int, dc: int, ds: int, t: int)
    requires Cong(wc, ws + k) && Cong(dc, ds + t)
    ensures Cong(wc + dc, (ws + ds) + (k + t))
  {
    CongAdd(wc, ws + k, dc, ds + t);
  }

  // ---- the two sides of the chunk equation ----

  /** Product of the commitments cc_k against the powers. */
  lemma CommitmentsDot(y0: G1, beta: seq<Scalar>, sigma: seq<Scalar>, xpowers: seq<Scalar>)
    requires |beta| == |sigma| == |xpowers|
    ensures Cong(Dot(xpowers, Commitments(y0, beta, sigma)), Dot(xpowers, sigma) + y0 * Dot(xpowers, beta))
  {
    hide DotTo, MultiExp;
    var n, y, cc := |beta|, y0 as int, Commitments(y0, beta, sigma);
    var d: seq<int> := seq(n, k requires 0 <= k < n => sigma[k] + y * beta[k]);
    forall k | 0 <= k < n ensures Cong(At(cc, k), At(d, k)) {
      PairValue(y0, G1_GENERATOR, beta[k], sigma[k]);
      ChunkTerm(cc[k], y0 * beta[k], sigma[k]);
    }
    DotCong(xpowers, xpowers, cc, d, n);
    DotLinear(xpowers, sigma, beta, d, y, n);
  }

  ghost predicate EntrySum(t: seq<int>, a: seq<int>, b: seq<int>, i: nat) {
    Cong(At(t, i), At(a, i) + At(b, i))
  }

  lemma {:induction false} SumOfVectors(w: seq<int>, a: seq<int>, b: seq<int>, t: seq<int>, n: nat)
    requires forall i :: 0 <= i < n ==> EntrySum(t, a, b, i)
    ensures Cong(DotTo(w, t, n), DotTo(w, a, n) + DotTo(w, b, n))
  {
    if n > 0 {
      SumOfVectors(w, a, b, t, n - 1);
      assert EntrySum(t, a, b, n - 1);
      SumOfTerms(At(w, n - 1), At(a, n - 1), At(b, n - 1), At(t, n - 1), DotTo(w, a, n - 1), DotTo(w, b, n - 1),
                 DotTo(w, t, n - 1));
    }
  }

  lemma SumOfTerms(w: int, a: int, b: int, t: int, da: int, db: int, dt: int)
    requires Cong(t, a + b) && Cong(dt, da + db)
    ensures Cong(dt + w * t, (da + w * a) + (db + w * b))
  {
    CongMul(w, w, t, a + b);
    MulDistribute(w, a, b);
    CongAdd(dt, da + db, w * t, w * (a + b));
  }

  /** Left side: the flattened products, cc and yy. */
  lemma LeftSide(ct: CiphertextChunks, e: Challenge, cc: seq<G1>, xpowers: seq<Scalar>, m: nat)
    requires |xpowers| == |cc| == NUM_ZK_REPETITIONS && |ct.cc| == |e| && Shaped(e, |e|, m)
    requires forall i :: 0 <= i < |ct.cc| ==> |ct.cc[i]| == m
    ensures Cong(MultiExp(ChunkProducts(ct, e, cc), xpowers),
                 WeightedSum(ct.cc, e, xpowers, |e|) + Dot(xpowers, cc))
  {
    hide DotTo, MultiExp, Flatten, LayerSum, WeightedSum;
    var products, sums := ChunkProducts(ct, e, cc), LayerSums(ct.cc, e, |e|);
    forall k | 0 <= k < NUM_ZK_REPETITIONS ensures EntrySum(products, sums, cc, k) { ProductEntry(ct, e, cc, k, m); }
    hide EntrySum, ChunkProducts, LayerSums;
    SumOfVectors(xpowers, sums, cc, products, NUM_ZK_REPETITIONS);
    Exchange(xpowers, ct.cc, e, |e|);
    CongAdd(Dot(xpowers, sums), WeightedSum(ct.cc, e, xpowers, |e|), Dot(xpowers, cc), Dot(xpowers, cc));
    MultiExpIsDot(products, xpowers);
  }

  lemma MultiExpIsDot(points: seq<G1>, scalars: seq<Scalar>)
    requires |points| == |scalars|
    ensures Cong(MultiExp(points, scalars), Dot(scalars, points))
  {
    DotCommutes(points, scalars, |points|);
    hide DotTo;
  }

  lemma ProductEntry(ct: CiphertextChunks, e: Challenge, cc: seq<G1>, k: nat, m: nat)
    requires k < |cc| == NUM_ZK_REPETITIONS && |ct.cc| == |e| && Shaped(e, |e|, m)
    requires forall i :: 0 <= i < |ct.cc| ==> |ct.cc[i]| == m
    ensures Cong(ChunkProducts(ct, e, cc)[k], LayerSum(ct.cc, e, k, |e|) + cc[k])
  {
    hide DotTo, Flatten, LayerSum, LayerScalars;
    var ls := LayerScalars(e, k);
    FlattenLayer(ct.cc, e, k, m, |e|);
    assert ct.cc[..|e|] == ct.cc && ls[..|e|] == ls;
    var c: int := cc[k];
    CongAdd(MultiExp(Flatten(ct.cc), Flatten(ls)), LayerSum(ct.cc, e, k, |e|), c, c);
  }

  lemma ResponseEntry(e: Challenge, s: seq<seq<Scalar>>, sigma: seq<Scalar>, k: nat)
    requires |s| == |e| && k < |sigma| == NUM_ZK_REPETITIONS
    requires forall i, j :: 0 <= i < |e| && 0 <= j < |e[i]| ==> |e[i][j]| == NUM_ZK_REPETITIONS
    ensures EntrySum(Responses(e, s, sigma), LayerSums(s, e, |e|), sigma, k)
  {
    hide LayerSum;
    var zs := Responses(e, s, sigma);
    var t, l, g: int := zs[k], LayerSum(s, e, k, |e|), sigma[k];
    assert t == Red(l + g);
  }

  /** The published responses against the powers. */
  lemma ResponsesDot(e: Challenge, s: seq<seq<Scalar>>, sigma: seq<Scalar>, xpowers: seq<Scalar>)
    requires |s| == |e| && |sigma| == |xpowers| == NUM_ZK_REPETITIONS
    requires forall i, j :: 0 <= i < |e| && 0 <= j < |e[i]| ==> |e[i][j]| == NUM_ZK_REPETITIONS
    ensures Cong(Dot(Responses(e, s, sigma), xpowers), WeightedSum(s, e, xpowers, |e|) + Dot(xpowers, sigma))
  {
    hide Dot, LayerSum, WeightedSum, Responses, LayerSums;
    var zs, sums := Responses(e, s, sigma), LayerSums(s, e, |e|);
    ResponseEntries(e, s, sigma, xpowers);
    Exchange(xpowers, s, e, |e|);
    CongAdd(Dot(xpowers, sums), WeightedSum(s, e, xpowers, |e|), Dot(xpowers, sigma), Dot(xpowers, sigma));
  }

  lemma ResponseEntries(e: Challenge, s: seq<seq<Scalar>>, sigma: seq<Scalar>, xpowers: seq<Scalar>)
    requires |s| == |e| && |sigma| == |xpowers| == NUM_ZK_REPETITIONS
    requires forall i, j :: 0 <= i < |e| && 0 <= j < |e[i]| ==> |e[i][j]| == NUM_ZK_REPETITIONS
    ensures Cong(Dot(Responses(e, s, sigma), xpowers), Dot(xpowers, LayerSums(s, e, |e|)) + Dot(xpowers, sigma))
  {
    hide DotTo, LayerSum, EntrySum;
    var zs, sums := Responses(e, s, sigma), LayerSums(s, e, |e|);
    forall k | 0 <= k < NUM_ZK_REPETITIONS ensures EntrySum(zs, sums, sigma, k) { ResponseEntry(e, s, sigma, k); }
    SumOfVectors(xpowers, sums, sigma, zs, NUM_ZK_REPETITIONS);
    DotCommutes(zs, xpowers, NUM_ZK_REPETITIONS);
  }

  /** The blinding of the keys. */
  lemma BlindingDot(y0: G1, pks: seq<G1>, delta: seq<Scalar>)
    requires |delta| == |pks| + 1
    ensures Cong(MultiExp([y0] + pks, delta), y0 * delta[0] + Dot(pks, delta[1..]))
  {
    assert delta == [delta[0]] + delta[1..];
    var a: seq<int>, b: seq<int>, c: seq<int>, d: seq<int> := [y0], pks, [delta[0]], delta[1..];
    DotAppend(a, b, c, d, |pks|);
    assert DotTo(a, c, 1) == DotTo(a, c, 0) + a[0] * c[0];
  }

  lemma KeyResponseEntry(pks: seq<G1>, e: Challenge, r: seq<Scalar>, xpowers: seq<Scalar>, delta: seq<Scalar>, i: nat)
    requires i < |e| && |delta| == |e| + 1
    ensures EntrySum(RowResponses(e, r, xpowers, delta), KeyDots(pks, e, r, xpowers), delta[1..], i)
  {
    hide Dot, Weighted;
    var k, d: int := Dot(r, Weighted(xpowers, e[i])), delta[i + 1];
    CongAdd(Red(k), k, d, d);
  }

  lemma KeyResponsesDot(pks: seq<G1>, e: Challenge, r: seq<Scalar>, xpowers: seq<Scalar>, delta: seq<Scalar>)
    requires |e| == |pks| && |delta| == |pks| + 1
    ensures Cong(MultiExp(pks, RowResponses(e, r, xpowers, delta)),
                 DotTo(pks, KeyDots(pks, e, r, xpowers), |e|) + Dot(pks, delta[1..]))
  {
    hide DotTo;
    var zr, kd := RowResponses(e, r, xpowers, delta), KeyDots(pks, e, r, xpowers);
    var tail := delta[1..];
    forall i | 0 <= i < |pks| ensures EntrySum(zr, kd, tail, i) { KeyResponseEntry(pks, e, r, xpowers, delta, i); }
    hide RowResponses, KeyDots, EntrySum;
    SumOfVectors(pks, kd, tail, zr, |pks|);
  }

  // ---- the three equations ----

  lemma RandomnessEquationHolds(r: seq<Scalar>, row: seq<seq<nat>>, xpowers: seq<Scalar>, d: Scalar)
    ensures RandomnessEquation(BatchMul(G1_GENERATOR, r), row, xpowers, Times(G1_GENERATOR, d),
                               Add(Red(Dot(r, Weighted(xpowers, row))), d))
  {
    hide Dot, Times, Add, BatchMul;
    GeneratorMultiples(r);
    TimesGenerator(d);
    TimesGenerator(Add(Red(Dot(r, Weighted(xpowers, row))), d));
  }

  lemma BlindingEquationHolds(p: ProofChunking, beta: seq<Scalar>, delta: seq<Scalar>, xpowers: seq<Scalar>)
    requires p.bb == BatchMul(G1_GENERATOR, beta) && p.dd == BatchMul(G1_GENERATOR, delta) && |delta| > 0
    requires p.zbeta == Add(Red(Dot(beta, xpowers)), delta[0])
    ensures BlindingEquation(p, xpowers)
  {
    hide Dot, Times, Add, BatchMul;
    GeneratorMultiples(beta);
    GeneratorMultiples(delta);
    TimesGenerator(p.zbeta);
  }

  /** Both sides of the last equation consist of the same sums. */
  lemma SidesAgree(y0: int, left: int, yy: int, wc: int, ws: int, keys: int, ccs: int, sig: int, bet: int, d0: int, ds: int,
                   kr: int, pair: int, zbeta: int, acc: int)
    requires Cong(left, wc + ccs) && Cong(wc, ws + keys) && Cong(ccs, sig + y0 * bet) && Cong(yy, y0 * d0 + ds)
    requires Cong(kr, keys + ds) && Cong(pair, y0 * zbeta + Red(1) * acc)
    requires Cong(zbeta, bet + d0) && Cong(acc, ws + sig)
    ensures Add(left, yy) == Add(kr, pair)
  {
    var b, d := y0 * bet, y0 * d0;
    LeftTotal(left, yy, wc, ws, keys, ccs, sig, b, d, ds);
    ResponseProduct(y0, zbeta, bet, d0);
    RightTotal(kr, pair, keys, ds, y0 * zbeta, b + d, acc, ws + sig);
  }

  lemma LeftTotal(left: int, yy: int, wc: int, ws: int, keys: int, ccs: int, sig: int, b: int, d: int, ds: int)
    requires Cong(left, wc + ccs) && Cong(wc, ws + keys) && Cong(ccs, sig + b) && Cong(yy, d + ds)
    ensures Add(left, yy) == Red(ws + keys + sig + b + d + ds)
  {
    CongAdd(wc, ws + keys, ccs, sig + b);
    CongAdd(left, ws + keys + sig + b, yy, d + ds);
  }

  lemma ResponseProduct(y0: int, zbeta: int, bet: int, d0: int)
    requires Cong(zbeta, bet + d0)
    ensures Cong(y0 * zbeta, y0 * bet + y0 * d0)
  {
    CongMul(y0, y0, zbeta, bet + d0);
    MulDistribute(y0, bet, d0);
  }

  lemma RightTotal(kr: int, pair: int, keys: int, ds: int, yz: int, yb: int, acc: int, sum: int)
    requires Cong(kr, keys + ds) && Cong(pair, yz + Red(1) * acc) && Cong(yz, yb) && Cong(acc, sum)
    ensures Add(kr, pair) == Red(keys + ds + yb + sum)
  {
    CongMul(Red(1), 1, acc, sum);
    CongAdd(yz, yb, Red(1) * acc, sum);
    CongAdd(kr, keys + ds, pair, yb + sum);
  }

  /** The ciphertext, its witness and what a proof is assembled from. */
  ghost predicate Instance(pks: seq<G1>, ct: CiphertextChunks, r: seq<Scalar>, s: seq<seq<Scalar>>) {
    && |s| == |pks| == |ct.cc| && |r| == |ct.rr| && ct.rr == BatchMul(G1_GENERATOR, r)
    && forall i :: 0 <= i < |pks| ==> |ct.cc[i]| == |ct.rr| && SplitRow(ct.cc[i], s[i], pks[i], r)
  }

  lemma ChunkEquationHolds(pks: seq<G1>, ct: CiphertextChunks, r: seq<Scalar>, s: seq<seq<Scalar>>, e: Challenge,
                           xpowers: seq<Scalar>, beta: seq<Scalar>, sigma: seq<Scalar>, delta: seq<Scalar>, p: ProofChunking)
    requires Instance(pks, ct, r, s) && Shaped(e, |pks|, |ct.rr|) && |e| == |pks|
    requires |beta| == |sigma| == |xpowers| == NUM_ZK_REPETITIONS && |delta| == |pks| + 1
    requires p.cc == Commitments(p.y0, beta, sigma) && p.zs == Responses(e, s, sigma)
    requires p.yy == MultiExp([p.y0] + pks, delta) && p.zr == RowResponses(e, r, xpowers, delta)
    requires p.zbeta == Add(Red(Dot(beta, xpowers)), delta[0])
    ensures ChunkEquation(pks, ct, p, e, xpowers)
  {
    hide Dot, DotTo, MultiExp, WeightedSum, ChunkProducts, Responses, RowResponses, Commitments, KeyDots, SplitRow;
    var y0: int := p.y0;
    LeftSide(ct, e, p.cc, xpowers, |ct.rr|);
    SplitSum(pks, ct.cc, s, r, e, xpowers, |pks|);
    CommitmentsDot(p.y0, beta, sigma, xpowers);
    BlindingDot(p.y0, pks, delta);
    KeyResponsesDot(pks, e, r, xpowers, delta);
    ResponsesDot(e, s, sigma, xpowers);
    BetaResponse(beta, xpowers, delta[0]);
    PairValue(p.y0, G1_GENERATOR, p.zbeta, Red(Dot(p.zs, xpowers)));
    SidesAgree(y0, MultiExp(ChunkProducts(ct, e, p.cc), xpowers), p.yy,
               WeightedSum(ct.cc, e, xpowers, |e|), WeightedSum(s, e, xpowers, |e|),
               DotTo(pks, KeyDots(pks, e, r, xpowers), |e|), Dot(xpowers, p.cc), Dot(xpowers, sigma), Dot(xpowers, beta),
               delta[0], Dot(pks, delta[1..]), MultiExp(pks, p.zr),
               MultiExp([p.y0, G1_GENERATOR], [p.zbeta, Red(Dot(p.zs, xpowers))]), p.zbeta, Red(Dot(p.zs, xpowers)));
  }

  lemma BetaResponse(beta: seq<Scalar>, xpowers: seq<Scalar>, d: Scalar)
    requires |beta| == |xpowers|
    ensures Cong(Add(Red(Dot(beta, xpowers)), d), Dot(xpowers, beta) + d)
  {
    DotCommutes(beta, xpowers, |beta|);
    hide DotTo;
    var b, k: int := Dot(beta, xpowers), d;
    CongAdd(Red(b), b, k, k);
  }

  /** Completeness: whatever the oracles answer, a proof assembled from a draw whose
      responses lie in range is accepted. */
  lemma ChunkingComplete(o: Oracles, pks: seq<G1>, plaintexts: seq<seq<nat>>, ct: CiphertextChunks, r: seq<Scalar>,
                         c: ProverCoins, draw: seq<Scalar>)
    requires Encrypts(pks, plaintexts, r, ct) && CoinsFit(c, |pks|) && |draw| == NUM_ZK_REPETITIONS
    requires InRange(Attempt(o, pks, ct, ChunkScalars(plaintexts), c, draw), |pks|, |ct.rr|)
    ensures VerifyChunking(o, pks, ct, Assembled(o, pks, ct, r, ChunkScalars(plaintexts), c, draw))
  {
    hide Dot, MultiExp, Times, Add, RandomnessEquation, BlindingEquation, ChunkEquation, Instance, InRange;
    var s := ChunkScalars(plaintexts);
    InstanceOf(pks, plaintexts, ct, r);
    var p := Assembled(o, pks, ct, r, s, c, draw);
    var e := FirstChallenge(o, pks, ct, FirstMove(p.y0, p.bb, p.cc));
    var xpowers := XPowers(o.second(e, SecondMove(p.zs, p.dd, p.yy)), NUM_ZK_REPETITIONS);
    forall i | 0 <= i < |pks| ensures RandomnessEquation(ct.rr, e[i], xpowers, p.dd[i + 1], p.zr[i]) {
      RandomnessEquationHolds(r, e[i], xpowers, c.delta[i + 1]);
    }
    BlindingEquationHolds(p, c.beta, c.delta, xpowers);
    ChunkEquationHolds(pks, ct, r, s, e, xpowers, c.beta, Sigma(draw, |pks|, |ct.rr|), c.delta, p);
    FlattenLength(ct.cc, |ct.rr|);
  }

  lemma InstanceOf(pks: seq<G1>, plaintexts: seq<seq<nat>>, ct: CiphertextChunks, r: seq<Scalar>)
    requires Encrypts(pks, plaintexts, r, ct)
    ensures Instance(pks, ct, r, ChunkScalars(plaintexts))
    ensures |ct.cc| == |pks| && forall i :: 0 <= i < |pks| ==> |ct.cc[i]| == |ct.rr|
  {
    hide SplitRow, EncryptedRow;
    forall i | 0 <= i < |pks| ensures SplitRow(ct.cc[i], ChunkScalars(plaintexts)[i], pks[i], r) {
      EncryptedRowSplits(pks[i], r, plaintexts[i]);
    }
  }
}
