/** What the root of secure message distribution certifies (secure_message_dist/
    smd_memory.rs, enc_dec.rs): keys are determined by their bytes, and two decodings under
    one root agree. */
module SecureAgreement {
  import opened ScalarField
  import opened PolynomialAlgebra
  import opened Interpolation
  import opened Chunking
  import opened ReedSolomon
  import opened SecureMessages
  import opened ByteNumbers
  import opened Scheme

  // ---- keys and their bytes ----

  lemma {:induction false} BytesValue(s: nat, n: nat)
    requires s < Pow(256, n)
    ensures BigEndian(BytesBE(s, n)) == s
  {
    if n > 0 {
      var high, b := BytesBE(s / 256, n - 1), BytesBE(s, n);
      assert b[..n - 1] == high;
      assert s / 256 < Pow(256, n - 1);
      BytesValue(s / 256, n - 1);
    }
  }

  /** The 32 bytes of a key are its big-endian value. */
  lemma KeyBytesValue(k: Scalar)
    requires P <= Pow(256, 32)
    ensures BigEndian(Numbers(KeyBytes(k))) == k
  {
    hide Pow, BigEndian, BytesBE;
    forall i | 0 <= i < 32 ensures Numbers(KeyBytes(k))[i] == BytesBE(k, 32)[i] { ByteBack(BytesBE(k, 32)[i]); }
    assert Numbers(KeyBytes(k)) == BytesBE(k, 32);
    BytesValue(k, 32);
  }

  /** Different keys give different ciphertexts of every message of a key's length or
      more. */
  lemma DifferentKeysDiffer(bytes: Bytes, k: Scalar, k': Scalar)
    requires P <= Pow(256, 32) && |bytes| >= 32 && k != k'
    ensures Encrypt(bytes, k) != Encrypt(bytes, k')
  {
    hide Pow, BigEndian, KeyBytes, Numbers;
    if Encrypt(bytes, k) == Encrypt(bytes, k') {
      forall i | 0 <= i < 32 ensures KeyBytes(k)[i] == KeyBytes(k')[i] { SameCiphertextByte(bytes, k, k', i); }
      SameKeyBytes(k, k');
    }
  }

  lemma CiphertextByte(bytes: Bytes, k: Scalar, i: nat)
    requires i < 32 <= |bytes|
    ensures |Encrypt(bytes, k)| == |bytes| && Masked(Encrypt(bytes, k)[i], bytes[i], KeyBytes(k)[i])
  {
    hide KeyBytes, Decrypt;
    SmallRest(i, 32);
  }

  lemma SmallRest(i: nat, n: nat)
    requires i < n
    ensures i % n == i
  {}

  lemma SameCiphertextByte(bytes: Bytes, k: Scalar, k': Scalar, i: nat)
    requires i < 32 <= |bytes| && Encrypt(bytes, k) == Encrypt(bytes, k')
    ensures KeyBytes(k)[i] == KeyBytes(k')[i]
  {
    hide KeyBytes, Encrypt, Masked;
    CiphertextByte(bytes, k, i);
    CiphertextByte(bytes, k', i);
    SameMask(Encrypt(bytes, k)[i], bytes[i], KeyBytes(k)[i], KeyBytes(k')[i]);
  }

  lemma SameKeyBytes(k: Scalar, k': Scalar)
    requires P <= Pow(256, 32) && forall i :: 0 <= i < 32 ==> KeyBytes(k)[i] == KeyBytes(k')[i]
    ensures k == k'
  {
    hide Pow, KeyBytes, BigEndian, Numbers;
    assert KeyBytes(k) == KeyBytes(k');
    KeyBytesValue(k);
    KeyBytesValue(k');
  }

  // ---- recovered evaluations ----

  /** The polynomial behind a set of evaluations gives all recovered evaluations. */
  lemma EvaluationsHavePolynomial(xs: seq<int>, evals: seq<Scalar>) returns (p: seq<Scalar>)
    requires |xs| == |evals| && Distinct(xs)
    ensures |p| == |xs| && forall k :: 0 <= k < |xs| ==> evals[k] == Red(Eval(p, xs[k]))
  {
    hide Eval, Distinct;
    var f := PolynomialExists(xs, evals);
    p := RedSeq(f);
    forall k | 0 <= k < |xs| ensures evals[k] == Red(Eval(p, xs[k])) {
      assert Cong(Eval(f, xs[k]), evals[k]);
      EvalRed(f, xs[k]);
    }
  }

  function Indices(n: nat): (r: seq<int>)
    ensures |r| == n && forall i :: 0 <= i < n ==> r[i] == i + 1
  {
    seq(n, i => i + 1)
  }

  lemma IndicesDistinct(n: nat)
    requires n < P
    ensures Distinct(Indices(n))
  {}

  /** Evaluations that agree at 1 to n agree at 0. */
  lemma AgreeAtZero(xs: seq<int>, evals: seq<Scalar>, xs': seq<int>, evals': seq<Scalar>, n: nat)
    requires |xs| == |evals| == |xs'| == |evals'| <= n < P && Distinct(xs) && Distinct(xs')
    requires forall a :: 1 <= a <= n ==> EvaluationAt(xs, evals, a) == EvaluationAt(xs', evals', a)
    ensures EvaluationAt(xs, evals, 0) == EvaluationAt(xs', evals', 0)
  {
    hide Eval, Distinct, EvaluationAt;
    var none := Hashes((i, e) => 0, b => []);
    var p := EvaluationsHavePolynomial(xs, evals);
    var p' := EvaluationsHavePolynomial(xs', evals');
    var points := Indices(n);
    forall i | 0 <= i < n ensures Cong(Eval(p, points[i]), Eval(p', points[i])) {
      KeysOfDealt(none, p, xs, evals, n, i + 1);
      KeysOfDealt(none, p', xs', evals', n, i + 1);
    }
    IndicesDistinct(n);
    InterpolationUnique(p, p', points);
    assert RedSeq(p) == p && RedSeq(p') == p';
    KeysOfDealt(none, p, xs, evals, n, 0);
    KeysOfDealt(none, p', xs', evals', n, 0);
  }

  // ---- the erasure code is injective ----

  /** All shards, each under its index. */
  function Indexed(shards: seq<Bytes>): (m: map<nat, Bytes>)
    ensures |m| == |shards| && forall k: nat :: k in m <==> k < |shards|
    ensures forall k: nat :: k < |shards| ==> m[k] == shards[k]
  {
    if |shards| == 0 then map[]
    else
      var before := Indexed(shards[..|shards| - 1]);
      assert before[|shards| - 1 := shards[|shards| - 1]].Keys == before.Keys + {|shards| - 1};
      before[|shards| - 1 := shards[|shards| - 1]]
  }

  lemma SameShares(c: Code, o: seq<Bytes>, o': seq<Bytes>, n: nat)
    requires IdealCode(c) && |o| == |o'| <= n && c.encode(o, n) == c.encode(o', n)
    ensures o == o'
  {
    EveryCodeRecovers(c, o, n, map[]);
    var all := Indexed(c.encode(o, n));
    EveryCodeRecovers(c, o, n, all);
    EveryCodeRecovers(c, o', n, all);
  }

  lemma EveryCodeRecovers(c: Code, o: seq<Bytes>, n: nat, shards: map<nat, Bytes>)
    requires IdealCode(c)
    ensures Recovers(c, o, n, shards)
  {
    hide Recovers;
  }

  /** Messages of one length with the same shares are the same. */
  lemma SharesDetermine(c: Code, m: Bytes, m': Bytes, n: nat, t: nat)
    requires IdealCode(c) && 0 < t <= n && |m| == |m'| && c.encode(Originals(m, t), n) == c.encode(Originals(m', t), n)
    ensures m == m'
  {
    hide Originals, DataOf, Rejoin, IdealCode;
    SameShares(c, Originals(m, t), Originals(m', t), n);
    RejoinOriginals(m, n, t);
    RejoinOriginals(m', n, t);
    SameLengthSameData(m, m', n, t);
  }

  // ---- one root, one message ----

  lemma LeafParts(a: Bytes, k: Bytes, b: Bytes, l: Bytes)
    requires |k| == |l| && a + k == b + l
    ensures a == b && k == l
  {
    var n := |a| + |k|;
    assert |a| == |b| by { assert |a + k| == |b + l|; }
    assert a == (a + k)[..|a|] && b == (b + l)[..|b|];
    assert k == (a + k)[|a|..] && l == (b + l)[|b|..];
  }

  lemma SameLeaves(shares: seq<Bytes>, keys: seq<Scalar>, shares': seq<Bytes>, keys': seq<Scalar>)
    requires P <= Pow(256, 32) && |keys| == |shares| + 1 && |keys'| == |shares'| + 1
    requires Leaves(shares, keys) == Leaves(shares', keys')
    ensures shares == shares' && keys[1..] == keys'[1..]
  {
    hide Pow, KeyBytes;
    assert |shares| == |Leaves(shares, keys)| == |shares'|;
    forall j | 0 <= j < |shares| ensures shares[j] == shares'[j] && keys[j + 1] == keys'[j + 1] {
      assert Leaves(shares, keys)[j] == Leaves(shares', keys')[j];
      LeafParts(shares[j], KeyBytes(keys[j + 1]), shares'[j], KeyBytes(keys'[j + 1]));
      SameKeyBytes(keys[j + 1], keys'[j + 1]);
    }
    forall j | 0 <= j < |shares| ensures keys[1..][j] == keys'[1..][j] {
      assert shares[j] == shares'[j];
    }
  }

  /** Neither the root hash nor the key hash collides on what the two decodings hash. */
  ghost predicate NoCollision(h: Hashes, n: nat, leaves: seq<Bytes>, xs: seq<int>, evals: seq<Scalar>,
                              leaves': seq<Bytes>, xs': seq<int>, evals': seq<Scalar>)
    requires |xs| == |evals| && |xs'| == |evals'|
  {
    && (h.root(leaves) == h.root(leaves') ==> leaves == leaves')
    && forall a :: 1 <= a <= n && KeyFor(h, xs, evals, a) == KeyFor(h, xs', evals', a) ==>
         EvaluationAt(xs, evals, a) == EvaluationAt(xs', evals', a)
  }

  ghost function LeavesOf(c: Code, h: Hashes, n: nat, secret: Bytes, keys: seq<Scalar>): seq<Bytes>
    requires n > 0 && IdealCode(c) && |keys| == n + 1
  {
    assert Recovers(c, Originals(secret, Quorum(n)), n, map[]);
    Leaves(c.encode(Originals(secret, Quorum(n)), n), keys)
  }

  /** Two decodings that pass the root assertion under one root return one message. */
  lemma RootDecides(c: Code, h: Hashes, n: nat, root: Bytes, secret: Bytes, xs: seq<int>, evals: seq<Scalar>,
                    secret': Bytes, xs': seq<int>, evals': seq<Scalar>)
    requires 0 < n < P <= Pow(256, 32) && IdealCode(c) && |secret| == |secret'|
    requires |xs| == |evals| == |xs'| == |evals'| == Quorum(n) && Distinct(xs) && Distinct(xs')
    requires Judged(c, h, n, secret, RecoveredKeys(h, xs, evals, n), root).Decoded?
    requires Judged(c, h, n, secret', RecoveredKeys(h, xs', evals', n), root).Decoded?
    requires NoCollision(h, n, LeavesOf(c, h, n, secret, RecoveredKeys(h, xs, evals, n)), xs, evals,
                         LeavesOf(c, h, n, secret', RecoveredKeys(h, xs', evals', n)), xs', evals')
    ensures Judged(c, h, n, secret, RecoveredKeys(h, xs, evals, n), root) ==
      Judged(c, h, n, secret', RecoveredKeys(h, xs', evals', n), root)
  {
    hide Pow, EvaluationAt, Distinct, Originals, Decrypt, IdealCode, Leaves;
    var keys, keys' := RecoveredKeys(h, xs, evals, n), RecoveredKeys(h, xs', evals', n);
    var q := Quorum(n);
    assert Recovers(c, Originals(secret, q), n, map[]) && Recovers(c, Originals(secret', q), n, map[]) by {
      EveryCodeRecovers(c, Originals(secret, q), n, map[]);
      EveryCodeRecovers(c, Originals(secret', q), n, map[]);
    }
    SameLeaves(c.encode(Originals(secret, q), n), keys, c.encode(Originals(secret', q), n), keys');
    SharesDetermine(c, secret, secret', n, q);
    forall a | 1 <= a <= n ensures EvaluationAt(xs, evals, a) == EvaluationAt(xs', evals', a) {
      assert keys[1..][a - 1] == keys'[1..][a - 1];
    }
    AgreeAtZero(xs, evals, xs', evals', n);
  }

  /** The shards the decoder returns have at least the share size, as its recovery shards
      did. */
  ghost predicate WholeShards(c: Code, datas: DecoderData, secrets: map<nat, Secret>) {
    var shards := c.decode(datas.t, datas.n, Shards(secrets));
    |shards| == datas.t && forall k :: 0 <= k < |shards| ==> |shards[k]| >= datas.shareSize
  }

  lemma {:induction false} JoinedLength(shards: seq<Bytes>, size: nat, k: nat)
    requires k <= |shards| && forall i :: 0 <= i < |shards| ==> |shards[i]| >= size
    ensures |Joined(shards, size, k)| == k * size
  {
    if k > 0 {
      JoinedLength(shards, size, k - 1);
      MulDistribute(size, k, 1);
    }
  }

  lemma RejoinedLength(datas: DecoderData, shards: seq<Bytes>, shards': seq<Bytes>)
    requires |shards| == |shards'|
    requires forall i :: 0 <= i < |shards| ==> |shards[i]| >= datas.shareSize && |shards'[i]| >= datas.shareSize
    ensures |Rejoin(datas, shards)| == |Rejoin(datas, shards')|
  {
    JoinedLength(shards, datas.shareSize, |shards|);
    JoinedLength(shards', datas.shareSize, |shards|);
  }

  /** What one decoding hashes does not collide with what the other hashes. */
  ghost predicate Separated(c: Code, h: Hashes, n: nat, datas: DecoderData, secrets: map<nat, Secret>, order: seq<nat>,
                            secrets': map<nat, Secret>, order': seq<nat>)
    requires n > 0 && IdealCode(c) && Enumerates(order, secrets) && Enumerates(order', secrets')
    requires Quorum(n) <= |secrets| && Quorum(n) <= |secrets'|
  {
    var q := Quorum(n);
    var xs, evals := SelectedOf(secrets, order, q), EvalsOf(secrets, order, q);
    var xs', evals' := SelectedOf(secrets', order', q), EvalsOf(secrets', order', q);
    NoCollision(h, n,
      LeavesOf(c, h, n, Rejoin(datas, c.decode(datas.t, datas.n, Shards(secrets))), RecoveredKeys(h, xs, evals, n)),
      xs, evals,
      LeavesOf(c, h, n, Rejoin(datas, c.decode(datas.t, datas.n, Shards(secrets'))), RecoveredKeys(h, xs', evals', n)),
      xs', evals')
  }

  /** Agreement: two decodings with the same decoder data that pass the assertion under
      the same root return the same message, whatever the secrets are. */
  lemma DecodingsAgree(c: Code, h: Hashes, n: nat, datas: DecoderData, secrets: map<nat, Secret>, order: seq<nat>,
                       secrets': map<nat, Secret>, order': seq<nat>)
    requires 0 < n < P <= Pow(256, 32) && IdealCode(c) && Enumerates(order, secrets) && Enumerates(order', secrets')
    requires Outcome(c, h, n, datas, secrets, order).Decoded? && Outcome(c, h, n, datas, secrets', order').Decoded?
    requires WholeShards(c, datas, secrets) && WholeShards(c, datas, secrets')
    requires secrets[order[0]].root == secrets'[order'[0]].root
    requires Separated(c, h, n, datas, secrets, order, secrets', order')
    ensures Outcome(c, h, n, datas, secrets, order) == Outcome(c, h, n, datas, secrets', order')
  {
    hide Pow, IdealCode, Distinct, Judged, Rejoin, NoCollision, RecoveredKeys, LeavesOf, Shards;
    var q := Quorum(n);
    var shards, shards' := c.decode(datas.t, datas.n, Shards(secrets)), c.decode(datas.t, datas.n, Shards(secrets'));
    RejoinedLength(datas, shards, shards');
    RootDecides(c, h, n, secrets[order[0]].root, Rejoin(datas, shards), SelectedOf(secrets, order, q), EvalsOf(secrets, order, q),
                Rejoin(datas, shards'), SelectedOf(secrets', order', q), EvalsOf(secrets', order', q));
  }
}
