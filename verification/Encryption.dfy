/** Chunked ElGamal encryption (vss/ni_vss/encryption.rs). */
module Encryption {
  import opened Options
  import opened ScalarField
  import opened PolynomialAlgebra
  import opened Interpolation
  import opened EvaluationDomain
  import opened Group
  import opened NivssUtils
  import opened Chunking
  import opened DlogRecovery
  import opened Scheme

  datatype CiphertextChunks = CiphertextChunks(rr: seq<G1>, cc: seq<seq<G1>>)

  /** The base-2^16 weights of the chunks. */
  function ChunkWeights(): seq<Scalar> {
    Powers(Red(CHUNK_SIZE), NUM_CHUNKS)
  }

  function EncryptedRow(pk: G1, r: seq<Scalar>, chunks: seq<nat>): (row: seq<G1>)
    requires |r| == |chunks|
    ensures |row| == |r|
    ensures forall j :: 0 <= j < |r| ==> row[j] == MultiExp([pk, G1_GENERATOR], [r[j], Red(chunks[j])])
  {
    seq(|r|, j requires 0 <= j < |r| => MultiExp([pk, G1_GENERATOR], [r[j], Red(chunks[j])]))
  }

  /** The ciphertext of the chunk vectors under the randomness r. */
  ghost predicate Encrypts(pks: seq<G1>, plaintexts: seq<seq<nat>>, r: seq<Scalar>, ct: CiphertextChunks) {
    && |r| == NUM_CHUNKS && |plaintexts| == |pks| == |ct.cc|
    && ct.rr == BatchMul(G1_GENERATOR, r)
    && forall i :: 0 <= i < |pks| ==> |plaintexts[i]| == NUM_CHUNKS && ct.cc[i] == EncryptedRow(pks[i], r, plaintexts[i])
  }

  method EncryptRow(pk: G1, r: seq<Scalar>, chunks: seq<nat>) returns (row: seq<G1>)
    requires |r| == |chunks| == NUM_CHUNKS
    ensures row == EncryptedRow(pk, r, chunks)
  {
    hide MultiExp;
    row := [];
    for j := 0 to NUM_CHUNKS
      invariant |row| == j
      invariant forall k :: 0 <= k < j ==> row[k] == MultiExp([pk, G1_GENERATOR], [r[k], Red(chunks[k])])
    {
      row := row + [MultiExp([pk, G1_GENERATOR], [r[j], Red(chunks[j])])];
    }
  }

  /** `enc_chunks`, with the randomness it draws as a parameter. */
  method EncChunks(pks: seq<G1>, plaintexts: seq<seq<nat>>, r: seq<Scalar>) returns (ct: CiphertextChunks, r0: Scalar)
    requires |r| == NUM_CHUNKS && |plaintexts| == |pks|
    requires forall i :: 0 <= i < |plaintexts| ==> |plaintexts[i]| == NUM_CHUNKS
    ensures Encrypts(pks, plaintexts, r, ct)
    ensures r0 == Red(Dot(r, ChunkWeights()))
  {
    hide EncryptedRow, MultiExp, DotTo, Powers, BatchMul;
    var bpowers := GetXpowersAt0(Red(CHUNK_SIZE), NUM_CHUNKS);
    r0 := ScalarMultExp(r, bpowers);
    var cc: seq<seq<G1>> := [];
    for i := 0 to |pks|
      invariant |cc| == i && forall k :: 0 <= k < i ==> cc[k] == EncryptedRow(pks[k], r, plaintexts[k])
    {
      var row := EncryptRow(pks[i], r, plaintexts[i]);
      cc := cc + [row];
    }
    ct := CiphertextChunks(BatchMul(G1_GENERATOR, r), cc);
  }

  // ---- decryption ----

  /** The chunk ciphertexts with the mask of the key removed. */
  function Unmasked(rr: seq<G1>, cc: seq<G1>, secret: Scalar): (r: seq<G1>)
    ensures |r| == if |cc| < |rr| then |cc| else |rr|
    ensures forall j :: 0 <= j < |r| ==> r[j] == Sub(cc[j], Times(rr[j], secret))
  {
    seq(if |cc| < |rr| then |cc| else |rr|, j requires 0 <= j < |cc| && j < |rr| => Sub(cc[j], Times(rr[j], secret)))
  }

  /** The scalar whose chunks are the logarithms, when all of them are found. */
  function RecoveredScalar(hash: G1 -> nat, table: seq<nat>, powers: seq<G1>): Option<Scalar> {
    if exists j :: 0 <= j < |powers| && Solution(hash, table, powers[j]).None? then None
    else
      var dlogs: seq<int> := seq(|powers|, j requires 0 <= j < |powers| => Solution(hash, table, powers[j]).value);
      Some(Red(Eval(dlogs, CHUNK_SIZE)))
  }

  /** `dec_chunks`. */
  method DecChunks(hash: G1 -> nat, ct: CiphertextChunks, secret: Scalar, index: nat) returns (s: Option<Scalar>)
    requires index < |ct.cc| && ScalarsFit()
    ensures forall table :: IsTable(hash, table) ==> s == RecoveredScalar(hash, table, Unmasked(ct.rr, ct.cc[index], secret))
  {
    hide Eval, Times, ScalarsFit, Solution;
    var powers := Unmasked(ct.rr, ct.cc[index], secret);
    var table := Create(hash);
    var solutions := SolveSeveral(hash, table, powers);
    SameTable(hash, table);
    if exists j :: 0 <= j < |solutions| && solutions[j].None? {
      return None;
    }
    var dlogs: seq<Scalar> := seq(|solutions|, j requires 0 <= j < |solutions| => solutions[j].value);
    var chunks := FromDlogs(Reversed(dlogs));
    var acc := RecombineToScalar(chunks);
    s := Some(acc);
    assert Reversed(Reversed(dlogs)) == dlogs;
    ChunksValue(Red(Eval(dlogs, CHUNK_SIZE)));
    assert dlogs == seq(|powers|, j requires 0 <= j < |powers| => Solution(hash, table, powers[j]).value);
  }

  lemma SameTable(hash: G1 -> nat, table: seq<nat>)
    requires IsTable(hash, table)
    ensures forall t :: IsTable(hash, t) ==> t == table
  {}

  /** Removing the mask leaves the chunk. */
  lemma UnmaskedChunk(pk: G1, sk: Scalar, r: Scalar, chunk: nat)
    requires pk == Times(G1_GENERATOR, sk)
    ensures Sub(MultiExp([pk, G1_GENERATOR], [r, Red(chunk)]), Times(Times(G1_GENERATOR, r), sk)) == Red(chunk)
  {
    hide Times, MultiExp, Sub;
    TimesGenerator(sk);
    TimesGenerator(r);
    var x := Red(chunk);
    PairValue(pk, G1_GENERATOR, r, x);
    TimesValue(r, sk);
    MaskCancels(MultiExp([pk, G1_GENERATOR], [r, x]), sk, r, x, Times(r, sk));
  }

  lemma TimesValue(a: G1, k: Scalar)
    ensures Cong(Times(a, k), a * k)
  {}

  lemma MaskCancels(c: int, sk: int, r: int, x: int, m: int)
    requires Cong(c, sk * r + Red(1) * x) && Cong(m, r * sk)
    ensures Sub(c, m) == Red(x)
  {
    CongMul(Red(1), 1, x, x);
    CongAdd(sk * r, sk * r, Red(1) * x, x);
    CongSub(c, sk * r + x, m, r * sk);
    MulCommutes(r, sk);
  }

  /** Encrypt then decrypt: for every scalar, key pair, randomness and position the
      receiver recovers the scalar exactly when the table finds all its chunks. */
  lemma DecryptEncrypted(hash: G1 -> nat, table: seq<nat>, pks: seq<G1>, plaintexts: seq<seq<nat>>, r: seq<Scalar>,
                         ct: CiphertextChunks, i: nat, sk: Scalar, s: Scalar)
    requires ScalarsFit() && IsTable(hash, table) && Encrypts(pks, plaintexts, r, ct)
    requires i < |pks| && pks[i] == Times(G1_GENERATOR, sk) && plaintexts[i] == Digits(s, NUM_CHUNKS)
    ensures RecoveredScalar(hash, table, Unmasked(ct.rr, ct.cc[i], sk)) ==
      if forall j :: 0 <= j < NUM_CHUNKS ==> Findable(hash, Digits(s, NUM_CHUNKS)[j]) then Some(s) else None
  {
    hide Eval, Times, MultiExp, Sub, Solution, Findable;
    var chunks := Digits(s, NUM_CHUNKS);
    var powers := Unmasked(ct.rr, ct.cc[i], sk);
    forall j: nat | j < NUM_CHUNKS
      ensures powers[j] == chunks[j]
      ensures Solution(hash, table, powers[j]) == if Findable(hash, chunks[j]) then Some(chunks[j]) else None
    {
      UnmaskedChunk(pks[i], sk, r[j], chunks[j]);
      SolvesExactly(hash, table, powers[j]);
    }
    ChunksValue(s);
    if forall j :: 0 <= j < NUM_CHUNKS ==> Findable(hash, chunks[j]) {
      assert chunks == seq(|powers|, j requires 0 <= j < |powers| => Solution(hash, table, powers[j]).value);
    }
  }

  /** No two table entries have the same hash. */
  ghost predicate CollisionFree(hash: G1 -> nat) {
    forall a, b :: 0 <= a < b < CHUNK_SIZE ==> hash(Red(a)) != hash(Red(b))
  }

  lemma InjectiveHashFindsAll(hash: G1 -> nat, x: nat)
    requires CollisionFree(hash)
    ensures x < CHUNK_SIZE ==> Findable(hash, x)
  {}

  /** `dec_chunks` of `enc_chunks` of the chunks of s is Some(s) when the short hash has
      no collision on the table. */
  method EncryptThenDecrypt(hash: G1 -> nat, pks: seq<G1>, plaintexts: seq<seq<nat>>, r: seq<Scalar>, i: nat, sk: Scalar,
                            s: Scalar) returns (decrypted: Option<Scalar>)
    requires ScalarsFit() && CollisionFree(hash) && |r| == NUM_CHUNKS && i < |pks| == |plaintexts|
    requires forall k :: 0 <= k < |plaintexts| ==> |plaintexts[k]| == NUM_CHUNKS
    requires pks[i] == Times(G1_GENERATOR, sk) && plaintexts[i] == Digits(s, NUM_CHUNKS)
    ensures decrypted == Some(s)
  {
    hide ScalarsFit, CollisionFree, Encrypts, RecoveredScalar, IsTable, Findable, Times, DotTo;
    var ct, r0 := EncChunks(pks, plaintexts, r);
    EncryptsShape(pks, plaintexts, r, ct);
    decrypted := DecChunks(hash, ct, sk, i);
    var table := Create(hash);
    forall j: nat | j < NUM_CHUNKS ensures Findable(hash, Digits(s, NUM_CHUNKS)[j]) {
      InjectiveHashFindsAll(hash, Digits(s, NUM_CHUNKS)[j]);
    }
    DecryptEncrypted(hash, table, pks, plaintexts, r, ct, i, sk, s);
  }

  lemma EncryptsShape(pks: seq<G1>, plaintexts: seq<seq<nat>>, r: seq<Scalar>, ct: CiphertextChunks)
    requires Encrypts(pks, plaintexts, r, ct)
    ensures |ct.cc| == |pks|
  {}
}
