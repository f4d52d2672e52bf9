/** What the accepted proofs of correct sharing say about their statement: rewinding the
    challenge of `verify_sharing` (vss/ni_vss/nizk_sharing.rs) removes the masks. */
module SharingSoundness {
  import opened ScalarField
  import opened PolynomialAlgebra
  import opened Interpolation
  import opened EvaluationDomain
  import opened PowerSums
  import opened Group
  import opened NivssUtils
  import opened Encryption
  import opened NizkSharing

  /** A response on two challenges: the difference of the responses is the masked value
      times the difference of the challenges. */
  lemma Rewind(k: int, c: int, c': int, mask: int, z: int, z': int)
    requires Cong(Line(k, c, mask), z) && Cong(Line(k, c', mask), z')
    ensures Cong(k * (c - c'), z - z')
  {
    CongSub(k * c + mask, z, k * c' + mask, z');
    MulDistribute(k, c, c');
  }

  /** The three equations between exponents. */
  ghost predicate Exponents(h: int, key: int, com: int, cipher: int, pk: int, p: ProofSharing, c: int) {
    && Cong(Line(key, c, p.ff), p.zab)
    && Cong(Line(com, c, p.aa), Line(h, p.zr, p.zs))
    && Cong(Line(cipher, c, p.yy), MaskedRight(h, pk, p.zs, p.zr, p.zab))
  }

  lemma ScaledLine(k: int, k': int, c: int, mask: int)
    requires Cong(k, k')
    ensures Cong(Add(Mul(k, c), mask), Line(k', c, mask))
  {
    ScaledCong(k, k', c, mask, mask);
  }

  lemma KeyExponents(st: Statement, p: ProofSharing, c: Scalar)
    requires KeyEquation(st, p, c)
    ensures Cong(Line(st.rAA + st.rBB, c, p.ff), p.zab)
  {
    hide Add, Mul, Line;
    SumTimes(st.rAA, st.rBB, c);
    ScaledLine(Add(st.rAA, st.rBB), st.rAA + st.rBB, c, p.ff);
    TimesGenerator(p.zab);
  }

  lemma CommitmentExponents(h: G1, st: Statement, p: ProofSharing, xs: seq<Scalar>, c: Scalar)
    requires CommitmentEquation(h, st, p, xs, c)
    ensures Cong(Line(MultiExp(st.commits, xs), c, p.aa), Line(h, p.zr, p.zs))
  {
    hide Add, Mul, MultiExp, Line;
    var com := MultiExp(st.commits, xs);
    ScaledLine(com, com, c, p.aa);
    PairLine(h, p.zs, p.zr);
  }

  lemma PairLine(h: G1, zs: Scalar, zr: Scalar)
    ensures Cong(MultiExp([G1_GENERATOR, h], [zs, zr]), Line(h, zr, zs))
  {
    hide MultiExp;
    BlindingPair(h, zs, zr);
  }

  lemma CiphertextExponents(h: G1, st: Statement, p: ProofSharing, xs: seq<Scalar>, c: Scalar)
    requires CiphertextEquation(h, st, p, xs, c)
    ensures Cong(Line(MultiExp(st.encSS, xs) + MultiExp(st.encRR, xs), c, p.yy),
                 MaskedRight(h, MultiExp(st.pks, xs), p.zs, p.zr, p.zab))
  {
    hide Add, Mul, MultiExp, Line, MaskedRight;
    var ss: int, rr: int := MultiExp(st.encSS, xs), MultiExp(st.encRR, xs);
    SumTimes(ss, rr, c);
    ScaledLine(Add(ss, rr), ss + rr, c, p.yy);
    CiphertextRight(h, MultiExp(st.pks, xs), p.zab, p.zs, p.zr);
  }

  lemma CheckedExponents(o: SharingOracles, h: G1, st: Statement, p: ProofSharing)
    requires CheckSharing(o, h, st, p)
    ensures var xs := XPowers(o.share(st), |st.commits|);
            Exponents(h, st.rAA + st.rBB, MultiExp(st.commits, xs), MultiExp(st.encSS, xs) + MultiExp(st.encRR, xs),
                      MultiExp(st.pks, xs), p, o.first(o.share(st), p.ff, p.aa, p.yy))
  {
    hide MultiExp, XPowers, Line, MaskedRight, KeyEquation, CommitmentEquation, CiphertextEquation;
    var x := o.share(st);
    var xs, c := XPowers(x, |st.commits|), o.first(x, p.ff, p.aa, p.yy);
    KeyExponents(st, p, c);
    CommitmentExponents(h, st, p, xs, c);
    CiphertextExponents(h, st, p, xs, c);
  }

  /** Subtracting the three equations and cancelling the difference of the challenges. */
  lemma RewindThree(h: int, key: int, com: int, cipher: int, pk: int, p: ProofSharing, p': ProofSharing, c: int, c': int)
    requires Exponents(h, key, com, cipher, pk, p, c) && Exponents(h, key, com, cipher, pk, p', c') && !Cong(c, c')
    requires p.ff == p'.ff && p.aa == p'.aa && p.yy == p'.yy
    ensures Cong(cipher, Blend(1, com, key, pk))
  {
    hide Line, MaskedRight, Blend;
    var y, y' := Line(h, p.zr, p.zs), Line(h, p'.zr, p'.zs);
    var w, w' := MaskedRight(h, pk, p.zs, p.zr, p.zab), MaskedRight(h, pk, p'.zs, p'.zr, p'.zab);
    Rewind(key, c, c', p.ff, p.zab, p'.zab);
    Rewind(com, c, c', p.aa, y, y');
    Rewind(cipher, c, c', p.yy, w, w');
    MaskedDifference(h, pk, p, p');
    CancelChallenge(key, com, cipher, pk, c - c', p.zab - p'.zab, y - y', w - w');
    if Cong(c - c', 0) { CongAdd(c - c', 0, c', c'); }
    CancelLeft(c - c', cipher, Blend(1, com, key, pk));
  }

  lemma MaskedDifference(h: int, pk: int, p: ProofSharing, p': ProofSharing)
    ensures MaskedRight(h, pk, p.zs, p.zr, p.zab) - MaskedRight(h, pk, p'.zs, p'.zr, p'.zab) ==
      pk * (p.zab - p'.zab) + (Line(h, p.zr, p.zs) - Line(h, p'.zr, p'.zs))
  {
    MulDistribute(pk, p.zab, p'.zab);
  }

  lemma CancelChallenge(key: int, com: int, cipher: int, pk: int, d: int, z: int, y: int, w: int)
    requires Cong(key * d, z) && Cong(com * d, y) && Cong(cipher * d, w) && w == pk * z + y
    ensures Cong(d * cipher, d * Blend(1, com, key, pk))
  {
    CongMul(pk, pk, key * d, z);
    CongAdd(pk * (key * d), pk * z, com * d, y);
    SumShape(pk, key, com, cipher, d);
  }

  lemma SumShape(pk: int, key: int, com: int, cipher: int, d: int)
    ensures pk * (key * d) + com * d == d * Blend(1, com, key, pk) && cipher * d == d * cipher
  {}

  lemma BlendIs(com: int, key: int, pk: int)
    ensures Blend(1, com, key, pk) == com + key * pk
  {}

  /** Two accepted proofs with the same first move and different challenges: against the
      powers of the share answer, the two ciphertext columns are the commitments, masked
      by the receivers' keys under the two encryption keys. */
  lemma SharingExtracts(o: SharingOracles, o': SharingOracles, h: G1, st: Statement, p: ProofSharing, p': ProofSharing)
    requires CheckSharing(o, h, st, p) && CheckSharing(o', h, st, p') && o.share(st) == o'.share(st)
    requires p.ff == p'.ff && p.aa == p'.aa && p.yy == p'.yy
    requires o.first(o.share(st), p.ff, p.aa, p.yy) != o'.first(o.share(st), p.ff, p.aa, p.yy)
    ensures var xs := XPowers(o.share(st), |st.commits|);
            Cong(MultiExp(st.encSS, xs) + MultiExp(st.encRR, xs),
                 MultiExp(st.commits, xs) + (st.rAA + st.rBB) * MultiExp(st.pks, xs))
  {
    hide MultiExp, XPowers, CheckSharing, Exponents, Blend;
    var x := o.share(st);
    var xs := XPowers(x, |st.commits|);
    CheckedExponents(o, h, st, p);
    CheckedExponents(o', h, st, p');
    RewindThree(h, st.rAA + st.rBB, MultiExp(st.commits, xs), MultiExp(st.encSS, xs) + MultiExp(st.encRR, xs),
                MultiExp(st.pks, xs), p, p', o.first(x, p.ff, p.aa, p.yy), o'.first(x, p.ff, p.aa, p.yy));
    BlendIs(MultiExp(st.commits, xs), st.rAA + st.rBB, MultiExp(st.pks, xs));
  }

  // ---- every receiver by itself ----

  /** Two runs of the verifier on one first move. */
  datatype Rewound = Rewound(o: SharingOracles, o': SharingOracles, p: ProofSharing, p': ProofSharing)

  ghost predicate AcceptedTwice(h: G1, st: Statement, r: Rewound) {
    && CheckSharing(r.o, h, st, r.p) && CheckSharing(r.o', h, st, r.p') && r.o.share(st) == r.o'.share(st)
    && r.p.ff == r.p'.ff && r.p.aa == r.p'.aa && r.p.yy == r.p'.yy
    && r.o.first(r.o.share(st), r.p.ff, r.p.aa, r.p.yy) != r.o'.first(r.o.share(st), r.p.ff, r.p.aa, r.p.yy)
  }

  function ShareAnswers(st: Statement, rs: seq<Rewound>): (xs: seq<Scalar>)
    ensures |xs| == |rs| && forall a :: 0 <= a < |xs| ==> xs[a] == rs[a].o.share(st)
  {
    seq(|rs|, a requires 0 <= a < |rs| => Answer(st, rs[a]))
  }

  function Answer(st: Statement, r: Rewound): Scalar {
    r.o.share(st)
  }

  ghost predicate Columns(st: Statement, n: nat) {
    |st.commits| == |st.pks| == |st.encSS| == |st.encRR| == n
  }

  /** One rewound run makes the excesses vanish against the powers of its answer. */
  lemma ExcessVanishes(h: G1, st: Statement, n: nat, r: Rewound)
    requires Columns(st, n) && AcceptedTwice(h, st, r)
    ensures Cong(Dot(XPowers(r.o.share(st), n),
                     Excesses(st.encSS, st.encRR, st.commits, st.rAA + st.rBB, st.pks, n)), 0)
  {
    hide XPowers, CheckSharing, DotTo, Excesses, Excess, Balanced;
    var xs, key := XPowers(r.o.share(st), n), st.rAA + st.rBB;
    SharingExtracts(r.o, r.o', h, st, r.p, r.p');
    ExcessDot(st.encSS, st.encRR, st.commits, key, st.pks, n, xs);
    DotCommutes(xs, st.encSS, n);
    DotCommutes(xs, st.encRR, n);
    DotCommutes(xs, st.commits, n);
    DotCommutes(xs, st.pks, n);
    UnreducedSum(Dot(st.encSS, xs), Dot(st.encRR, xs), Dot(st.commits, xs), key, Dot(st.pks, xs));
    NoExcess(Dot(st.encSS, xs), Dot(st.encRR, xs), Dot(st.commits, xs), key, Dot(st.pks, xs));
  }

  lemma UnreducedSum(ss: int, rr: int, com: int, k: int, pk: int)
    requires Cong(Red(ss) + Red(rr), Red(com) + k * Red(pk))
    ensures Balanced(ss, rr, com, k, pk)
  {
    CongAdd(Red(ss), ss, Red(rr), rr);
    CongMul(k, k, Red(pk), pk);
    CongAdd(Red(com), com, k * Red(pk), k * pk);
  }

  /** Soundness of the proof of sharing: when proofs on one statement of n receivers are
      accepted twice for each of n different share answers, every receiver's two
      ciphertexts together hold what was committed for it. */
  lemma ReceiversExtract(h: G1, st: Statement, n: nat, rs: seq<Rewound>)
    requires Columns(st, n) && |rs| == n && Distinct([0] + ShareAnswers(st, rs))
    requires forall a :: 0 <= a < n ==> AcceptedTwice(h, st, rs[a])
    ensures forall i :: 0 <= i < n ==>
      Balanced(st.encSS[i], st.encRR[i], st.commits[i], st.rAA + st.rBB, st.pks[i])
  {
    hide XPowers, CheckSharing, DotTo, AcceptedTwice, Excess, Balanced, Distinct;
    var xs: seq<Scalar> := [0] + ShareAnswers(st, rs);
    var key: int := st.rAA + st.rBB;
    var f := Excesses(st.encSS, st.encRR, st.commits, key, st.pks, n);
    forall a | 0 <= a < |xs| ensures Cong(0 + Dot(XPowers(xs[a], n), f), 0) {
      if a == 0 {
        ZeroPowers(f, n, n);
      } else {
        ExcessVanishes(h, st, n, rs[a - 1]);
      }
    }
    EachBalanced(0, st.encSS, st.encRR, st.commits, key, st.pks, n, xs);
  }

  // ---- what a receiver decrypts ----

  ghost predicate VerifiedTwice(h: G1, commits: seq<G1>, ct: CiphertextChunks, pks: seq<G1>, rBB: G1, encRR: seq<G1>,
                                r: Rewound)
  {
    var st := Rebuilt(commits, ct, pks, rBB, encRR);
    && VerifySharing(r.o, h, commits, ct, pks, rBB, encRR, r.p) && VerifySharing(r.o', h, commits, ct, pks, rBB, encRR, r.p')
    && r.o.share(st) == r.o'.share(st) && r.p.ff == r.p'.ff && r.p.aa == r.p'.aa && r.p.yy == r.p'.yy
    && r.o.first(r.o.share(st), r.p.ff, r.p.aa, r.p.yy) != r.o'.first(r.o.share(st), r.p.ff, r.p.aa, r.p.yy)
  }

  /** An ElGamal ciphertext with the mask of the key removed. */
  function Decrypted(c: G1, r: G1, sk: Scalar): G1 {
    Sub(c, Times(r, sk))
  }

  /** `verify_sharing` is sound: after such runs, what receiver i decrypts from its
      recombined chunks and from its blinding ciphertext opens commitment i. */
  lemma DecryptionOpensCommitment(h: G1, commits: seq<G1>, ct: CiphertextChunks, pks: seq<G1>, rBB: G1, encRR: seq<G1>,
                                  rs: seq<Rewound>, i: nat, sk: Scalar)
    requires |commits| == |pks| == |ct.cc| == |encRR| == |rs| && i < |pks| && pks[i] == Times(G1_GENERATOR, sk)
    requires forall a :: 0 <= a < |rs| ==> VerifiedTwice(h, commits, ct, pks, rBB, encRR, rs[a])
    requires Distinct([0] + ShareAnswers(Rebuilt(commits, ct, pks, rBB, encRR), rs))
    ensures Add(Decrypted(MultiExp(ct.cc[i], ChunkWeights()), MultiExp(ct.rr, ChunkWeights()), sk),
                Decrypted(encRR[i], rBB, sk)) == commits[i]
  {
    hide MultiExp, CheckSharing, Balanced, Distinct, Decrypted, Add;
    var st := Rebuilt(commits, ct, pks, rBB, encRR);
    forall a | 0 <= a < |rs| ensures AcceptedTwice(h, st, rs[a]) {}
    hide AcceptedTwice, VerifiedTwice;
    ReceiversExtract(h, st, |rs|, rs);
    TimesGenerator(sk);
    RemoveKey(st.encSS[i], st.encRR[i], commits[i], st.rAA, rBB, sk);
  }

  lemma RemoveKey(ss: G1, rr: G1, com: G1, rAA: G1, rBB: G1, sk: Scalar)
    requires Balanced(ss, rr, com, rAA + rBB, sk)
    ensures Add(Decrypted(ss, rAA, sk), Decrypted(rr, rBB, sk)) == com
  {
    var a: int, b: int, u: int, v: int := rAA * sk, rBB * sk, ss, rr;
    MulDistribute(sk, rAA, rBB);
    CongSub(u, u, Times(rAA, sk), a);
    CongSub(v, v, Times(rBB, sk), b);
    CongAdd(Decrypted(ss, rAA, sk), u - a, Decrypted(rr, rBB, sk), v - b);
    CongSub(u + v, com + (a + b), a + b, a + b);
  }
}
