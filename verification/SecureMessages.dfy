/** Secure message distribution (secure_message_dist/init.rs, smd_memory.rs,
    enc_dec.rs): every message is encrypted under a shared key, erasure coded and
    certified by a root over the shares and their keys. */
module SecureMessages {
  import opened Options
  import opened ScalarField
  import opened PolynomialAlgebra
  import opened Interpolation
  import opened Chunking
  import opened ReedSolomon
  import opened Scheme

  /** The hashes: `get_key` and the Merkle root of a list of leaves. */
  datatype Hashes = Hashes(key: (nat, Scalar) -> Scalar, root: seq<Bytes> -> Bytes)

  /** What one node holds of a message: its evaluation, its coded share, the root the
      share is certified under, and its index, which counts from 1. */
  datatype Secret = Secret(eval: Scalar, share: Bytes, root: Bytes, i: nat)

  datatype DecodeResult = Panicked | Decoded(message: Bytes)

  // ---- encryption ----

  /** `to_bytes_be`. */
  function KeyBytes(k: Scalar): (r: Bytes)
    ensures |r| == 32
  {
    seq(32, i requires 0 <= i < 32 => BytesBE(k, 32)[i] as bv8)
  }

  /** Byte-wise exclusive or with the repeated key. */
  function Decrypt(bytes: Bytes, key: Scalar): (r: Bytes)
    ensures |r| == |bytes|
    ensures forall i :: 0 <= i < |r| ==> r[i] == bytes[i] ^ KeyBytes(key)[i % 32]
  {
    seq(|bytes|, i requires 0 <= i < |bytes| => bytes[i] ^ KeyBytes(key)[i % 32])
  }

  function Encrypt(bytes: Bytes, key: Scalar): Bytes {
    Decrypt(bytes, key)
  }

  lemma XorTwice(a: bv8, b: bv8)
    ensures (a ^ b) ^ b == a
  {}

  lemma DecryptEncrypted(bytes: Bytes, key: Scalar)
    ensures Decrypt(Encrypt(bytes, key), key) == bytes
  {
    hide KeyBytes;
    forall i | 0 <= i < |bytes| ensures Decrypt(Encrypt(bytes, key), key)[i] == bytes[i] {
      XorTwice(bytes[i], KeyBytes(key)[i % 32]);
    }
  }

  // ---- dealing ----

  /** The reconstruction threshold n - 2t with t = n / 3. */
  function Quorum(n: nat): (q: nat)
    ensures n > 0 ==> q > 0
  {
    n - 2 * (n / 3)
  }

  function KeyAt(h: Hashes, p: seq<Scalar>, j: nat): Scalar {
    h.key(j, Red(Eval(p, j)))
  }

  function Ciphertext(h: Hashes, p: seq<Scalar>, message: Bytes): Bytes {
    Encrypt(message, KeyAt(h, p, 0))
  }

  function CodedShares(c: Code, h: Hashes, n: nat, p: seq<Scalar>, message: Bytes): seq<Bytes>
    requires n > 0
  {
    c.encode(Originals(Ciphertext(h, p, message), Quorum(n)), n)
  }

  /** Share j with the key of index j + 1 appended. */
  function Leaves(shares: seq<Bytes>, keys: seq<Scalar>): (r: seq<Bytes>)
    requires |keys| == |shares| + 1
    ensures |r| == |shares| && forall j :: 0 <= j < |r| ==> r[j] == shares[j] + KeyBytes(keys[j + 1])
  {
    seq(|shares|, j requires 0 <= j < |shares| => shares[j] + KeyBytes(keys[j + 1]))
  }

  function Keys(h: Hashes, p: seq<Scalar>, n: nat): (r: seq<Scalar>)
    ensures |r| == n + 1 && forall j :: 0 <= j <= n ==> r[j] == KeyAt(h, p, j)
  {
    seq(n + 1, j requires 0 <= j <= n => KeyAt(h, p, j))
  }

  ghost function RootOf(c: Code, h: Hashes, n: nat, p: seq<Scalar>, message: Bytes): Bytes
    requires n > 0 && IdealCode(c)
  {
    assert Recovers(c, Originals(Ciphertext(h, p, message), Quorum(n)), n, map[]);
    h.root(Leaves(CodedShares(c, h, n, p, message), Keys(h, p, n)))
  }

  /** What node j is dealt of the message with the polynomial p. */
  ghost predicate DealtTo(c: Code, h: Hashes, n: nat, p: seq<Scalar>, message: Bytes, j: nat, s: Secret)
    requires n > 0 && IdealCode(c)
  {
    && j < n == |CodedShares(c, h, n, p, message)|
    && s == Secret(Red(Eval(p, j + 1)), CodedShares(c, h, n, p, message)[j], RootOf(c, h, n, p, message), j + 1)
  }

  /** Enough dealt secrets, each stored under its node. */
  ghost predicate DealtSecrets(c: Code, h: Hashes, n: nat, p: seq<Scalar>, message: Bytes, secrets: map<nat, Secret>)
    requires n > 0 && IdealCode(c)
  {
    |p| == Quorum(n) <= |secrets| && forall j :: j in secrets ==> DealtTo(c, h, n, p, message, j, secrets[j])
  }

  // ---- interpolation at integer points ----

  /** The points before position j, without position i. */
  ghost function Prior(xs: seq<int>, i: nat, j: nat): seq<int>
    requires i < |xs| && j <= |xs|
  {
    if j <= i then xs[..j] else xs[..i] + xs[i + 1..j]
  }

  /** The term built up to position j: e times the product of (alpha - x), times `inv`,
      the inverse of the product of (x_i - x). */
  ghost predicate TermAt(term: int, e: int, xs: seq<int>, i: nat, alpha: int, j: nat, inv: int)
    requires i < |xs| && j <= |xs|
  {
    && Cong(Difference(xs[i], Prior(xs, i, j)) * inv, 1)
    && Cong(term, e * (Difference(alpha, Prior(xs, i, j)) * inv))
  }

  lemma TermStart(e: int, xs: seq<int>, i: nat, alpha: int)
    requires i < |xs|
    ensures TermAt(e, e, xs, i, alpha, 0, 1)
  {}

  lemma TermStep(term: int, e: int, xs: seq<int>, i: nat, alpha: int, j: nat, inv: int, numer: int, coeff: int)
    requires i < |xs| && j < |xs| && i != j && TermAt(term, e, xs, i, alpha, j, inv)
    requires Cong(numer, alpha - xs[j]) && Cong((xs[i] - xs[j]) * coeff, 1)
    ensures TermAt(Mul(term, Mul(numer, coeff)), e, xs, i, alpha, j + 1, Mul(inv, coeff))
  {
    hide Difference, Mul;
    var w := Prior(xs, i, j);
    assert Prior(xs, i, j + 1) == w + [xs[j]];
    OneMoreDifference(xs[i], w, xs[j]);
    OneMoreDifference(alpha, w, xs[j]);
    TermInverse(Difference(xs[i], w), inv, xs[i] - xs[j], coeff);
    TermProduct(term, e, Difference(alpha, w), inv, numer, alpha - xs[j], coeff);
  }

  lemma OneMoreDifference(x: int, w: seq<int>, a: int)
    ensures Difference(x, w + [a]) == Difference(x, w) * (x - a)
  {
    DifferenceAppend(x, w, [a]);
    assert Difference(x, [a]) == (x - a) * Difference(x, []);
  }

  lemma TermInverse(d: int, inv: int, f: int, coeff: int)
    requires Cong(d * inv, 1) && Cong(f * coeff, 1)
    ensures Cong((d * f) * Mul(inv, coeff), 1)
  {
    CongMul(d * inv, 1, f * coeff, 1);
    MulExchange(d, f, inv, coeff);
    CongMul(d * f, d * f, Mul(inv, coeff), inv * coeff);
  }

  lemma TermProduct(term: int, e: int, d: int, inv: int, numer: int, f: int, coeff: int)
    requires Cong(term, e * (d * inv)) && Cong(numer, f)
    ensures Cong(Mul(term, Mul(numer, coeff)), e * ((d * f) * Mul(inv, coeff)))
  {
    CongMul(numer, f, coeff, coeff);
    CongMul(term, e * (d * inv), Mul(numer, coeff), f * coeff);
    MulAssoc(e, d * inv, f * coeff);
    MulExchange(d, inv, f, coeff);
    CongMul(d * f, d * f, Mul(inv, coeff), inv * coeff);
    CongMul(e, e, (d * f) * Mul(inv, coeff), (d * f) * (inv * coeff));
  }

  lemma TermEnd(term: int, e: int, xs: seq<int>, i: nat, alpha: int, inv: int)
    requires i < |xs| && Distinct(xs) && TermAt(term, e, xs, i, alpha, |xs|, inv)
    ensures Cong(term, Basis(xs, i, alpha) * e)
  {
    hide Difference, Weight;
    var w := Without(xs, i);
    assert Prior(xs, i, |xs|) == w;
    WeightInverts(xs, i);
    InverseUnique(Difference(xs[i], w), inv, Weight(xs, i));
    BasisTimes(term, e, Difference(alpha, w), inv, Weight(xs, i));
  }

  lemma BasisTimes(term: int, e: int, d: int, inv: int, w: int)
    requires Cong(term, e * (d * inv)) && Cong(inv, w)
    ensures Cong(term, Red(d * w) * e)
  {
    CongMul(d, d, inv, w);
    CongMul(e, e, d * inv, Red(d * w));
    MulCommutes(e, Red(d * w));
  }

  /** Entry (i, j) of the matrix of inverted distances. */
  ghost predicate EntryAt(xs: seq<int>, i: nat, j: nat, v: int)
    requires i < |xs| && j < |xs|
  {
    i != j ==> Cong((xs[i] - xs[j]) * v, 1)
  }

  ghost predicate InverseAt(xs: seq<int>, row: seq<Scalar>, i: nat, j: nat)
    requires i < |xs| && j < |xs|
  {
    j < |row| && EntryAt(xs, i, j, row[j])
  }

  ghost predicate Apart(xs: seq<int>, i: nat, j: nat)
    requires i < |xs| && j < |xs|
  {
    i != j ==> !Cong(xs[i] - xs[j], 0)
  }

  /** Inverting zero is a panic. */
  method InverseEntry(xs: seq<int>, i: nat, j: nat) returns (v: Option<Scalar>)
    requires i < |xs| && j < |xs|
    ensures v.Some? <==> Apart(xs, i, j)
    ensures v.Some? ==> EntryAt(xs, i, j, v.value)
  {
    if i == j {
      return Some(0);
    }
    var d := Red(xs[i] - xs[j]);
    if d == 0 {
      return None;
    }
    InverseOfResidue(xs[i] - xs[j]);
    v := Some(Inv(d));
  }

  method InverseRow(xs: seq<int>, i: nat) returns (row: Option<seq<Scalar>>)
    requires i < |xs|
    ensures row.Some? <==> forall j: nat :: j < |xs| ==> Apart(xs, i, j)
    ensures row.Some? ==> |row.value| == |xs| && forall j: nat :: j < |xs| ==> InverseAt(xs, row.value, i, j)
  {
    hide Apart, EntryAt;
    var r: seq<Scalar> := [];
    for j := 0 to |xs|
      invariant |r| == j && forall k: nat :: k < j ==> Apart(xs, i, k) && InverseAt(xs, r, i, k)
    {
      var v := InverseEntry(xs, i, j);
      if v.None? {
        return None;
      }
      r := r + [v.value];
    }
    row := Some(r);
  }

  lemma InverseOfResidue(x: int)
    requires Red(x) != 0
    ensures Cong(x * Inv(Red(x)), 1) && !Cong(x, 0)
  {
    var v := Inv(Red(x));
    CongMul(Red(x), x, v, v);
  }

  ghost predicate InverseMatrix(xs: seq<int>, coeffs: seq<seq<Scalar>>) {
    |coeffs| == |xs| && forall i: nat, j: nat :: i < |xs| && j < |xs| ==> InverseAt(xs, coeffs[i], i, j)
  }

  method InverseDistances(xs: seq<int>) returns (coeffs: Option<seq<seq<Scalar>>>)
    ensures coeffs.Some? <==> Distinct(xs)
    ensures coeffs.Some? ==> InverseMatrix(xs, coeffs.value)
  {
    hide Distinct, Apart, InverseAt;
    var c: seq<seq<Scalar>> := [];
    for i := 0 to |xs|
      invariant |c| == i
      invariant forall k: nat, j: nat :: k < i && j < |xs| ==> Apart(xs, k, j) && InverseAt(xs, c[k], k, j)
    {
      var row := InverseRow(xs, i);
      if row.None? {
        ghost var j: nat :| j < |xs| && !Apart(xs, i, j);
        NotApart(xs, i, j);
        return None;
      }
      c := c + [row.value];
    }
    AllApart(xs);
    coeffs := Some(c);
  }

  lemma NotApart(xs: seq<int>, i: nat, j: nat)
    requires i < |xs| && j < |xs| && !Apart(xs, i, j)
    ensures !Distinct(xs)
  {
    CongAdd(xs[i] - xs[j], 0, xs[j], xs[j]);
    assert Cong(xs[i], xs[j]);
  }

  lemma AllApart(xs: seq<int>)
    requires forall i: nat, j: nat :: i < |xs| && j < |xs| ==> Apart(xs, i, j)
    ensures Distinct(xs)
  {
    forall i, j | 0 <= i < j < |xs| ensures !Cong(xs[i], xs[j]) {
      assert Apart(xs, i, j);
      if Cong(xs[i], xs[j]) { CongSub(xs[i], xs[j], xs[j], xs[j]); }
    }
  }

  /** The inner product loop of one term. */
  method Term(e: Scalar, xs: seq<int>, row: seq<Scalar>, i: nat, alpha: Scalar) returns (term: Scalar)
    requires i < |xs| && Distinct(xs) && forall j: nat :: j < |xs| ==> InverseAt(xs, row, i, j)
    ensures Cong(term, Basis(xs, i, alpha) * e)
  {
    hide Basis, TermAt, Distinct, Mul;
    ghost var inv := 1;
    term := e;
    TermStart(e, xs, i, alpha);
    for j := 0 to |xs|
      invariant TermAt(term, e, xs, i, alpha, j, inv)
    {
      assert InverseAt(xs, row, i, j) && EntryAt(xs, i, j, row[j]);
      if i != j {
        var numer := Sub(alpha, Red(xs[j]));
        DistanceResidue(alpha, xs[j]);
        TermStep(term, e, xs, i, alpha, j, inv, numer, row[j]);
        inv := Mul(inv, row[j]);
        term := Mul(term, Mul(numer, row[j]));
      } else {
        TermSkips(term, e, xs, i, alpha, inv);
      }
    }
    TermEnd(term, e, xs, i, alpha, inv);
  }

  lemma DistanceResidue(alpha: int, x: int)
    ensures Cong(Sub(alpha, Red(x)), alpha - x)
  {
    CongSub(alpha, alpha, Red(x), x);
  }

  lemma TermSkips(term: int, e: int, xs: seq<int>, i: nat, alpha: int, inv: int)
    requires i < |xs| && TermAt(term, e, xs, i, alpha, i, inv)
    ensures TermAt(term, e, xs, i, alpha, i + 1, inv)
  {
    assert Prior(xs, i, i + 1) == Prior(xs, i, i);
  }

  /** The value at alpha recombined from the evaluations at the points xs. */
  method InterpolateAt(xs: seq<int>, evals: seq<Scalar>, coeffs: seq<seq<Scalar>>, alpha: Scalar) returns (result: Scalar)
    requires |xs| == |evals| && Distinct(xs) && InverseMatrix(xs, coeffs)
    ensures result == Red(Dot(Bases(xs, alpha), evals))
  {
    hide Basis, Distinct, DotTo;
    result := 0;
    DotNone(Bases(xs, alpha), evals);
    for i := 0 to |xs|
      invariant result == Red(DotTo(Bases(xs, alpha), evals, i))
    {
      var term := Term(evals[i], xs, coeffs[i], i, alpha);
      DotStep(Bases(xs, alpha), evals, i + 1);
      CongAdd(result, DotTo(Bases(xs, alpha), evals, i), term, Basis(xs, i, alpha) * evals[i]);
      result := Add(result, term);
    }
  }

  /** The evaluation at a: the received one at a selected point, and otherwise the
      recombined one. */
  ghost function EvaluationAt(xs: seq<int>, evals: seq<Scalar>, a: nat): Scalar
    requires |xs| == |evals|
  {
    if a in xs then evals[Position(xs, a)] else Red(Dot(Bases(xs, Red(a)), evals))
  }

  /** `position`: the first occurrence. */
  function Position(xs: seq<int>, a: nat): (k: nat)
    requires a in xs
    ensures k < |xs| && xs[k] == a
  {
    if xs[0] == a then 0
    else
      assert xs == [xs[0]] + xs[1..];
      Position(xs[1..], a) + 1
  }

  /** The keys of all indices from 0 to n. */
  method AllKeys(h: Hashes, xs: seq<int>, evals: seq<Scalar>, coeffs: seq<seq<Scalar>>, n: nat) returns (keys: seq<Scalar>)
    requires |xs| == |evals| && Distinct(xs) && InverseMatrix(xs, coeffs)
    ensures |keys| == n + 1 && forall a :: 0 <= a <= n ==> keys[a] == h.key(a, EvaluationAt(xs, evals, a))
  {
    hide Basis, Bases, DotTo, Distinct, InverseMatrix;
    keys := [];
    for a := 0 to n + 1
      invariant |keys| == a && forall k :: 0 <= k < a ==> keys[k] == h.key(k, EvaluationAt(xs, evals, k))
    {
      var eval;
      if a in xs {
        eval := evals[Position(xs, a)];
      } else {
        eval := InterpolateAt(xs, evals, coeffs, Red(a));
      }
      keys := keys + [h.key(a, eval)];
    }
  }

  /** Evaluations of a polynomial with as many coefficients as points give all keys. */
  lemma KeysOfDealt(h: Hashes, p: seq<Scalar>, xs: seq<int>, evals: seq<Scalar>, n: nat, a: nat)
    requires |xs| == |evals| == |p| && Distinct(xs) && a <= n
    requires forall k :: 0 <= k < |xs| ==> evals[k] == Red(Eval(p, xs[k]))
    ensures EvaluationAt(xs, evals, a) == Red(Eval(p, a))
  {
    hide Eval, Basis, Bases, DotTo, Distinct;
    if a !in xs {
      ValuesAtPoints(p, xs, Red(a), evals);
      EvalCong(p, p, Red(a), a);
    }
  }

  // ---- decoding ----

  /** An iteration order of the secret map. */
  ghost predicate Enumerates(order: seq<nat>, secrets: map<nat, Secret>) {
    && |order| == |secrets|
    && (forall k :: 0 <= k < |order| ==> order[k] in secrets)
    && forall k, l :: 0 <= k < l < |order| ==> order[k] != order[l]
  }

  /** The indices and the evaluations of the first q secrets. */
  function SelectedOf(secrets: map<nat, Secret>, order: seq<nat>, q: nat): (r: seq<nat>)
    requires q <= |order| && forall k :: 0 <= k < |order| ==> order[k] in secrets
    ensures |r| == q && forall k :: 0 <= k < q ==> r[k] == secrets[order[k]].i
  {
    seq(q, k requires 0 <= k < q => secrets[order[k]].i)
  }

  function EvalsOf(secrets: map<nat, Secret>, order: seq<nat>, q: nat): (r: seq<Scalar>)
    requires q <= |order| && forall k :: 0 <= k < |order| ==> order[k] in secrets
    ensures |r| == q && forall k :: 0 <= k < q ==> r[k] == secrets[order[k]].eval
  {
    seq(q, k requires 0 <= k < q => secrets[order[k]].eval)
  }

  function Shards(secrets: map<nat, Secret>): map<nat, Bytes> {
    map j | j in secrets :: secrets[j].share
  }

  ghost function KeyFor(h: Hashes, xs: seq<int>, evals: seq<Scalar>, a: nat): Scalar
    requires |xs| == |evals|
  {
    h.key(a, EvaluationAt(xs, evals, a))
  }

  ghost function RecoveredKeys(h: Hashes, xs: seq<int>, evals: seq<Scalar>, n: nat): (r: seq<Scalar>)
    requires |xs| == |evals|
    ensures |r| == n + 1 && forall a :: 0 <= a <= n ==> r[a] == h.key(a, EvaluationAt(xs, evals, a))
  {
    seq(n + 1, a requires 0 <= a <= n => KeyFor(h, xs, evals, a))
  }

  /** What the re-encoded secret and the recovered keys decide. */
  ghost function Judged(c: Code, h: Hashes, n: nat, secret: Bytes, keys: seq<Scalar>, root: Bytes): DecodeResult
    requires n > 0 && IdealCode(c) && |keys| == n + 1
  {
    assert Recovers(c, Originals(secret, Quorum(n)), n, map[]);
    if h.root(Leaves(c.encode(Originals(secret, Quorum(n)), n), keys)) == root then Decoded(Decrypt(secret, keys[0]))
    else Panicked
  }

  /** What `decode` does with a map of secrets in the given order. */
  ghost function Outcome(c: Code, h: Hashes, n: nat, datas: DecoderData, secrets: map<nat, Secret>, order: seq<nat>)
    : DecodeResult
    requires n > 0 && IdealCode(c) && Enumerates(order, secrets)
  {
    var q := Quorum(n);
    if |secrets| < q then Panicked
    else
      var xs, evals := SelectedOf(secrets, order, q), EvalsOf(secrets, order, q);
      if !Distinct(xs) then Panicked
      else
        Judged(c, h, n, Rejoin(datas, c.decode(datas.t, datas.n, Shards(secrets))), RecoveredKeys(h, xs, evals, n),
               secrets[order[0]].root)
  }

  /** `decode`. */
  method Decode(c: Code, h: Hashes, n: nat, datas: DecoderData, secrets: map<nat, Secret>, order: seq<nat>)
    returns (r: DecodeResult)
    requires n > 0 && IdealCode(c) && Enumerates(order, secrets)
    ensures r == Outcome(c, h, n, datas, secrets, order)
  {
    hide IdealCode, EvaluationAt, Distinct, InverseMatrix, Judged, Rejoin;
    var t := n / 3;
    if |secrets| <= n - 2 * t - 1 {
      return Panicked;
    }
    var d := n - 2 * t - 1;
    var xs, evals := SelectedOf(secrets, order, d + 1), EvalsOf(secrets, order, d + 1);
    var coeffs := InverseDistances(xs);
    if coeffs.None? {
      return Panicked;
    }
    var keys := AllKeys(h, xs, evals, coeffs.value, n);
    var secret := ComputeSecretFromShares(datas, c.decode(datas.t, datas.n, Shards(secrets)));
    r := Judge(c, h, n, secret, keys, secrets[order[0]].root);
    assert keys == RecoveredKeys(h, xs, evals, n);
  }

  /** The root assertion and the decryption. */
  method Judge(c: Code, h: Hashes, n: nat, secret: Bytes, keys: seq<Scalar>, root: Bytes) returns (r: DecodeResult)
    requires n > 0 && IdealCode(c) && |keys| == n + 1
    ensures r == Judged(c, h, n, secret, keys, root)
  {
    hide Originals, Decrypt;
    assert Recovers(c, Originals(secret, Quorum(n)), n, map[]);
    hide IdealCode;
    var shares, _ := ReedSolomonEncode(c, secret, n, n - 2 * (n / 3));
    if h.root(Leaves(shares, keys)) != root {
      return Panicked;
    }
    r := Decoded(Decrypt(secret, keys[0]));
  }

  // ---- the round trip ----

  lemma SelectedPoints(c: Code, h: Hashes, n: nat, p: seq<Scalar>, message: Bytes, secrets: map<nat, Secret>,
                       order: seq<nat>)
    requires n > 0 && IdealCode(c) && n < P && DealtSecrets(c, h, n, p, message, secrets) && Enumerates(order, secrets)
    ensures var q := Quorum(n); var xs, evals := SelectedOf(secrets, order, q), EvalsOf(secrets, order, q);
            Distinct(xs) && forall k :: 0 <= k < q ==> evals[k] == Red(Eval(p, xs[k]))
  {
    hide Eval, CodedShares, RootOf, IdealCode;
    var q := Quorum(n);
    var xs := SelectedOf(secrets, order, q);
    forall k | 0 <= k < q ensures xs[k] == order[k] + 1 <= n && secrets[order[k]].eval == Red(Eval(p, xs[k])) {
      assert DealtTo(c, h, n, p, message, order[k], secrets[order[k]]);
    }
    hide DealtTo, DealtSecrets;
    forall i, j | 0 <= i < j < q ensures !Cong(xs[i], xs[j]) {
      assert order[i] != order[j];
    }
  }

  /** The erasure code and the rejoining give the ciphertext back. */
  lemma ShardsRejoin(c: Code, h: Hashes, n: nat, p: seq<Scalar>, message: Bytes, secrets: map<nat, Secret>, datas: DecoderData)
    requires n > 0 && IdealCode(c) && DealtSecrets(c, h, n, p, message, secrets)
    requires datas == DataOf(Ciphertext(h, p, message), n, Quorum(n))
    ensures Rejoin(datas, c.decode(datas.t, datas.n, Shards(secrets))) == Ciphertext(h, p, message)
  {
    hide Eval, Originals, Ciphertext, RootOf, Rejoin, DataOf;
    var q, m := Quorum(n), Ciphertext(h, p, message);
    DataFields(m, n, q);
    var shards := Shards(secrets);
    assert shards.Keys == secrets.Keys;
    forall j | j in shards ensures j < n && shards[j] == c.encode(Originals(m, q), n)[j] {
      assert DealtTo(c, h, n, p, message, j, secrets[j]);
    }
    assert Recovers(c, Originals(m, q), n, shards);
    RejoinOriginals(m, n, q);
  }

  lemma DataFields(m: Bytes, n: nat, t: nat)
    requires t > 0
    ensures DataOf(m, n, t).n == n && DataOf(m, n, t).t == t
  {}

  lemma KeysAgree(h: Hashes, p: seq<Scalar>, xs: seq<int>, evals: seq<Scalar>, n: nat)
    requires |xs| == |evals| == |p| && Distinct(xs) && forall k :: 0 <= k < |xs| ==> evals[k] == Red(Eval(p, xs[k]))
    ensures RecoveredKeys(h, xs, evals, n) == Keys(h, p, n)
  {
    hide Eval, EvaluationAt, Distinct;
    forall a | 0 <= a <= n ensures RecoveredKeys(h, xs, evals, n)[a] == Keys(h, p, n)[a] {
      KeysOfDealt(h, p, xs, evals, n, a);
    }
  }

  lemma JudgedDealt(c: Code, h: Hashes, n: nat, p: seq<Scalar>, message: Bytes)
    requires n > 0 && IdealCode(c)
    ensures Judged(c, h, n, Ciphertext(h, p, message), Keys(h, p, n), RootOf(c, h, n, p, message)) == Decoded(message)
  {
    hide Eval, Originals, Decrypt, KeyAt, IdealCode;
    DecryptEncrypted(message, KeyAt(h, p, 0));
  }

  /** Any n - 2t dealt secrets of a message, in any order, pass the root assertion and
      decode to the message. */
  lemma DecodesDealt(c: Code, h: Hashes, n: nat, p: seq<Scalar>, message: Bytes, secrets: map<nat, Secret>,
                     order: seq<nat>, datas: DecoderData)
    requires n > 0 && IdealCode(c) && n < P && DealtSecrets(c, h, n, p, message, secrets) && Enumerates(order, secrets)
    requires datas == DataOf(Ciphertext(h, p, message), n, Quorum(n))
    ensures Outcome(c, h, n, datas, secrets, order) == Decoded(message)
  {
    hide Eval, IdealCode, Distinct, EvaluationAt, Judged, Rejoin, RootOf, Ciphertext, DataOf, CodedShares;
    var q := Quorum(n);
    SelectedPoints(c, h, n, p, message, secrets, order);
    KeysAgree(h, p, SelectedOf(secrets, order, q), EvalsOf(secrets, order, q), n);
    ShardsRejoin(c, h, n, p, message, secrets, datas);
    assert DealtTo(c, h, n, p, message, order[0], secrets[order[0]]);
    JudgedDealt(c, h, n, p, message);
  }

  // ---- the dealer's transcripts ----

  /** What node j is sent: decoder data, a share and its root for every message, and
      the evaluations. */
  datatype Proposal = Proposal(datas: DecoderData, shares: seq<(Bytes, Bytes)>, evals: seq<Scalar>)

  /** Slot i of the proposal to node j is its part of message i. */
  ghost predicate SlotOf(c: Code, h: Hashes, n: nat, p: seq<Scalar>, message: Bytes, j: nat, share: (Bytes, Bytes), eval: Scalar)
    requires n > 0 && IdealCode(c)
  {
    && j < n == |CodedShares(c, h, n, p, message)|
    && share == (RootOf(c, h, n, p, message), CodedShares(c, h, n, p, message)[j])
    && eval == Red(Eval(p, j + 1))
  }

  /** The proposals after the first m messages. */
  ghost predicate Proposed(c: Code, h: Hashes, n: nat, polys: seq<seq<Scalar>>, messages: seq<Bytes>, m: nat,
                           shares: seq<seq<(Bytes, Bytes)>>, evals: seq<seq<Scalar>>)
    requires n > 0 && IdealCode(c) && m <= |polys| && m <= |messages|
  {
    && |shares| == |evals| == n
    && (forall j :: 0 <= j < n ==> |shares[j]| == |evals[j]| == m)
    && forall j, i :: 0 <= j < n && 0 <= i < m ==>
         SlotOf(c, h, n, polys[i], messages[i], j, shares[j][i], evals[j][i])
  }

  /** Encrypt, code and certify one message. */
  method Seal(c: Code, h: Hashes, n: nat, p: seq<Scalar>, message: Bytes)
    returns (shares: seq<Bytes>, datas: DecoderData, root: Bytes, evals: seq<Scalar>)
    requires n > 0 && IdealCode(c)
    ensures shares == CodedShares(c, h, n, p, message) && |shares| == n && |evals| == n
    ensures datas == DataOf(Ciphertext(h, p, message), n, Quorum(n)) && root == RootOf(c, h, n, p, message)
    ensures forall j :: 0 <= j < n ==> evals[j] == Red(Eval(p, j + 1))
  {
    hide Eval, Originals, DataOf, Decrypt;
    var keys: seq<Scalar> := [];
    evals := [];
    for j := 0 to n + 1
      invariant |keys| == j && |evals| == (if j == 0 then 0 else j - 1)
      invariant forall k :: 0 <= k < j ==> keys[k] == KeyAt(h, p, k)
      invariant forall k :: 0 <= k < |evals| ==> evals[k] == Red(Eval(p, k + 1))
    {
      var eval := Red(Eval(p, j));
      if j != 0 {
        evals := evals + [eval];
      }
      keys := keys + [h.key(j, eval)];
    }
    assert keys == Keys(h, p, n);
    shares, datas := ReedSolomonEncode(c, Encrypt(message, keys[0]), n, n - 2 * (n / 3));
    assert Recovers(c, Originals(Ciphertext(h, p, message), Quorum(n)), n, map[]);
    root := h.root(Leaves(shares, keys));
  }

  /** `get_secure_message_dis_transcripts`, with the random polynomials as a parameter. */
  method GetTranscripts(c: Code, h: Hashes, n: nat, polys: seq<seq<Scalar>>, messages: seq<Bytes>)
    returns (proposals: seq<Proposal>)
    requires n > 0 && IdealCode(c) && |messages| == |polys| == n
    ensures |proposals| == n
    ensures forall j :: 0 <= j < n ==>
      proposals[j].datas == DataOf(Ciphertext(h, polys[j], messages[j]), n, Quorum(n))
    ensures forall j, i :: 0 <= j < n && 0 <= i < n ==> ProposalSlot(c, h, n, polys, messages, proposals[j], j, i)
  {
    hide SlotOf, CodedShares, RootOf, IdealCode, DataOf, Ciphertext, Eval;
    var shares: seq<seq<(Bytes, Bytes)>>, evals: seq<seq<Scalar>> := seq(n, j => []), seq(n, j => []);
    var datas: seq<DecoderData> := [];
    for i := 0 to n
      invariant Proposed(c, h, n, polys, messages, i, shares, evals)
      invariant |datas| == i
      invariant forall k :: 0 <= k < i ==> datas[k] == DataOf(Ciphertext(h, polys[k], messages[k]), n, Quorum(n))
    {
      var s, d, root, e := Seal(c, h, n, polys[i], messages[i]);
      AppendSlots(c, h, n, polys, messages, i, shares, evals, s, root, e);
      shares := WithShares(shares, s, root);
      evals := WithEvals(evals, e);
      datas := datas + [d];
    }
    proposals := seq(n, j requires 0 <= j < n => Proposal(datas[j], shares[j], evals[j]));
  }

  ghost predicate ProposalSlot(c: Code, h: Hashes, n: nat, polys: seq<seq<Scalar>>, messages: seq<Bytes>, q: Proposal,
                               j: nat, i: nat)
    requires n > 0 && IdealCode(c) && i < |polys| && i < |messages|
  {
    i < |q.shares| && i < |q.evals| && SlotOf(c, h, n, polys[i], messages[i], j, q.shares[i], q.evals[i])
  }

  function WithShares(shares: seq<seq<(Bytes, Bytes)>>, s: seq<Bytes>, root: Bytes): (r: seq<seq<(Bytes, Bytes)>>)
    requires |s| == |shares|
    ensures |r| == |shares| && forall j :: 0 <= j < |r| ==> r[j] == shares[j] + [(root, s[j])]
  {
    seq(|shares|, j requires 0 <= j < |shares| => shares[j] + [(root, s[j])])
  }

  function WithEvals(evals: seq<seq<Scalar>>, e: seq<Scalar>): (r: seq<seq<Scalar>>)
    requires |e| == |evals|
    ensures |r| == |evals| && forall j :: 0 <= j < |r| ==> r[j] == evals[j] + [e[j]]
  {
    seq(|evals|, j requires 0 <= j < |evals| => evals[j] + [e[j]])
  }

  lemma AppendSlots(c: Code, h: Hashes, n: nat, polys: seq<seq<Scalar>>, messages: seq<Bytes>, i: nat,
                    shares: seq<seq<(Bytes, Bytes)>>, evals: seq<seq<Scalar>>, s: seq<Bytes>, root: Bytes, e: seq<Scalar>)
    requires n > 0 && IdealCode(c) && i < |polys| && i < |messages|
    requires Proposed(c, h, n, polys, messages, i, shares, evals) && |s| == |e| == n
    requires s == CodedShares(c, h, n, polys[i], messages[i]) && root == RootOf(c, h, n, polys[i], messages[i])
    requires forall j :: 0 <= j < n ==> e[j] == Red(Eval(polys[i], j + 1))
    ensures Proposed(c, h, n, polys, messages, i + 1, WithShares(shares, s, root), WithEvals(evals, e))
  {
    hide CodedShares, RootOf, IdealCode, Eval;
    var shares', evals' := WithShares(shares, s, root), WithEvals(evals, e);
    forall j, k | 0 <= j < n && 0 <= k < i + 1
      ensures SlotOf(c, h, n, polys[k], messages[k], j, shares'[j][k], evals'[j][k])
    {
      if k < i { assert SlotOf(c, h, n, polys[k], messages[k], j, shares[j][k], evals[j][k]); }
    }
  }

  /** The secret node i gets of its message from node j: `propose` at j echoes the slot,
      `new_echo` at i stores it under j. */
  function SecretFrom(q: Proposal, i: nat, j: nat): Secret
    requires i < |q.shares| && i < |q.evals|
  {
    Secret(q.evals[i], q.shares[i].1, q.shares[i].0, j + 1)
  }

  lemma SecretIsDealt(c: Code, h: Hashes, n: nat, polys: seq<seq<Scalar>>, messages: seq<Bytes>, q: Proposal, j: nat, i: nat)
    requires n > 0 && IdealCode(c) && i < |polys| && i < |messages| && ProposalSlot(c, h, n, polys, messages, q, j, i)
    ensures DealtTo(c, h, n, polys[i], messages[i], j, SecretFrom(q, i, j))
  {
    hide CodedShares, RootOf, IdealCode, Eval;
  }

  /** Distribution then decoding: for messages of equal length, any n - 2t nodes that
      echo their slots let node i decode its message, with the decoder data of any
      node. */
  method DistributeThenDecode(c: Code, h: Hashes, n: nat, polys: seq<seq<Scalar>>, messages: seq<Bytes>, i: nat,
                              nodes: seq<nat>, first: nat)
    returns (r: DecodeResult)
    requires 0 < n < P && IdealCode(c) && |messages| == |polys| == n && i < n && first < n
    requires forall k :: 0 <= k < n ==> |polys[k]| == Quorum(n) && |messages[k]| == |messages[i]|
    requires Quorum(n) <= |nodes| && forall k :: 0 <= k < |nodes| ==> nodes[k] < n
    requires forall k, l :: 0 <= k < l < |nodes| ==> nodes[k] != nodes[l]
    ensures r == Decoded(messages[i])
  {
    hide IdealCode, ProposalSlot, DataOf, Ciphertext, DealtSecrets, Enumerates, Eval;
    var proposals := GetTranscripts(c, h, n, polys, messages);
    var secrets := CollectSecrets(c, h, n, polys, messages, proposals, i, nodes);
    AnyData(h, n, polys[first], messages[first], polys[i], messages[i]);
    DecodesDealt(c, h, n, polys[i], messages[i], secrets, nodes, proposals[first].datas);
    r := Decode(c, h, n, proposals[first].datas, secrets, nodes);
  }

  /** The secrets of message i that the given nodes echo. */
  method CollectSecrets(c: Code, h: Hashes, n: nat, ghost polys: seq<seq<Scalar>>, ghost messages: seq<Bytes>,
                        proposals: seq<Proposal>, i: nat, nodes: seq<nat>)
    returns (secrets: map<nat, Secret>)
    requires n > 0 && IdealCode(c) && |messages| == |polys| == |proposals| == n && i < n && |polys[i]| == Quorum(n)
    requires forall j, k :: 0 <= j < n && 0 <= k < n ==> ProposalSlot(c, h, n, polys, messages, proposals[j], j, k)
    requires Quorum(n) <= |nodes| && forall k :: 0 <= k < |nodes| ==> nodes[k] < n
    requires forall k, l :: 0 <= k < l < |nodes| ==> nodes[k] != nodes[l]
    ensures DealtSecrets(c, h, n, polys[i], messages[i], secrets) && Enumerates(nodes, secrets)
  {
    hide IdealCode, ProposalSlot, DealtTo, SecretFrom;
    forall j | 0 <= j < n ensures i < |proposals[j].shares| && i < |proposals[j].evals| {
      SlotExists(c, h, n, polys, messages, proposals[j], j, i);
    }
    secrets := map j | j in nodes :: SecretFrom(proposals[j], i, j);
    NodesAreKeys(nodes, secrets.Keys);
    forall j | j in secrets ensures DealtTo(c, h, n, polys[i], messages[i], j, secrets[j]) {
      SecretIsDealt(c, h, n, polys, messages, proposals[j], j, i);
    }
  }

  lemma SlotExists(c: Code, h: Hashes, n: nat, polys: seq<seq<Scalar>>, messages: seq<Bytes>, q: Proposal, j: nat, i: nat)
    requires n > 0 && IdealCode(c) && i < |polys| && i < |messages| && ProposalSlot(c, h, n, polys, messages, q, j, i)
    ensures i < |q.shares| && i < |q.evals|
  {}

  lemma {:induction false} NodesAreKeys(nodes: seq<nat>, keys: set<nat>)
    requires keys == set j | j in nodes
    requires forall k, l :: 0 <= k < l < |nodes| ==> nodes[k] != nodes[l]
    ensures |keys| == |nodes|
  {
    if |nodes| > 0 {
      var init, last := nodes[..|nodes| - 1], nodes[|nodes| - 1];
      assert nodes == init + [last];
      NodesAreKeys(init, set j | j in init);
      assert last !in init;
      assert keys == (set j | j in init) + {last};
    }
  }

  lemma AnyData(h: Hashes, n: nat, p: seq<Scalar>, a: Bytes, q: seq<Scalar>, b: Bytes)
    requires n > 0 && |a| == |b|
    ensures DataOf(Ciphertext(h, p, a), n, Quorum(n)) == DataOf(Ciphertext(h, q, b), n, Quorum(n))
  {
    hide DataOf, KeyAt;
    SameLengthSameData(Ciphertext(h, p, a), Ciphertext(h, q, b), n, Quorum(n));
  }
}
