/** Padding, splitting and rejoining around the external erasure code
    (crypto/data_structures/reed_solomon_code.rs). */
module ReedSolomon {
  import opened ScalarField
  import opened EvaluationDomain

  type Bytes = seq<bv8>

  /** The external code: n recovery shards from the original ones, and the original
      ones back from the number of originals, n and some recovery shards. */
  datatype Code = Code(encode: (seq<Bytes>, nat) -> seq<Bytes>, decode: (nat, nat, map<nat, Bytes>) -> seq<Bytes>)

  ghost predicate Recovers(c: Code, originals: seq<Bytes>, n: nat, shards: map<nat, Bytes>) {
    && |c.encode(originals, n)| == n
    && (|shards| >= |originals| && (forall k :: k in shards ==> k < n && shards[k] == c.encode(originals, n)[k]) ==>
          c.decode(|originals|, n, shards) == originals)
  }

  /** As many recovery shards as there were originals determine the originals. */
  ghost predicate IdealCode(c: Code) {
    forall originals, n, shards :: Recovers(c, originals, n, shards)
  }

  datatype DecoderData = DecoderData(n: nat, t: nat, shareSize: nat, pow2Size: nat, originalMessageLen: nat)

  function ZeroBytes(n: nat): (r: Bytes)
    ensures |r| == n && forall i :: 0 <= i < n ==> r[i] == 0
  {
    seq(n, i => 0)
  }

  /** The least power of two from 2^l on that reaches n. */
  function PowerFrom(n: nat, l: nat): nat
    decreases if Pow2(l) < n then n - Pow2(l) else 0
  {
    if Pow2(l) >= n then Pow2(l) else PowerFrom(n, l + 1)
  }

  lemma {:induction false} PowerFromIs(n: nat, l: nat, k: nat)
    requires k <= l && IsLogCeil(n, l)
    ensures PowerFrom(n, k) == Pow2(l)
    decreases l - k
  {
    if k < l {
      Pow2Monotone(k, l - 1);
      PowerFromIs(n, l, k + 1);
    }
  }

  /** How many zero bytes make the length a multiple of t. */
  function Padding(len: nat, t: nat): (p: nat)
    requires t > 0
    ensures p < t && (len + p) % t == 0
  {
    PaddingWorks(len, t);
    if len % t == 0 then 0 else t - len % t
  }

  lemma PaddingWorks(len: nat, t: nat)
    requires t > 0
    ensures len % t != 0 ==> (len + (t - len % t)) % t == 0
  {
    if len % t != 0 {
      var q := len / t;
      assert len == t * q + len % t;
      assert len + (t - len % t) == t * (q + 1);
      MultipleHasNoRest(q + 1, t);
    }
  }

  lemma MultipleHasNoRest(q: nat, t: nat)
    requires t > 0
    ensures (t * q) % t == 0
  {
    var d, r := (t * q) / t, (t * q) % t;
    assert t * q == t * d + r;
    MulDistribute(t, q, d);
    SmallMultiple(t, q - d);
  }

  function Padded(message: Bytes, t: nat): (r: Bytes)
    requires t > 0
    ensures |r| % t == 0 && message <= r
  {
    message + ZeroBytes(Padding(|message|, t))
  }

  function ShareSize(message: Bytes, t: nat): nat
    requires t > 0
  {
    |Padded(message, t)| / t
  }

  function ShardSize(shareSize: nat): (r: nat)
    ensures r >= shareSize && r >= 64
  {
    PowerReaches(shareSize, 0);
    var p := PowerFrom(shareSize, 0);
    if p < 64 then 64 else p
  }

  lemma {:induction false} PowerReaches(n: nat, l: nat)
    ensures PowerFrom(n, l) >= n
    decreases if Pow2(l) < n then n - Pow2(l) else 0
  {
    if Pow2(l) < n { PowerReaches(n, l + 1); }
  }

  /** The search stops at the first power of two that reaches n. */
  lemma {:induction false} PowerFromLeast(n: nat, l: nat) returns (k: nat)
    ensures k >= l && PowerFrom(n, l) == Pow2(k) && (k == l || Pow2(k - 1) < n)
    decreases if Pow2(l) < n then n - Pow2(l) else 0
  {
    k := l;
    if Pow2(l) < n {
      k := PowerFromLeast(n, l + 1);
    }
  }

  /** A shard is as long as the least power of two that reaches both the share and 64. */
  lemma ShardSizeIsLeast(shareSize: nat)
    ensures exists l :: ShardSize(shareSize) == Pow2(l)
    ensures forall k: nat :: Pow2(k) >= shareSize && Pow2(k) >= 64 ==> Pow2(k) >= ShardSize(shareSize)
  {
    var l := PowerFromLeast(shareSize, 0);
    assert Pow2(6) == 64;
    forall k: nat | Pow2(k) >= shareSize && Pow2(k) >= 64 ensures Pow2(k) >= ShardSize(shareSize) {
      if l > 0 && k < l { Pow2Monotone(k, l - 1); }
      if k >= l { Pow2Monotone(l, k); }
    }
    if Pow2(l) < 64 { assert ShardSize(shareSize) == Pow2(6); }
  }

  /** Chunk i of the padded message, as the range the loop reads. */
  function Chunk(padded: Bytes, size: nat, t: nat, i: nat): (r: Bytes)
    requires i < t && |padded| == size * t
    ensures |r| == size
  {
    ChunkFits(size, t, i);
    padded[i * size..i * size + size]
  }

  lemma ChunkFits(size: nat, t: nat, i: nat)
    requires i < t
    ensures 0 <= i * size && i * size + size <= size * t
  {
    MulMonotone(i + 1, t, size);
    MulDistribute(size, i, 1);
  }

  lemma WholeShares(len: nat, t: nat)
    requires t > 0 && len % t == 0
    ensures len == (len / t) * t
  {}

  /** The original shards: chunks filled up with zeros. */
  function Originals(message: Bytes, t: nat): (r: seq<Bytes>)
    requires t > 0
    ensures |r| == t
  {
    var padded, size := Padded(message, t), ShareSize(message, t);
    WholeShares(|padded|, t);
    seq(t, i requires 0 <= i < t => Chunk(padded, size, t, i) + ZeroBytes(ShardSize(size) - size))
  }

  function DataOf(message: Bytes, n: nat, t: nat): DecoderData
    requires t > 0
  {
    var size := ShareSize(message, t);
    DecoderData(n, t, size, ShardSize(size), |message|)
  }

  /** `reed_solomon_encode`. */
  method ReedSolomonEncode(c: Code, message0: Bytes, n: nat, t: nat) returns (shares: seq<Bytes>, datas: DecoderData)
    requires t > 0
    ensures shares == c.encode(Originals(message0, t), n) && datas == DataOf(message0, n, t)
  {
    var message := Pad(message0, t);
    var shareSize := |message| / t;
    var pow2Size, l := SmallestPowerOf2GreaterOrEqThan(shareSize);
    PowerFromIs(shareSize, l, 0);
    if pow2Size < 64 {
      pow2Size := 64;
    }
    assert pow2Size == ShardSize(shareSize);
    WholeShares(|message|, t);
    var originals: seq<Bytes> := [];
    for k := 0 to t
      invariant |originals| == k
      invariant forall j :: 0 <= j < k ==> originals[j] == Originals(message0, t)[j]
    {
      ChunkFits(shareSize, t, k);
      var i := k * shareSize;
      var msg := message[i..i + shareSize];
      msg := msg + ZeroBytes(pow2Size - shareSize);
      originals := originals + [msg];
    }
    assert originals == Originals(message0, t);
    shares := c.encode(originals, n);
    datas := DecoderData(n, t, shareSize, pow2Size, |message0|);
  }

  /** The padding loop. */
  method Pad(message0: Bytes, t: nat) returns (message: Bytes)
    requires t > 0
    ensures message == Padded(message0, t)
  {
    message := message0;
    ghost var k := 0;
    while |message| % t != 0
      invariant k <= Padding(|message0|, t) && message == message0 + ZeroBytes(k)
      decreases Padding(|message0|, t) - k
    {
      StillPadding(|message0|, t, k);
      message := message + [0];
      k := k + 1;
      assert message == message0 + ZeroBytes(k);
    }
    PaddingEnds(|message0|, t, k);
  }

  lemma StillPadding(len: nat, t: nat, k: nat)
    requires t > 0 && k <= Padding(len, t) && (len + k) % t != 0
    ensures k < Padding(len, t)
  {}

  lemma PaddingEnds(len: nat, t: nat, k: nat)
    requires t > 0 && k <= Padding(len, t) && (len + k) % t == 0
    ensures k == Padding(len, t)
  {
    var p := Padding(len, t);
    var a, b := (len + k) / t, (len + p) / t;
    assert len + k == t * a && len + p == t * b;
    MulDistribute(t, b, a);
    assert p - k == t * (b - a);
    SmallMultiple(t, b - a);
  }

  // ---- rejoining ----

  function Truncated(b: Bytes, n: nat): Bytes {
    if n < |b| then b[..n] else b
  }

  /** The first k shards, cut to the share size and strung together. */
  function Joined(shards: seq<Bytes>, shareSize: nat, k: nat): Bytes
    requires k <= |shards|
  {
    if k == 0 then [] else Joined(shards, shareSize, k - 1) + Truncated(shards[k - 1], shareSize)
  }

  function Rejoin(datas: DecoderData, shards: seq<Bytes>): Bytes {
    Truncated(Joined(shards, datas.shareSize, |shards|), datas.originalMessageLen)
  }

  /** `compute_secret_from_shares`. */
  method ComputeSecretFromShares(datas: DecoderData, shares: seq<Bytes>) returns (message: Bytes)
    ensures message == Rejoin(datas, shares)
  {
    message := [];
    for k := 0 to |shares|
      invariant message == Joined(shares, datas.shareSize, k)
    {
      message := message + Truncated(shares[k], datas.shareSize);
    }
    message := Truncated(message, datas.originalMessageLen);
  }

  lemma {:induction false} JoinedPrefix(message: Bytes, t: nat, k: nat, end: nat)
    requires 0 < t && k <= t && end == k * ShareSize(message, t)
    ensures end <= |Padded(message, t)|
    ensures Joined(Originals(message, t), ShareSize(message, t), k) == Padded(message, t)[..end]
  {
    hide Padded, ShareSize, Originals, Joined, Chunk;
    var padded, size, o := Padded(message, t), ShareSize(message, t), Originals(message, t);
    OneSize(message, t);
    if k == 0 {
      NothingJoined(o, size);
      assert padded[..0] == [];
    } else {
      LastChunk(size, t, k, end);
      JoinedPrefix(message, t, k - 1, end - size);
      OneMore(message, t, k - 1, end - size);
      JoinedStep(o, size, k);
      assert padded[..end] == padded[..end - size] + padded[end - size..end];
    }
  }

  lemma OneSize(message: Bytes, t: nat)
    requires t > 0
    ensures |Padded(message, t)| == ShareSize(message, t) * t
  {
    hide Padded;
    WholeShares(|Padded(message, t)|, t);
  }

  lemma NothingJoined(shards: seq<Bytes>, size: nat)
    ensures Joined(shards, size, 0) == []
  {}

  lemma JoinedStep(shards: seq<Bytes>, size: nat, k: nat)
    requires 0 < k <= |shards|
    ensures Joined(shards, size, k) == Joined(shards, size, k - 1) + Truncated(shards[k - 1], size)
  {}

  lemma LastChunk(size: nat, t: nat, k: nat, end: nat)
    requires 0 < k <= t && end == k * size
    ensures size <= end <= size * t && end - size == (k - 1) * size
  {
    ChunkFits(size, t, k - 1);
    MulDistribute(size, k, 1);
  }

  lemma OneMore(message: Bytes, t: nat, i: nat, from: nat)
    requires i < t && from == i * ShareSize(message, t)
    ensures |Padded(message, t)| == ShareSize(message, t) * t && from + ShareSize(message, t) <= |Padded(message, t)|
    ensures Truncated(Originals(message, t)[i], ShareSize(message, t)) ==
      Padded(message, t)[from..from + ShareSize(message, t)]
  {
    hide Padded;
    WholeShares(|Padded(message, t)|, t);
    ChunkFits(ShareSize(message, t), t, i);
  }

  /** Splitting and rejoining give the message back, whatever its length. */
  lemma RejoinOriginals(message: Bytes, n: nat, t: nat)
    requires t > 0
    ensures Rejoin(DataOf(message, n, t), Originals(message, t)) == message
  {
    hide Originals, Joined;
    var padded, size := Padded(message, t), ShareSize(message, t);
    WholeShares(|padded|, t);
    MulCommutes(t, size);
    JoinedPrefix(message, t, t, |padded|);
    assert padded[..|padded|] == padded;
  }

  /** Only the length of the message shows in its decoder data. */
  lemma SameLengthSameData(a: Bytes, b: Bytes, n: nat, t: nat)
    requires t > 0 && |a| == |b|
    ensures DataOf(a, n, t) == DataOf(b, n, t)
  {}
}
