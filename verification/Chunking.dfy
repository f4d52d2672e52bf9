/** Base-2^16 chunks of a scalar (vss/ni_vss/chunking.rs). */
module Chunking {
  import opened ScalarField
  import opened PolynomialAlgebra

  const CHUNK_SIZE: nat := 65536
  const NUM_CHUNKS: nat := 16

  /** A scalar is encoded in 16 chunks and every chunk is a scalar. */
  ghost predicate ScalarsFit() {
    CHUNK_SIZE < P <= Pow(CHUNK_SIZE, NUM_CHUNKS)
  }

  /** The n low digits of s, least significant first. */
  function Digits(s: nat, n: nat): (r: seq<nat>)
    ensures |r| == n && forall i :: 0 <= i < n ==> r[i] < CHUNK_SIZE
  {
    if n == 0 then [] else [s % CHUNK_SIZE] + Digits(s / CHUNK_SIZE, n - 1)
  }

  /** The n low bytes of s, most significant first. */
  function BytesBE(s: nat, n: nat): (r: seq<nat>)
    ensures |r| == n && forall i :: 0 <= i < n ==> r[i] < 256
  {
    if n == 0 then [] else BytesBE(s / 256, n - 1) + [s % 256]
  }

  function Reversed(s: seq<int>): (r: seq<int>)
    ensures |r| == |s| && forall i :: 0 <= i < |s| ==> r[i] == s[|s| - 1 - i]
  {
    seq(|s|, i requires 0 <= i < |s| => s[|s| - 1 - i])
  }

  lemma TwoBytes(s: nat)
    ensures s / 256 / 256 == s / CHUNK_SIZE
    ensures (s / 256 % 256) * 256 + s % 256 == s % CHUNK_SIZE
  {}

  lemma {:induction false} ChunkBytes(s: nat, n: nat, i: nat)
    requires i < n
    ensures BytesBE(s, 2 * n)[2 * i] * 256 + BytesBE(s, 2 * n)[2 * i + 1] == Digits(s, n)[n - 1 - i]
  {
    TwoBytes(s);
    var h, b := BytesBE(s / CHUNK_SIZE, 2 * n - 2), BytesBE(s, 2 * n);
    assert BytesBE(s / 256, 2 * n - 1) == h + [s / 256 % 256];
    assert b == h + [s / 256 % 256] + [s % 256];
    if i < n - 1 {
      ChunkBytes(s / CHUNK_SIZE, n - 1, i);
    }
  }

  /** `from_scalar`: pairs of big-endian bytes, in reverse. */
  method FromScalar(s: Scalar) returns (chunks: seq<nat>)
    ensures chunks == Digits(s, NUM_CHUNKS)
  {
    var bytes := BytesBE(s, 2 * NUM_CHUNKS);
    var a := new nat[NUM_CHUNKS](i => 0);
    for i := 0 to NUM_CHUNKS
      invariant forall k :: 0 <= k < i ==> a[k] == Digits(s, NUM_CHUNKS)[NUM_CHUNKS - 1 - k]
    {
      hide Digits, BytesBE;
      a[i] := bytes[2 * i] * 256 + bytes[2 * i + 1];
      ChunkBytes(s, NUM_CHUNKS, i);
    }
    chunks := Reversed(a[..]);
  }

  lemma {:induction false} DigitsValue(s: nat, n: nat)
    requires s < Pow(CHUNK_SIZE, n)
    ensures Eval(Digits(s, n), CHUNK_SIZE) == s
  {
    if n > 0 {
      DigitsValue(s / CHUNK_SIZE, n - 1);
      assert Digits(s, n)[1..] == Digits(s / CHUNK_SIZE, n - 1);
    }
  }

  /** The chunks of a scalar carry its value. */
  lemma ChunksValue(s: Scalar)
    requires ScalarsFit()
    ensures Eval(Digits(s, NUM_CHUNKS), CHUNK_SIZE) == s
  {
    hide Pow;
    DigitsValue(s, NUM_CHUNKS);
  }

  lemma HornerStep(chunks: seq<int>, k: nat, acc: int)
    requires k < |chunks| && Cong(acc, Eval(chunks[k + 1..], CHUNK_SIZE))
    ensures Add(Mul(acc, CHUNK_SIZE), Red(chunks[k])) == Red(Eval(chunks[k..], CHUNK_SIZE))
  {
    var e := Eval(chunks[k + 1..], CHUNK_SIZE);
    assert chunks[k..][1..] == chunks[k + 1..];
    CongMul(acc, e, CHUNK_SIZE, CHUNK_SIZE);
    CongAdd(Mul(acc, CHUNK_SIZE), e * CHUNK_SIZE, Red(chunks[k]), chunks[k]);
  }

  /** The Horner loop of `from_dlogs` and `recombine_to_scalar`, most significant first. */
  method Horner(dlogs: seq<int>) returns (acc: Scalar)
    ensures acc == Red(Eval(Reversed(dlogs), CHUNK_SIZE))
  {
    acc := 0;
    ghost var low := Reversed(dlogs);
    assert low[|dlogs|..] == [];
    hide Mul, Add;
    for k := 0 to |dlogs|
      invariant acc == Red(Eval(low[|dlogs| - k..], CHUNK_SIZE))
    {
      hide Eval;
      HornerStep(low, |dlogs| - k - 1, acc);
      acc := Add(Mul(acc, CHUNK_SIZE), Red(dlogs[k]));
    }
    assert low[0..] == low;
  }

  /** `recombine_to_scalar`. */
  method RecombineToScalar(chunks: seq<nat>) returns (acc: Scalar)
    ensures acc == Red(Eval(chunks, CHUNK_SIZE))
  {
    hide Eval;
    acc := Horner(Reversed(chunks));
    assert Reversed(Reversed(chunks)) == chunks;
  }

  /** `from_dlogs`. */
  method FromDlogs(dlogs: seq<Scalar>) returns (chunks: seq<nat>)
    ensures chunks == Digits(Red(Eval(Reversed(dlogs), CHUNK_SIZE)), NUM_CHUNKS)
  {
    hide Eval, Digits;
    var acc := Horner(dlogs);
    chunks := FromScalar(acc);
  }
}
