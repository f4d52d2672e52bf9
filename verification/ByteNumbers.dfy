/** Bytes as numbers. */
module ByteNumbers {

  /** The number big-endian digits to the base 256 stand for. */
  function BigEndian(b: seq<nat>): nat {
    if |b| == 0 then 0 else BigEndian(b[..|b| - 1]) * 256 + b[|b| - 1]
  }

  function Numbers(b: seq<bv8>): (r: seq<nat>)
    ensures |r| == |b| && forall i :: 0 <= i < |b| ==> r[i] == b[i] as nat
  {
    seq(|b|, i requires 0 <= i < |b| => b[i] as nat)
  }

  lemma ByteBack(x: nat)
    requires x < 256
    ensures (x as bv8) as nat == x
  {}

  predicate Masked(c: bv8, a: bv8, mask: bv8) {
    c == a ^ mask
  }

  lemma SameMask(c: bv8, a: bv8, x: bv8, y: bv8)
    requires Masked(c, a, x) && Masked(c, a, y)
    ensures x == y
  {
    assert a ^ (a ^ x) == x && a ^ (a ^ y) == y;
  }
}
