/** The radix-2 FFT and its inverse (fft.rs). */
module Fft {
  import opened ScalarField
  import opened PolynomialAlgebra
  import opened EvaluationDomain
  import opened Interpolation

  // ---- the specification ----

  /** The discrete Fourier transform: the values of the polynomial c at
      w^0, w^1, .., w^(n-1). */
  function Dft(c: seq<int>, w: int, n: nat): (r: seq<Scalar>)
    ensures |r| == n
    ensures forall k :: 0 <= k < n ==> r[k] == Red(Eval(c, Pow(w, k)))
  {
    seq(n, k requires 0 <= k < n => Red(Eval(c, Pow(w, k))))
  }

  // ---- bit reversal ----

  /** The l low bits of n, reversed. */
  function Reverse(n: nat, l: nat): nat {
    if l == 0 then 0 else (if n % 2 == 1 then Pow2(l - 1) else 0) + Reverse(n / 2, l - 1)
  }

  lemma {:induction false} ReverseBound(n: nat, l: nat)
    ensures Reverse(n, l) < Pow2(l)
  {
    if l > 0 { ReverseBound(n / 2, l - 1); }
  }

  /** Reversal also peels the top bit of its argument. */
  lemma {:induction false} ReverseTop(h: bool, n: nat, l: nat)
    requires l > 0 && n < Pow2(l - 1)
    ensures Reverse((if h then Pow2(l - 1) else 0) + n, l) == 2 * Reverse(n, l - 1) + if h then 1 else 0
  {
    var m := (if h then Pow2(l - 1) else 0) + n;
    if l > 1 {
      var p := if h then Pow2(l - 2) else 0;
      assert m % 2 == n % 2 && m / 2 == p + n / 2;
      ReverseTop(h, n / 2, l - 1);
    }
  }

  lemma {:induction false} ReverseInvolution(n: nat, l: nat)
    requires n < Pow2(l)
    ensures Reverse(Reverse(n, l), l) == n
  {
    if l > 0 {
      var r := Reverse(n / 2, l - 1);
      ReverseBound(n / 2, l - 1);
      ReverseInvolution(n / 2, l - 1);
      ReverseTop(n % 2 == 1, r, l);
      assert Reverse(n, l) == (if n % 2 == 1 then Pow2(l - 1) else 0) + r;
    }
  }

  method BitReverse(n0: nat, l: nat) returns (r: nat)
    ensures r == Reverse(n0, l)
  {
    var n := n0;
    r := 0;
    for i := 0 to l
      invariant Reverse(n0, l) == r * Pow2(l - i) + Reverse(n, l - i)
    {
      assert Pow2(l - i) == 2 * Pow2(l - i - 1);
      ShiftIn(r, n % 2, Pow2(l - i - 1));
      r := 2 * r + n % 2;
      n := n / 2;
    }
  }

  lemma ShiftIn(r: nat, b: nat, p: nat)
    requires b < 2
    ensures (2 * r + b) * p == r * (2 * p) + if b == 1 then p else 0
  {}

  // ---- decimation in time ----

  /** The polynomial with the m coefficients a[o], a[o + q], a[o + 2q], .., at x. */
  function Strided(a: seq<int>, o: nat, q: nat, m: nat, x: int): int
    decreases m
  {
    if m == 0 then 0 else At(a, o) + x * Strided(a, o + q, q, m - 1, x)
  }

  lemma {:induction false} StridedSplit(a: seq<int>, o: nat, q: nat, m: nat, x: int)
    ensures Strided(a, o, q, 2 * m, x)
         == Strided(a, o, 2 * q, m, x * x) + x * Strided(a, o + q, 2 * q, m, x * x)
    decreases m
  {
    if m > 0 {
      StridedSplit(a, o + 2 * q, q, m - 1, x);
      var e, d := Strided(a, o + 2 * q, 2 * q, m - 1, x * x), Strided(a, o + q + 2 * q, 2 * q, m - 1, x * x);
      assert Strided(a, o, q, 2 * m, x) == At(a, o) + x * Strided(a, o + q, q, 2 * m - 1, x);
      assert Strided(a, o + q, q, 2 * m - 1, x) == At(a, o + q) + x * Strided(a, o + q + q, q, 2 * (m - 1), x);
      SplitStep(At(a, o), At(a, o + q), x, e, d);
    }
  }

  lemma SplitStep(a: int, b: int, x: int, e: int, d: int)
    ensures a + x * (b + x * (e + x * d)) == (a + (x * x) * e) + x * (b + (x * x) * d)
  {}

  lemma {:induction false} StridedCong(a: seq<int>, o: nat, q: nat, m: nat, x: int, y: int)
    requires Cong(x, y)
    ensures Cong(Strided(a, o, q, m, x), Strided(a, o, q, m, y))
    decreases m
  {
    if m > 0 {
      StridedCong(a, o + q, q, m - 1, x, y);
      var u, v := Strided(a, o + q, q, m - 1, x), Strided(a, o + q, q, m - 1, y);
      CongMul(x, y, u, v);
      CongAdd(At(a, o), At(a, o), x * u, y * v);
    }
  }

  lemma {:induction false} StridedIsEval(a: seq<int>, o: nat, x: int)
    requires o <= |a|
    ensures Strided(a, o, 1, |a| - o, x) == Eval(a[o..], x)
    decreases |a| - o
  {
    if o < |a| {
      StridedIsEval(a, o + 1, x);
      assert a[o..][1..] == a[o + 1..];
    }
  }

  /** Entry j of block b after stage s of a transform of size 2^l. */
  function Block(a: seq<int>, w: int, l: nat, s: nat, b: nat, j: nat): Scalar
    requires s <= l
  {
    Red(Strided(a, Reverse(b, l - s), Pow2(l - s), Pow2(s), Pow(w, Pow2(l - s) * j)))
  }

  /** The array entry i after stage s. */
  function Stage(a: seq<int>, w: int, l: nat, s: nat, i: nat): Scalar
    requires s <= l
  {
    Block(a, w, l, s, BlockOf(i, Pow2(s)), OffsetOf(i, Pow2(s)))
  }

  function BlockOf(i: nat, m: nat): nat
    requires m > 0
  {
    i / m
  }

  function OffsetOf(i: nat, m: nat): nat
    requires m > 0
  {
    i % m
  }

  lemma Locate(i: nat, m: int, b: nat, j: nat)
    requires i == b * m + j && j < m
    ensures BlockOf(i, m) == b && OffsetOf(i, m) == j
  {
    var d := i / m;
    assert i == m * d + i % m;
    MulDistribute(m, d, b);
    SmallMultiple(m, d - b);
  }

  /** The arithmetic of one butterfly. */
  lemma ButterflyArithmetic(u: int, v: int, w: int, e: int, d: int, x: int)
    requires Cong(u, e) && Cong(v, d) && Cong(w, x)
    ensures Add(u, Mul(v, w)) == Red(e + x * d)
    ensures Sub(u, Mul(v, w)) == Red(e + (-x) * d)
  {
    CongMul(v, d, w, x);
    CongAdd(u, e, Mul(v, w), d * x);
    CongSub(u, e, Mul(v, w), d * x);
    NegativeFactor(x, d);
  }

  lemma NegativeFactor(x: int, d: int)
    ensures (-x) * d == -(d * x) && x * d == d * x
  {}

  /** How block b of stage s + 1 splits into blocks 2b and 2b + 1 of stage s. */
  lemma BlockSplit(a: seq<int>, w: int, l: nat, s: nat, b: nat, x: int, y: int)
    requires s < l && Cong(y, x * x)
    ensures Red(Strided(a, Reverse(b, l - s - 1), Pow2(l - s - 1), Pow2(s + 1), x))
         == Red(Strided(a, Reverse(2 * b, l - s), Pow2(l - s), Pow2(s), y)
                + x * Strided(a, Reverse(2 * b + 1, l - s), Pow2(l - s), Pow2(s), y))
  {
    var o, q, m := Reverse(b, l - s - 1), Pow2(l - s - 1), Pow2(s);
    assert 2 * b % 2 == 0 && 2 * b / 2 == b && (2 * b + 1) % 2 == 1 && (2 * b + 1) / 2 == b;
    assert Pow2(s + 1) == 2 * m && Pow2(l - s) == 2 * q;
    assert Reverse(2 * b, l - s) == o && Reverse(2 * b + 1, l - s) == o + q;
    StridedSplit(a, o, q, m, x);
    StridedCong(a, o, 2 * q, m, y, x * x);
    StridedCong(a, o + q, 2 * q, m, y, x * x);
    var e, d, e', d' := Strided(a, o, 2 * q, m, y), Strided(a, o + q, 2 * q, m, y),
                        Strided(a, o, 2 * q, m, x * x), Strided(a, o + q, 2 * q, m, x * x);
    CongMul(x, x, d, d');
    CongAdd(e, e', x * d, x * d');
  }

  lemma Twiddle(w: int, q: nat, j: nat)
    ensures Pow(w, 2 * q * j) == Pow(w, q * j) * Pow(w, q * j)
  {
    assert 2 * q * j == q * j + q * j;
    PowAdd(w, q * j, q * j);
  }

  lemma HalfTurn(w: int, l: nat, s: nat, j: nat, q: nat, m: nat)
    requires s < l && PrimitiveRoot(w, l) && q == Pow2(l - s - 1) && m == Pow2(s)
    ensures Cong(Pow(w, q * (j + m)), -Pow(w, q * j))
  {
    Pow2Add(l - s - 1, s);
    hide Pow, Pow2;
    MulDistribute(q, j, m);
    HalfTurnSum(w, q * j, q * m);
  }

  lemma HalfTurnSum(w: int, a: nat, b: nat)
    requires Cong(Pow(w, b), -1)
    ensures Cong(Pow(w, a + b), -Pow(w, a))
  {
    hide Pow;
    PowAdd(w, a, b);
    Negated(Pow(w, a), Pow(w, b));
  }

  lemma Negated(x: int, y: int)
    requires Cong(y, -1)
    ensures Cong(x * y, -x)
  {
    CongMul(x, x, y, -1);
  }

  /** The even and odd halves that entry j of block b is made of. */
  ghost function Even(a: seq<int>, w: int, l: nat, s: nat, b: nat, j: nat): int
    requires s <= l
  {
    Strided(a, Reverse(2 * b, l - s), Pow2(l - s), Pow2(s), Pow(w, Pow2(l - s) * j))
  }

  ghost function Odd(a: seq<int>, w: int, l: nat, s: nat, b: nat, j: nat): int
    requires s <= l
  {
    Strided(a, Reverse(2 * b + 1, l - s), Pow2(l - s), Pow2(s), Pow(w, Pow2(l - s) * j))
  }

  lemma LowSum(a: seq<int>, w: int, l: nat, s: nat, b: nat, j: nat)
    requires s < l
    ensures Block(a, w, l, s + 1, b, j)
         == Red(Even(a, w, l, s, b, j) + Pow(w, Pow2(l - s - 1) * j) * Odd(a, w, l, s, b, j))
  {
    hide Pow, Strided, Reverse;
    var q := Pow2(l - s - 1);
    assert Pow2(l - s) == 2 * q;
    Twiddle(w, q, j);
    BlockSplit(a, w, l, s, b, Pow(w, q * j), Pow(w, 2 * q * j));
  }

  lemma HighSum(a: seq<int>, w: int, l: nat, s: nat, b: nat, j: nat)
    requires s < l && PrimitiveRoot(w, l)
    ensures Block(a, w, l, s + 1, b, j + Pow2(s))
         == Red(Even(a, w, l, s, b, j) + (-Pow(w, Pow2(l - s - 1) * j)) * Odd(a, w, l, s, b, j))
  {
    hide Pow, Strided, Reverse, Pow2, PrimitiveRoot, Block, Even, Odd;
    var q, m := Pow2(l - s - 1), Pow2(s);
    var x, x', y := Pow(w, q * j), Pow(w, q * (j + m)), Pow(w, 2 * q * j);
    Twiddle(w, q, j);
    HalfTurn(w, l, s, j, q, m);
    SquareOfNegative(x, x', y);
    HalvesAt(a, w, l, s, b, j, q, y);
    HighBlock(a, w, l, s, b, j + m, q, x');
    BlockSplit(a, w, l, s, b, x', y);
    NegatedFactor(Even(a, w, l, s, b, j), Odd(a, w, l, s, b, j), x', x);
  }

  lemma HalvesAt(a: seq<int>, w: int, l: nat, s: nat, b: nat, j: nat, q: nat, y: int)
    requires s < l && q == Pow2(l - s - 1) && y == Pow(w, 2 * q * j)
    ensures Even(a, w, l, s, b, j) == Strided(a, Reverse(2 * b, l - s), Pow2(l - s), Pow2(s), y)
    ensures Odd(a, w, l, s, b, j) == Strided(a, Reverse(2 * b + 1, l - s), Pow2(l - s), Pow2(s), y)
  {
    hide Pow, Strided, Reverse;
    assert Pow2(l - s) == 2 * q;
  }

  lemma HighBlock(a: seq<int>, w: int, l: nat, s: nat, b: nat, i: nat, q: nat, x: int)
    requires s < l && q == Pow2(l - s - 1) && x == Pow(w, q * i)
    ensures Block(a, w, l, s + 1, b, i) == Red(Strided(a, Reverse(b, l - s - 1), q, Pow2(s + 1), x))
  {
    hide Pow, Strided, Reverse, Pow2;
  }

  /** One butterfly turns entries j of blocks 2b and 2b + 1 of stage s into entries
      j and j + 2^s of block b of stage s + 1. */
  lemma Butterfly(a: seq<int>, w: int, l: nat, s: nat, b: nat, j: nat, u: Scalar, v: Scalar, t: Scalar)
    requires s < l && j < Pow2(s) && PrimitiveRoot(w, l)
    requires u == Block(a, w, l, s, 2 * b, j) && v == Block(a, w, l, s, 2 * b + 1, j)
    requires Cong(t, Pow(w, Pow2(l - s - 1) * j))
    ensures Add(u, Mul(v, t)) == Block(a, w, l, s + 1, b, j)
    ensures Sub(u, Mul(v, t)) == Block(a, w, l, s + 1, b, j + Pow2(s))
  {
    hide Pow, Strided, Reverse;
    LowSum(a, w, l, s, b, j);
    HighSum(a, w, l, s, b, j);
    ButterflyArithmetic(u, v, t, Even(a, w, l, s, b, j), Odd(a, w, l, s, b, j), Pow(w, Pow2(l - s - 1) * j));
  }

  lemma NegatedFactor(e: int, d: int, x': int, x: int)
    requires Cong(x', -x)
    ensures Cong(e + x' * d, e + (-x) * d)
  {
    CongMul(x', -x, d, d);
    CongAdd(e, e, x' * d, (-x) * d);
  }

  lemma SquareOfNegative(x: int, x': int, y: int)
    requires Cong(x', -x) && y == x * x
    ensures Cong(y, x' * x')
  {
    CongMul(x', -x, x', -x);
    assert (-x) * (-x) == x * x;
  }

  lemma StageZero(a: seq<int>, w: int, l: nat, i: nat)
    requires |a| == Pow2(l) && i < |a|
    ensures Reverse(i, l) < |a| && Stage(a, w, l, 0, i) == Red(a[Reverse(i, l)])
  {
    ReverseBound(i, l);
    Locate(i, 1, i, 0);
    var o, q, x := Reverse(i, l), Pow2(l), Pow(w, Pow2(l) * 0);
    assert Strided(a, o, q, 1, x) == At(a, o) + x * Strided(a, o + q, q, 0, x);
  }

  lemma StageLast(a: seq<int>, w: int, l: nat, i: nat)
    requires |a| == Pow2(l) && i < |a|
    ensures Stage(a, w, l, l, i) == Red(Eval(a, Pow(w, i)))
  {
    Locate(i, Pow2(l), 0, i);
    StridedIsEval(a, 0, Pow(w, i));
    assert a[0..] == a;
  }

  /** `serial_fft_assign`. */
  method SerialFftAssign(a: array<Scalar>, omega: Scalar, logN: nat)
    requires a.Length == Pow2(logN) && PrimitiveRoot(omega, logN)
    modifies a
    ensures a[..] == Dft(old(a[..]), omega, a.Length)
  {
    ghost var orig := a[..];
    BitReversePermute(a, logN);
    var n := a.Length;
    var m := 1;
    forall i | 0 <= i < n ensures a[i] == Stage(orig, omega, logN, 0, i) {
      StageZero(orig, omega, logN, i);
    }
    for s := 0 to logN
      invariant m == Pow2(s)
      invariant forall i :: 0 <= i < n ==> a[i] == Stage(orig, omega, logN, s, i)
    {
      ButterflyStage(a, omega, logN, m, s, orig);
      m := 2 * m;
    }
    forall i | 0 <= i < n ensures a[i] == Red(Eval(orig, Pow(omega, i))) {
      StageLast(orig, omega, logN, i);
    }
  }

  /** The swap loop: every entry moves to its bit-reversed position. */
  method BitReversePermute(a: array<Scalar>, logN: nat)
    requires a.Length == Pow2(logN)
    modifies a
    ensures forall i :: 0 <= i < a.Length ==> Reverse(i, logN) < a.Length && a[i] == old(a[..])[Reverse(i, logN)]
  {
    ghost var orig := a[..];
    var n := a.Length;
    forall i: nat ensures Reverse(i, logN) < n { ReverseBound(i, logN); }
    for k := 0 to n
      invariant forall i :: 0 <= i < n ==>
        a[i] == if i < k || Reverse(i, logN) < k then orig[Reverse(i, logN)] else orig[i]
    {
      ReverseInvolution(k, logN);
      var rk := BitReverse(k, logN);
      if k < rk {
        a[rk], a[k] := a[k], a[rk];
      }
      forall i | 0 <= i < n
        ensures a[i] == if i < k + 1 || Reverse(i, logN) < k + 1 then orig[Reverse(i, logN)] else orig[i]
      {
        ReverseInvolution(i, logN);
      }
    }
  }

  /** One pass over all blocks: the two inner loops. */
  method ButterflyStage(a: array<Scalar>, omega: Scalar, logN: nat, m: nat, ghost s: nat, ghost orig: seq<Scalar>)
    requires s < logN && m == Pow2(s) && a.Length == Pow2(logN) && PrimitiveRoot(omega, logN)
    requires forall i :: 0 <= i < a.Length ==> a[i] == Stage(orig, omega, logN, s, i)
    modifies a
    ensures forall i :: 0 <= i < a.Length ==> a[i] == Stage(orig, omega, logN, s + 1, i)
  {
    hide Stage, Pow;
    var n := a.Length;
    ghost var q := Pow2(logN - s - 1);
    Pow2Add(logN - s - 1, s + 1);
    Locate(n, 2 * m, q, 0);
    assert BlockOf(n, 2 * m) == n / (2 * m) == q;
    var wm := Red(Pow(omega, n / (2 * m)));
    var k := 0;
    ghost var b := 0;
    while k < n
      invariant 0 <= b <= q && k == b * (2 * m)
      invariant forall i :: 0 <= i < n ==> a[i] == Stage(orig, omega, logN, if i < k then s + 1 else s, i)
    {
      NextBlock(b, q, 2 * m);
      ButterflyBlock(a, omega, logN, m, k, wm, s, b, orig);
      k := k + 2 * m;
      b := b + 1;
    }
  }

  lemma NextBlock(b: nat, q: nat, d: nat)
    requires b * d < q * d
    ensures b < q && (b + 1) * d == b * d + d <= q * d
  {
    if b >= q {
      MulMonotone(q, b, d);
    } else {
      MulMonotone(b + 1, q, d);
      MulDistribute(d, b, 1);
    }
  }

  lemma PairBefore(a: seq<int>, w: int, l: nat, s: nat, b: nat, j: nat, m: nat, k: nat)
    requires s < l && j < m == Pow2(s) && k == b * (2 * m)
    ensures Stage(a, w, l, s, k + j) == Block(a, w, l, s, 2 * b, j)
    ensures Stage(a, w, l, s, k + j + m) == Block(a, w, l, s, 2 * b + 1, j)
  {
    hide Block;
    PairIndices(b, m, k);
    Locate(k + j, m, 2 * b, j);
    Locate(k + j + m, m, 2 * b + 1, j);
  }

  lemma PairAfter(a: seq<int>, w: int, l: nat, s: nat, b: nat, j: nat, m: nat, k: nat)
    requires s < l && j < m == Pow2(s) && k == b * (2 * m)
    ensures Stage(a, w, l, s + 1, k + j) == Block(a, w, l, s + 1, b, j)
    ensures Stage(a, w, l, s + 1, k + j + m) == Block(a, w, l, s + 1, b, j + m)
  {
    hide Block;
    Locate(k + j, 2 * m, b, j);
    Locate(k + j + m, 2 * m, b, j + m);
  }

  lemma PairIndices(b: nat, m: nat, k: nat)
    requires k == b * (2 * m)
    ensures k == (2 * b) * m && k + m == (2 * b + 1) * m
  {}

  /** The state inside the block at k after j butterflies. */
  ghost predicate Halfway(v: seq<Scalar>, orig: seq<Scalar>, w: int, l: nat, s: nat, k: nat, m: nat, j: nat)
    requires s < l
  {
    forall i :: 0 <= i < |v| ==>
      v[i] == Stage(orig, w, l, if i < k + j || k + m <= i < k + m + j then s + 1 else s, i)
  }

  lemma HalfwayStep(v: seq<Scalar>, orig: seq<Scalar>, w: int, l: nat, s: nat, k: nat, m: nat, j: nat, u: Scalar, t: Scalar)
    requires s < l && j < m && k + j + m < |v| && Halfway(v, orig, w, l, s, k, m, j)
    requires u == Stage(orig, w, l, s + 1, k + j) && t == Stage(orig, w, l, s + 1, k + j + m)
    ensures Halfway(v[k + j + m := t][k + j := u], orig, w, l, s, k, m, j + 1)
  {
    hide Stage;
  }

  /** The new values of a pair are the next stage. */
  lemma PairStep(v: seq<Scalar>, orig: seq<Scalar>, omega: Scalar, l: nat, s: nat, b: nat, k: nat, m: nat, j: nat, w: Scalar)
    requires s < l && j < m == Pow2(s) && k == b * (2 * m) && PrimitiveRoot(omega, l) && k + j + m < |v|
    requires Halfway(v, orig, omega, l, s, k, m, j) && w == Red(Pow(omega, Pow2(l - s - 1) * j))
    ensures Add(v[k + j], Mul(v[k + j + m], w)) == Stage(orig, omega, l, s + 1, k + j)
    ensures Sub(v[k + j], Mul(v[k + j + m], w)) == Stage(orig, omega, l, s + 1, k + j + m)
  {
    hide Stage, Block, Pow, Pow2, PrimitiveRoot, Add, Sub, Mul;
    PairBefore(orig, omega, l, s, b, j, m, k);
    PairAfter(orig, omega, l, s, b, j, m, k);
    Butterfly(orig, omega, l, s, b, j, v[k + j], v[k + j + m], w);
  }

  /** The innermost loop, on the two halves of the block at k. */
  method ButterflyBlock(a: array<Scalar>, omega: Scalar, logN: nat, m: nat, k: nat, wm: Scalar,
                        ghost s: nat, ghost b: nat, ghost orig: seq<Scalar>)
    requires s < logN && m == Pow2(s) && PrimitiveRoot(omega, logN)
    requires k == b * (2 * m) && k + 2 * m <= a.Length
    requires wm == Red(Pow(omega, Pow2(logN - s - 1)))
    requires forall i :: 0 <= i < a.Length ==> a[i] == Stage(orig, omega, logN, if i < k then s + 1 else s, i)
    modifies a
    ensures forall i :: 0 <= i < a.Length ==> a[i] == Stage(orig, omega, logN, if i < k + 2 * m then s + 1 else s, i)
  {
    hide Stage, Pow, Pow2, PrimitiveRoot, Add, Sub, Mul;
    var w: Scalar := Red(1);
    ghost var q := Pow2(logN - s - 1);
    TwiddleStart(omega, q);
    assert Halfway(a[..], orig, omega, logN, s, k, m, 0);
    for j := 0 to m
      invariant w == Red(Pow(omega, q * j)) && Halfway(a[..], orig, omega, logN, s, k, m, j)
    {
      hide Halfway;
      ghost var v: seq<Scalar> := a[..];
      PairStep(v, orig, omega, logN, s, b, k, m, j, w);
      HalfwayStep(v, orig, omega, logN, s, k, m, j, Add(v[k + j], Mul(v[k + j + m], w)), Sub(v[k + j], Mul(v[k + j + m], w)));
      var t := Mul(a[k + j + m], w);
      var tmp := Sub(a[k + j], t);
      a[k + j + m] := tmp;
      a[k + j] := Add(a[k + j], t);
      assert a[..] == v[k + j + m := tmp][k + j := Add(v[k + j], t)];
      TwiddleNext(omega, q, j, w, wm);
      w := Mul(w, wm);
    }
    assert forall i :: 0 <= i < a.Length ==> a[i] == a[..][i];
  }

  lemma TwiddleStart(w: int, q: nat)
    ensures Pow(w, q * 0) == 1
  {}

  lemma TwiddleNext(w: int, q: nat, j: nat, t: int, wm: int)
    requires Cong(t, Pow(w, q * j)) && Cong(wm, Pow(w, q))
    ensures Mul(t, wm) == Red(Pow(w, q * (j + 1)))
  {
    MulDistribute(q, j, 1);
    PowAdd(w, q * j, q);
    CongMul(t, Pow(w, q * j), wm, Pow(w, q));
  }

  lemma DftPad(c: seq<int>, w: int, n: nat, k: nat)
    ensures Dft(c + Zeros(k), w, n) == Dft(c, w, n)
  {
    forall i: nat | i < n ensures Eval(c + Zeros(k), Pow(w, i)) == Eval(c, Pow(w, i)) {
      EvalPad(c, k, Pow(w, i));
    }
  }

  /** The transform of a coefficient vector, padded with zeros to the domain size. */
  method FftAssign(poly: seq<Scalar>, dom: Domain) returns (evals: seq<Scalar>)
    requires ValidDomain(dom) && |poly| <= dom.N
    ensures evals == Dft(poly, dom.omega, dom.N)
  {
    var padded := poly;
    if |padded| < dom.N {
      padded := padded + Zeros(dom.N - |poly|);
    }
    var a := new Scalar[dom.N](i requires 0 <= i < |padded| => padded[i]);
    assert a[..] == padded == poly + Zeros(dom.N - |poly|);
    SerialFftAssign(a, dom.omega, dom.logN);
    evals := a[..];
    DftPad(poly, dom.omega, dom.N, dom.N - |poly|);
  }

  // ---- the inverse transform ----

  /** What `ifft_assign` computes: the transform at the inverse root, over N. */
  function InverseDft(v: seq<int>, dom: Domain): (r: seq<Scalar>)
    ensures |r| == dom.N
    ensures forall k :: 0 <= k < dom.N ==> r[k] == Mul(Red(Eval(v, Pow(dom.omegaInverse, k))), dom.nInverse)
  {
    seq(dom.N, k requires 0 <= k < dom.N => Mul(Red(Eval(v, Pow(dom.omegaInverse, k))), dom.nInverse))
  }

  method IfftAssign(poly: seq<Scalar>, dom: Domain) returns (coeffs: seq<Scalar>)
    requires ValidDomain(dom) && |poly| == dom.N
    ensures coeffs == InverseDft(poly, dom)
  {
    var a := new Scalar[dom.N](i requires 0 <= i < |poly| => poly[i]);
    assert a[..] == poly;
    InverseRoot(dom.omega, dom.omegaInverse, dom.logN);
    SerialFftAssign(a, dom.omegaInverse, dom.logN);
    MulAll(a, dom.nInverse);
    coeffs := a[..];
  }

  method MulAll(a: array<Scalar>, c: Scalar)
    modifies a
    ensures forall k :: 0 <= k < a.Length ==> a[k] == Mul(old(a[k]), c)
  {
    hide Mul;
    for i := 0 to a.Length
      invariant forall k :: 0 <= k < a.Length ==> a[k] == if k < i then Mul(old(a[k]), c) else old(a[k])
    {
      a[i] := Mul(a[i], c);
    }
  }

  /** 1 + x + .. + x^(n-1). */
  function Geometric(x: int, n: nat): int {
    if n == 0 then 0 else 1 + x * Geometric(x, n - 1)
  }

  lemma {:induction false} GeometricSum(x: int, n: nat)
    ensures (x - 1) * Geometric(x, n) == Pow(x, n) - 1
  {
    if n > 0 {
      GeometricSum(x, n - 1);
      GeometricStep(x, Geometric(x, n - 1), Pow(x, n - 1));
    }
  }

  lemma GeometricStep(x: int, g: int, p: int)
    requires (x - 1) * g == p - 1
    ensures (x - 1) * (1 + x * g) == x * p - 1
  {
    assert (x - 1) * (1 + x * g) == (x - 1) + x * ((x - 1) * g);
  }

  lemma {:induction false} GeometricCong(x: int, y: int, n: nat)
    requires Cong(x, y)
    ensures Cong(Geometric(x, n), Geometric(y, n))
  {
    if n > 0 {
      GeometricCong(x, y, n - 1);
      CongMul(x, y, Geometric(x, n - 1), Geometric(y, n - 1));
      CongAdd(1, 1, x * Geometric(x, n - 1), y * Geometric(y, n - 1));
    }
  }

  lemma {:induction false} GeometricOne(n: nat)
    ensures Geometric(1, n) == n
  {
    if n > 0 { GeometricOne(n - 1); }
  }

  /** The values of c at w^o, w^(o+1), .., as an unreduced vector. */
  function RawDft(c: seq<int>, w: int, n: nat): (r: seq<int>)
    ensures |r| == n && forall k :: 0 <= k < n ==> r[k] == Eval(c, Pow(w, k))
  {
    seq(n, k requires 0 <= k < n => Eval(c, Pow(w, k)))
  }

  function PowerVector(x: int, n: nat): (r: seq<int>)
    ensures |r| == n && forall k :: 0 <= k < n ==> r[k] == Pow(x, k)
  {
    seq(n, k requires 0 <= k < n => Pow(x, k))
  }

  lemma {:induction false} EvalPowers(x: int, n: nat, v: int)
    ensures Eval(PowerVector(x, n), v) == Geometric(x * v, n)
  {
    if n > 0 {
      var t := PowerVector(x, n - 1);
      EvalPowers(x, n - 1, v);
      assert PowerVector(x, n)[1..] == Scale(x, t);
      EvalScale(x, t, v);
      MulAssoc(v, x, Eval(t, v));
      assert v * x == x * v;
    }
  }

  function Geometrics(w: int, v: int, n: nat, m: nat): (r: seq<int>)
    ensures |r| == m && forall k :: 0 <= k < m ==> r[k] == Geometric(Pow(w, k) * v, n)
  {
    seq(m, k requires 0 <= k < m => Geometric(Pow(w, k) * v, n))
  }

  lemma RawDftAppend(c: seq<int>, a: int, w: int, n: nat)
    ensures RawDft(c + [a], w, n) == AddSeq(RawDft(c, w, n), Scale(a, PowerVector(Pow(w, |c|), n)))
  {
    hide Eval, Pow;
    forall k: nat | k < n ensures Eval(c + [a], Pow(w, k)) == Eval(c, Pow(w, k)) + a * Pow(Pow(w, |c|), k) {
      AppendCoefficient(c, a, Pow(w, k));
      PowSwap(w, k, |c|);
    }
  }

  lemma RawDftEmpty(w: int, n: nat, v: int)
    ensures Eval(RawDft([], w, n), v) == 0
  {
    EvalZero(RawDft([], w, n), v);
  }

  /** Transforming twice: the exchange of the two sums, over the integers. */
  lemma {:induction false} DoubleTransform(c: seq<int>, w: int, n: nat, v: int, m: nat)
    requires m <= |c|
    ensures Eval(RawDft(c[..m], w, n), v) == DotTo(c, Geometrics(w, v, n, |c|), m)
  {
    hide Eval, Pow, Geometric;
    if m == 0 {
      RawDftEmpty(w, n, v);
    } else {
      DoubleTransform(c, w, n, v, m - 1);
      var a, x := c[m - 1], Pow(w, m - 1);
      var r, p := RawDft(c[..m - 1], w, n), PowerVector(x, n);
      assert c[..m - 1] + [a] == c[..m];
      RawDftAppend(c[..m - 1], a, w, n);
      EvalAdd(r, Scale(a, p), v);
      EvalScale(a, p, v);
      EvalPowers(x, n, v);
      var g := Geometrics(w, v, n, |c|);
      assert DotTo(c, g, m) == DotTo(c, g, m - 1) + a * g[m - 1];
    }
  }

  /** The roots of unity are orthogonal. */
  lemma Orthogonal(dom: Domain, k: nat, m: nat)
    requires ValidDomain(dom) && k < dom.N && m < dom.N
    ensures Cong(Geometric(Pow(dom.omega, m) * Pow(dom.omegaInverse, k), dom.N), if k == m then dom.N else 0)
  {
    hide Pow, Geometric;
    var w: int, u: int, n := dom.omega, dom.omegaInverse, dom.N;
    var x := Pow(w, m) * Pow(u, k);
    PowProduct(w, u, k);
    CongPow(w * u, 1, k);
    PowOne(k);
    if k == m {
      GeometricCong(x, 1, n);
      GeometricOne(n);
    } else {
      InverseRoot(w, u, dom.logN);
      OrderOfProduct(w, u, dom.logN, m, k);
      if Cong(x, 1) { SameRootIndex(w, u, dom.logN, m, k); }
      GeometricVanishes(x, n);
    }
  }

  lemma GeometricVanishes(x: int, n: nat)
    requires Cong(Pow(x, n), 1) && !Cong(x, 1)
    ensures Cong(Geometric(x, n), 0)
  {
    GeometricSum(x, n);
    CongSub(Pow(x, n), 1, 1, 1);
    if Cong(x - 1, 0) { CongAdd(x - 1, 0, 1, 1); }
    NoZeroDivisors(x - 1, Geometric(x, n));
  }

  lemma RootPowerOrder(w: int, l: nat, m: nat)
    requires PrimitiveRoot(w, l)
    ensures Cong(Pow(Pow(w, m), Pow2(l)), 1)
  {
    PowSwap(w, m, Pow2(l));
    RootOrder(w, l);
    CongPow(Pow(w, Pow2(l)), 1, m);
    PowOne(m);
  }

  lemma OrderOfProduct(w: int, u: int, l: nat, m: nat, k: nat)
    requires PrimitiveRoot(w, l) && PrimitiveRoot(u, l)
    ensures Cong(Pow(Pow(w, m) * Pow(u, k), Pow2(l)), 1)
  {
    hide Pow;
    var n := Pow2(l);
    PowProduct(Pow(w, m), Pow(u, k), n);
    RootPowerOrder(w, l, m);
    RootPowerOrder(u, l, k);
    CongMul(Pow(Pow(w, m), n), 1, Pow(Pow(u, k), n), 1);
  }

  lemma SameRootIndex(w: int, u: int, l: nat, m: nat, k: nat)
    requires PrimitiveRoot(w, l) && m < Pow2(l) && k < Pow2(l)
    requires Cong(Pow(w, m) * Pow(u, k), 1) && Cong(Pow(w, k) * Pow(u, k), 1)
    ensures m == k
  {
    hide Pow;
    MulCommutes(Pow(w, m), Pow(u, k));
    MulCommutes(Pow(w, k), Pow(u, k));
    InverseUnique(Pow(u, k), Pow(w, m), Pow(w, k));
    if m < k { RootsDiffer(w, l, m, k); }
    if k < m { RootsDiffer(w, l, k, m); }
  }

  lemma {:induction false} SelectEntry(c: seq<int>, g: seq<int>, k: nat, m: nat, n: nat)
    requires m <= |c| <= |g|
    requires forall i :: 0 <= i < |g| ==> Cong(g[i], if i == k then n else 0)
    ensures Cong(DotTo(c, g, m), if k < m then c[k] * n else 0)
  {
    if m > 0 {
      SelectEntry(c, g, k, m - 1, n);
      CongMul(c[m - 1], c[m - 1], g[m - 1], if m - 1 == k then n else 0);
      CongAdd(DotTo(c, g, m - 1), if k < m - 1 then c[k] * n else 0,
              c[m - 1] * g[m - 1], if m - 1 == k then c[k] * n else 0);
    }
  }

  /** The inverse transform undoes the transform: it recovers the coefficients,
      padded with zeros to the domain size. */
  lemma InverseDftOfDft(c: seq<int>, dom: Domain)
    requires ValidDomain(dom) && |c| <= dom.N
    ensures InverseDft(Dft(c, dom.omega, dom.N), dom) == RedSeq(c) + Zeros(dom.N - |c|)
  {
    var d, n := Dft(c, dom.omega, dom.N), dom.N;
    forall k: nat | k < n ensures InverseDft(d, dom)[k] == (RedSeq(c) + Zeros(n - |c|))[k] {
      InverseDftEntry(c, dom, k);
    }
  }

  lemma InverseDftEntry(c: seq<int>, dom: Domain, k: nat)
    requires ValidDomain(dom) && |c| <= dom.N && k < dom.N
    ensures InverseDft(Dft(c, dom.omega, dom.N), dom)[k] == Red(At(c, k))
  {
    var d, r, n, v := Dft(c, dom.omega, dom.N), RawDft(c, dom.omega, dom.N), dom.N, Pow(dom.omegaInverse, k);
    assert RedSeq(d) == RedSeq(r);
    EvalCong(d, r, v, v);
    DoubleTransform(c, dom.omega, n, v, |c|);
    assert c[..|c|] == c;
    var g := Geometrics(dom.omega, v, n, |c|);
    forall m: nat | m < |c| ensures Cong(g[m], if m == k then n else 0) {
      Orthogonal(dom, k, m);
    }
    SelectEntry(c, g, k, |c|, n);
    UndoScaling(At(c, k), n, dom.nInverse, Eval(d, v));
  }

  lemma UndoScaling(c: int, n: int, u: int, e: int)
    requires Cong(n * u, 1) && Cong(e, c * n)
    ensures Mul(Red(e), u) == Red(c)
  {
    CongMul(Red(e), c * n, u, u);
    MulAssoc(c, n, u);
    CongMul(c, c, n * u, 1);
  }
}
