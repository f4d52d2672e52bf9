/** Stripped polynomials and long division (crypto_blstrs/polynomial.rs). */
module KzgPolynomial {
  import opened ScalarField
  import opened PolynomialAlgebra
  import opened Polynomials

  datatype DivResult = Quot(q: seq<Scalar>) | DivisionByZero

  /** No trailing zero coefficient. */
  predicate Stripped(c: seq<Scalar>) {
    |c| == 0 || c[|c| - 1] != 0
  }

  /** `new`: pops trailing zeros. */
  method New(coeffs: seq<Scalar>) returns (c: seq<Scalar>)
    ensures c <= coeffs && Stripped(c)
    ensures forall k :: At(c, k) == At(coeffs, k)
  {
    c := coeffs;
    while |c| > 0 && c[|c| - 1] == 0
      invariant c <= coeffs && forall k :: At(c, k) == At(coeffs, k)
    {
      c := c[..|c| - 1];
    }
  }

  /** `add`: the shorter vector is added into the longer one. */
  method AddPolynomials(a: seq<Scalar>, b: seq<Scalar>) returns (c: seq<Scalar>)
    ensures Stripped(c) && |c| <= |AddSeq(a, b)|
    ensures forall k :: At(c, k) == Red(At(a, k) + At(b, k))
  {
    var larger, smaller := if |a| > |b| then a else b, if |a| > |b| then b else a;
    var sum := larger;
    for i := 0 to |smaller|
      invariant |sum| == |larger|
      invariant forall k :: 0 <= k < |sum| ==> sum[k] == if k < i then Red(At(a, k) + At(b, k)) else larger[k]
    {
      sum := sum[i := Add(sum[i], smaller[i])];
    }
    assert forall k :: At(sum, k) == Red(At(a, k) + At(b, k));
    c := New(sum);
  }

  /** p = q * d + r, coefficient by coefficient. */
  ghost predicate Division(p: seq<int>, q: seq<int>, d: seq<int>, r: seq<int>) {
    forall k :: DivisionAt(p, q, d, r, k)
  }

  ghost predicate DivisionAt(p: seq<int>, q: seq<int>, d: seq<int>, r: seq<int>, k: int) {
    Cong(At(p, k), Conv(q, d, k) + At(r, k))
  }

  lemma {:induction false} ConvZeros(n: nat, g: seq<int>, k: int)
    ensures Conv(Zeros(n), g, k) == 0
  {
    if n > 0 {
      assert Zeros(n)[1..] == Zeros(n - 1);
      ConvZeros(n - 1, g, k - 1);
    }
  }

  /** Writing a coefficient where there was a zero. */
  lemma {:induction false} ConvUpdate(q: seq<int>, s: nat, c: int, d: seq<int>, k: int)
    requires s < |q| && q[s] == 0
    ensures Conv(q[s := c], d, k) == Conv(q, d, k) + c * At(d, k - s)
  {
    if s == 0 {
      assert q[0 := c][1..] == q[1..];
    } else {
      ConvUpdate(q[1..], s - 1, c, d, k - 1);
      assert q[s := c][1..] == q[1..][s - 1 := c];
    }
  }

  function Tail(q: seq<int>): seq<int> {
    if |q| > 0 then q[1..] else []
  }

  lemma ConvTail(q: seq<int>, d: seq<int>, k: int)
    ensures Conv(q, d, k) == At(q, 0) * At(d, k) + Conv(Tail(q), d, k - 1)
  {}

  /** Convolution depends on the entries only, not on trailing zeros. */
  lemma {:induction false} ConvStrip(q: seq<int>, q': seq<int>, d: seq<int>, k: int)
    requires forall i :: At(q, i) == At(q', i)
    ensures Conv(q, d, k) == Conv(q', d, k)
    decreases |q| + |q'|
  {
    if |q| > 0 || |q'| > 0 {
      forall i ensures At(Tail(q), i) == At(Tail(q'), i) {
        if i >= 0 { assert At(q, i + 1) == At(q', i + 1); }
      }
      assert At(q, 0) == At(q', 0);
      ConvStrip(Tail(q), Tail(q'), d, k - 1);
      ConvTail(q, d, k);
      ConvTail(q', d, k);
    }
  }

  /** One elimination step: subtract s * X^index * d from r. */
  method EliminateTop(r: seq<Scalar>, d: seq<Scalar>, s: Scalar, index: nat) returns (r': seq<Scalar>)
    requires 0 < |d| && |r| == index + |d|
    requires Red(r[|r| - 1] - Mul(s, d[|d| - 1])) == 0
    ensures |r'| < |r| && Stripped(r')
    ensures forall k :: At(r', k) == if index <= k < |r| then Sub(r[k], Mul(s, d[k - index])) else At(r, k)
  {
    hide Mul;
    var t := seq(|r|, k requires 0 <= k < |r| => if k >= index then Sub(r[k], Mul(s, d[k - index])) else r[k]);
    r' := New(t);
    assert t[|t| - 1] == 0;
  }

  /** Long division.  The ghost result is the remainder. */
  method DivRef(p: seq<Scalar>, d: seq<Scalar>) returns (res: DivResult, ghost rem: seq<Scalar>)
    requires |d| > 0 ==> d[|d| - 1] != 0
    ensures |d| == 0 <==> res.DivisionByZero?
    ensures res.Quot? ==> |rem| < |d| && Division(p, res.q, d, rem)
    ensures res.Quot? ==> |res.q| <= if |p| < |d| then 0 else |p| - |d| + 1
  {
    if |d| == 0 {
      return DivisionByZero, [];
    }
    if |p| == 0 || |p| < |d| {
      forall k ensures DivisionAt(p, [], d, p, k) {}
      return Quot([]), p;
    }
    var c := Inv(d[|d| - 1]);
    var q: seq<Scalar> := Zeros(|p| - |d| + 1);
    var r := p;
    forall k ensures DivisionAt(p, q, d, r, k) { ConvZeros(|q|, d, k); }
    hide Conv, Mul, DivisionAt;
    while |r| > 0 && |r| >= |d|
      invariant |q| == |p| - |d| + 1 && |r| <= |p|
      invariant forall i :: 0 <= i < |q| && i + |d| <= |r| ==> q[i] == 0
      invariant Division(p, q, d, r)
      decreases |r|
    {
      var s := Mul(r[|r| - 1], c);
      var index := |r| - |d|;
      LeadingTerm(r[|r| - 1], d[|d| - 1], c);
      var r' := EliminateTop(r, d, s, index);
      DivisionStep(p, q, d, r, s, index, r');
      r, q := r', q[index := s];
    }
    var stripped := New(q);
    forall k ensures DivisionAt(p, stripped, d, r, k) {
      assert DivisionAt(p, q, d, r, k);
      StripQuotient(p, q, stripped, d, r, k);
    }
    res, rem := Quot(stripped), r;
  }

  lemma StripQuotient(p: seq<int>, q: seq<int>, q': seq<int>, d: seq<int>, r: seq<int>, k: int)
    requires DivisionAt(p, q, d, r, k) && forall i :: At(q', i) == At(q, i)
    ensures DivisionAt(p, q', d, r, k)
  {
    ConvStrip(q, q', d, k);
  }

  lemma LeadingTerm(a: Scalar, d: Scalar, c: Scalar)
    requires Cong(d * c, 1)
    ensures Red(a - Mul(Mul(a, c), d)) == 0
  {
    var x: int, y: int, z: int := a, d, c;
    CongMul(Mul(a, c), x * z, y, y);
    MulAssoc(x, z, y);
    MulCommutes(z, y);
    CongMul(x, x, y * z, 1);
    CongSub(x, x, Mul(Mul(a, c), d), x);
  }

  lemma DivisionStep(p: seq<Scalar>, q: seq<Scalar>, d: seq<Scalar>, r: seq<Scalar>, s: Scalar, index: nat, r': seq<Scalar>)
    requires Division(p, q, d, r) && 0 < |d| && |r| == index + |d| && index < |q| && q[index] == 0
    requires forall k :: At(r', k) == if index <= k < |r| then Sub(r[k], Mul(s, d[k - index])) else At(r, k)
    ensures Division(p, q[index := s], d, r')
  {
    hide Conv;
    var q' := q[index := s];
    forall k ensures DivisionAt(p, q', d, r', k) {
      assert DivisionAt(p, q, d, r, k);
      ConvUpdate(q, index, s, d, k);
      var t := s * At(d, k - index);
      CongSub(At(r, k), At(r, k), Red(t), t);
      assert Cong(At(r', k), At(r, k) - t);
      CongAdd(Conv(q, d, k) + t, Conv(q, d, k) + t, At(r', k), At(r, k) - t);
    }
  }

  // ---- evaluation of a division ----

  ghost predicate SameEntry(a: seq<int>, b: seq<int>, k: int) {
    Cong(At(a, k), At(b, k))
  }

  lemma EvalSameEntries(a: seq<int>, b: seq<int>, x: int)
    requires forall k :: SameEntry(a, b, k)
    ensures Cong(Eval(a, x), Eval(b, x))
  {
    hide Eval;
    var n := if |a| < |b| then |b| else |a|;
    var a', b' := a + Zeros(n - |a|), b + Zeros(n - |b|);
    forall k: nat | k < n ensures RedSeq(a')[k] == RedSeq(b')[k] {
      assert SameEntry(a, b, k);
      assert a'[k] == At(a, k) && b'[k] == At(b, k);
    }
    EvalCong(a', b', x, x);
    EvalPad(a, n - |a|, x);
    EvalPad(b, n - |b|, x);
  }

  /** q * d + r as one vector. */
  function Recomposed(q: seq<int>, d: seq<int>, r: seq<int>): seq<int>
    requires |d| > 0
  {
    AddSeq(if |q| == 0 then [] else Product(q, d), r)
  }

  lemma RecomposedEntry(q: seq<int>, d: seq<int>, r: seq<int>, k: int)
    requires |d| > 0
    ensures At(Recomposed(q, d, r), k) == Conv(q, d, k) + At(r, k)
  {
    if |q| > 0 { ProductEntry(q, d, k); }
  }

  lemma EvalRecomposed(q: seq<int>, d: seq<int>, r: seq<int>, x: int)
    requires |d| > 0
    ensures Eval(Recomposed(q, d, r), x) == Eval(q, x) * Eval(d, x) + Eval(r, x)
  {
    if |q| == 0 {
      EvalAdd([], r, x);
    } else {
      hide Eval;
      EvalAdd(Product(q, d), r, x);
      EvalProduct(q, d, x);
    }
  }

  lemma EvalDivision(p: seq<int>, q: seq<int>, d: seq<int>, r: seq<int>, x: int)
    requires Division(p, q, d, r) && |d| > 0
    ensures Cong(Eval(p, x), Eval(q, x) * Eval(d, x) + Eval(r, x))
  {
    hide Eval, Conv, Recomposed;
    forall k ensures SameEntry(p, Recomposed(q, d, r), k) {
      assert DivisionAt(p, q, d, r, k);
      RecomposedEntry(q, d, r, k);
    }
    EvalSameEntries(p, Recomposed(q, d, r), x);
    EvalRecomposed(q, d, r, x);
  }
}
