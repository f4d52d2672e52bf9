/** Polynomial arithmetic on coefficient vectors (polynomials.rs).  A growable
    vector passed by exclusive reference is an in-parameter and an out-parameter. */
module Polynomials {
  import opened ScalarField
  import opened PolynomialAlgebra
  import opened EvaluationDomain
  import opened Fft

  // ---- reduction commutes with the vector operations ----

  lemma RedAdd(a: seq<int>, b: seq<int>)
    ensures RedSeq(AddSeq(RedSeq(a), RedSeq(b))) == RedSeq(AddSeq(a, b))
  {
    forall i: nat | i < |AddSeq(a, b)|
      ensures Red(At(RedSeq(a), i) + At(RedSeq(b), i)) == Red(At(a, i) + At(b, i))
    {
      CongAdd(At(RedSeq(a), i), At(a, i), At(RedSeq(b), i), At(b, i));
    }
  }

  lemma RedSub(a: seq<int>, b: seq<int>)
    ensures RedSeq(SubSeq(RedSeq(a), RedSeq(b))) == RedSeq(SubSeq(a, b))
  {
    forall i: nat | i < |SubSeq(a, b)|
      ensures Red(At(RedSeq(a), i) - At(RedSeq(b), i)) == Red(At(a, i) - At(b, i))
    {
      CongSub(At(RedSeq(a), i), At(a, i), At(RedSeq(b), i), At(b, i));
    }
  }

  lemma RedShift(a: seq<int>, n: nat)
    ensures Zeros(n) + RedSeq(a) == RedSeq(Zeros(n) + a)
  {}

  lemma RedProduct(f: seq<int>, g: seq<int>)
    requires |f| > 0 && |g| > 0
    ensures RedSeq(Product(RedSeq(f), RedSeq(g))) == RedSeq(Product(f, g))
  {
    assert RedSeq(RedSeq(f)) == RedSeq(f) && RedSeq(RedSeq(g)) == RedSeq(g);
    ProductCong(RedSeq(f), f, RedSeq(g), g);
  }

  // ---- evaluation, addition, shift, derivative ----

  method PolyEval(f: seq<Scalar>, x: Scalar) returns (eval: Scalar)
    requires |f| > 0
    ensures eval == Red(Eval(f, x))
  {
    eval := 0;
    var xi: Scalar := Red(1);
    for i := 0 to |f|
      invariant eval == Red(Eval(f[..i], x)) && xi == Red(Pow(x, i))
    {
      hide Eval;
      PolyEvalStep(f, x, i, eval, xi);
      eval := Add(eval, Mul(f[i], xi));
      xi := Mul(xi, x);
    }
    assert f[..|f|] == f;
  }

  lemma PolyEvalStep(f: seq<Scalar>, x: Scalar, i: nat, eval: Scalar, xi: Scalar)
    requires i < |f| && eval == Red(Eval(f[..i], x)) && xi == Red(Pow(x, i))
    ensures Add(eval, Mul(f[i], xi)) == Red(Eval(f[..i + 1], x))
    ensures Mul(xi, x) == Red(Pow(x, i + 1))
  {
    AppendCoefficient(f[..i], f[i], x);
    assert f[..i] + [f[i]] == f[..i + 1];
    CongMul(f[i], f[i], xi, Pow(x, i));
    CongAdd(eval, Eval(f[..i], x), Mul(f[i], xi), f[i] * Pow(x, i));
    NextPower(x, i, xi);
  }

  method PolyAddAssign(f: seq<Scalar>, g: seq<Scalar>) returns (sum: seq<Scalar>)
    ensures sum == RedSeq(AddSeq(f, g))
  {
    sum := f;
    if |g| > |f| { sum := sum + Zeros(|g| - |f|); }
    for i := 0 to |g|
      invariant |sum| == |AddSeq(f, g)|
      invariant forall k :: 0 <= k < |sum| ==> sum[k] == if k < i then Red(At(f, k) + g[k]) else At(f, k)
    {
      sum := sum[i := Add(sum[i], g[i])];
    }
  }

  method PolySubAssign(f: seq<Scalar>, g: seq<Scalar>) returns (diff: seq<Scalar>)
    ensures diff == RedSeq(SubSeq(f, g))
  {
    diff := f;
    if |g| > |f| { diff := diff + Zeros(|g| - |f|); }
    for i := 0 to |g|
      invariant |diff| == |SubSeq(f, g)|
      invariant forall k :: 0 <= k < |diff| ==> diff[k] == if k < i then Red(At(f, k) - g[k]) else At(f, k)
    {
      diff := diff[i := Sub(diff[i], g[i])];
    }
  }

  /** Multiplication by X^n. */
  method PolyXnmulAssign(f0: seq<Scalar>, n: nat) returns (f: seq<Scalar>)
    ensures f == Zeros(n) + f0
  {
    f := f0;
    if n == 0 { return; }
    var oldLen := |f|;
    f := f + Zeros(n);
    var i := oldLen;
    while i > 0
      invariant 0 <= i <= oldLen && |f| == oldLen + n
      invariant forall k :: 0 <= k < i + n && k < oldLen ==> f[k] == f0[k]
      invariant forall k :: i <= k < oldLen ==> f[k + n] == f0[k]
    {
      i := i - 1;
      f := f[i + n := f[i]];
    }
    for j := 0 to n
      invariant |f| == oldLen + n
      invariant forall k :: 0 <= k < j ==> f[k] == 0
      invariant forall k :: 0 <= k < oldLen ==> f[k + n] == f0[k]
    {
      f := f[j := 0];
    }
    forall k | n <= k < |f| ensures f[k] == f0[k - n] {
      var j := k - n;
      assert f[j + n] == f0[j];
    }
  }

  method PolyDifferentiate(f0: seq<Scalar>) returns (f: seq<Scalar>)
    requires |f0| > 0
    ensures f == RedSeq(Derivative(f0))
  {
    f := f0;
    var deg := |f| - 1;
    for i := 0 to deg
      invariant |f| == |f0|
      invariant forall k :: 0 <= k < |f| ==> f[k] == if k < i then RedSeq(Derivative(f0))[k] else f0[k]
    {
      hide Mul;
      DerivativeEntry(f0, i);
      f := f[i := Mul(f[i + 1], Red(i + 1))];
    }
    f := f[..deg];
  }

  lemma DerivativeEntry(f: seq<Scalar>, i: nat)
    requires i < |f| - 1
    ensures Mul(f[i + 1], Red(i + 1)) == RedSeq(Derivative(f))[i]
  {
    CongMul(f[i + 1], f[i + 1], Red(i + 1), i + 1);
    MulCommutes(f[i + 1], i + 1);
  }

  // ---- multiplication ----

  /** The schoolbook double loop. */
  method PolyMulSlow(f: seq<Scalar>, g: seq<Scalar>) returns (out: seq<Scalar>)
    requires |f| > 0 && |g| > 0
    ensures out == RedSeq(Product(f, g))
  {
    out := Zeros(|f| + |g| - 1);
    for i := 0 to |f|
      invariant |out| == |f| + |g| - 1
      invariant forall k :: 0 <= k < |out| ==> out[k] == Red(Conv(f[..i], g, k))
    {
      out := AddRow(f, g, i, out);
    }
    assert f[..|f|] == f;
  }

  method AddRow(f: seq<Scalar>, g: seq<Scalar>, i: nat, row: seq<Scalar>) returns (out: seq<Scalar>)
    requires i < |f| && |row| == |f| + |g| - 1
    requires forall k :: 0 <= k < |row| ==> row[k] == Red(Conv(f[..i], g, k))
    ensures |out| == |row|
    ensures forall k :: 0 <= k < |out| ==> out[k] == Red(Conv(f[..i + 1], g, k))
  {
    out := row;
    for j := 0 to |g|
      invariant |out| == |row|
      invariant forall k :: 0 <= k < |out| ==>
        out[k] == if i <= k < i + j then Red(row[k] + Mul(f[i], g[k - i])) else row[k]
    {
      var prod := Mul(f[i], g[j]);
      out := out[i + j := Add(out[i + j], prod)];
    }
    hide Conv, Mul;
    forall k | 0 <= k < |out| ensures out[k] == Red(Conv(f[..i + 1], g, k)) {
      RowStep(f, g, i, k, row[k]);
    }
  }

  lemma RowStep(f: seq<Scalar>, g: seq<Scalar>, i: nat, k: nat, r: Scalar)
    requires i < |f| && r == Red(Conv(f[..i], g, k))
    ensures Red(Conv(f[..i + 1], g, k)) == if i <= k < i + |g| then Red(r + Mul(f[i], g[k - i])) else r
  {
    hide Conv, Mul;
    var c := Conv(f[..i], g, k);
    ConvAppendLeft(f[..i], [f[i]], g, k);
    assert f[..i] + [f[i]] == f[..i + 1];
    var t := ConvSingle(f[i], g, k - i);
    if i <= k < i + |g| {
      CongAdd(r, c, Mul(f[i], g[k - i]), t);
    }
  }

  /** A constant times g. */
  lemma ConvSingle(a: int, g: seq<int>, k: int) returns (t: int)
    ensures t == Conv([a], g, k)
    ensures if 0 <= k < |g| then Cong(Mul(a, g[k]), t) else t == 0
  {
    t := a * At(g, k);
    assert [a][1..] == [];
  }

  /** Multiplication through three transforms. */
  method PolyMulAssignFftWithDom(f0: seq<Scalar>, g0: seq<Scalar>, dom: Domain)
    returns (f: seq<Scalar>, g: seq<Scalar>)
    requires |f0| > 0 && |g0| > 0 && ValidDomain(dom) && (|f0| - 1) + (|g0| - 1) + 1 == dom.n
    ensures f == RedSeq(Product(f0, g0))
    ensures g == Dft(g0, dom.omega, dom.N)
  {
    f := FftAssign(f0, dom);
    g := FftAssign(g0, dom);
    ghost var fe := f;
    for i := 0 to dom.N
      invariant |f| == dom.N
      invariant forall k :: 0 <= k < dom.N ==> f[k] == if k < i then Mul(fe[k], g[k]) else fe[k]
    {
      f := f[i := Mul(f[i], g[i])];
    }
    PointwiseProduct(f0, g0, dom.omega, dom.N, f);
    f := IfftAssign(f, dom);
    InverseDftOfDft(Product(f0, g0), dom);
    f := f[..dom.n];
  }

  lemma PointwiseProduct(f: seq<int>, g: seq<int>, w: int, n: nat, h: seq<Scalar>)
    requires |f| > 0 && |g| > 0 && |h| == n
    requires forall k :: 0 <= k < n ==> h[k] == Mul(Dft(f, w, n)[k], Dft(g, w, n)[k])
    ensures h == Dft(Product(f, g), w, n)
  {
    hide Eval, Pow;
    forall k: nat | k < n ensures h[k] == Red(Eval(Product(f, g), Pow(w, k))) {
      var x := Pow(w, k);
      EvalProduct(f, g, x);
      CongMul(Red(Eval(f, x)), Eval(f, x), Red(Eval(g, x)), Eval(g, x));
    }
  }

  /** Multiplication in a freshly computed domain; the field must have one. */
  method PolyMulFft(f: seq<Scalar>, g: seq<Scalar>) returns (product: seq<Scalar>)
    requires |f| > 0 && |g| > 0 && |f| + |g| - 1 <= Pow2(TWO_ADICITY - 1)
    ensures product == RedSeq(Product(f, g))
  {
    var r := NewDomain((|f| - 1) + (|g| - 1) + 1);
    var g';
    product, g' := PolyMulAssignFftWithDom(f, g, r.domain);
  }

  // ---- Karatsuba ----

  lemma KaratsubaIdentity(f: seq<int>, f': seq<int>, g: seq<int>, g': seq<int>, k: int)
    requires |f| == |f'| == |g| == |g'|
    ensures Conv(f + f', g + g', k)
         == Conv(f, g, k)
          + (Conv(AddSeq(f, f'), AddSeq(g, g'), k - |f|) - Conv(f, g, k - |f|) - Conv(f', g', k - |f|))
          + Conv(f', g', k - 2 * |f|)
  {
    hide Conv;
    var h := |f|;
    ConvAppendLeft(f, f', g + g', k);
    ConvAppendRight(f, g, g', k);
    ConvAppendRight(f', g, g', k - h);
    ConvAddLeft(f, f', AddSeq(g, g'), k - h);
    ConvAddRight(f, g, g', k - h);
    ConvAddRight(f', g, g', k - h);
  }

  /** The way the three half-size products are put together. */
  lemma KaratsubaAssembly(f: seq<int>, f': seq<int>, g: seq<int>, g': seq<int>)
    requires |f| == |f'| == |g| == |g'| > 0
    ensures var h := |f|;
            var u, z, y := Product(f, g), Product(f', g'), Product(AddSeq(f, f'), AddSeq(g, g'));
            AddSeq(AddSeq(u, Zeros(h) + SubSeq(SubSeq(y, u), z)), Zeros(2 * h) + z) == Product(f + f', g + g')
  {
    hide Conv, At;
    var h := |f|;
    var u, z, y := Product(f, g), Product(f', g'), Product(AddSeq(f, f'), AddSeq(g, g'));
    var all := AddSeq(AddSeq(u, Zeros(h) + SubSeq(SubSeq(y, u), z)), Zeros(2 * h) + z);
    forall k: nat | k < |all| ensures all[k] == Conv(f + f', g + g', k) {
      KaratsubaEntry(f, f', g, g', k);
      AssembledEntry(u, z, y, h, k);
      EntryAt(all, k);
    }
  }

  lemma EntryAt(s: seq<int>, k: nat)
    requires k < |s|
    ensures s[k] == At(s, k)
  {}

  lemma AssembledEntry(u: seq<int>, z: seq<int>, y: seq<int>, h: nat, k: nat)
    requires |u| == |z| == |y|
    ensures At(AddSeq(AddSeq(u, Zeros(h) + SubSeq(SubSeq(y, u), z)), Zeros(2 * h) + z), k) ==
      At(u, k) + (At(y, k - h) - At(u, k - h) - At(z, k - h)) + At(z, k - 2 * h)
  {
    hide At;
    var d := SubSeq(SubSeq(y, u), z);
    SumAt(AddSeq(u, Zeros(h) + d), Zeros(2 * h) + z, k);
    SumAt(u, Zeros(h) + d, k);
    ShiftAt(d, h, k);
    ShiftAt(z, 2 * h, k);
    DifferenceAt(SubSeq(y, u), z, k - h);
    DifferenceAt(y, u, k - h);
  }

  lemma SumAt(a: seq<int>, b: seq<int>, k: int)
    ensures At(AddSeq(a, b), k) == At(a, k) + At(b, k)
  {}

  lemma DifferenceAt(a: seq<int>, b: seq<int>, k: int)
    ensures At(SubSeq(a, b), k) == At(a, k) - At(b, k)
  {}

  lemma ShiftAt(a: seq<int>, h: nat, k: int)
    ensures At(Zeros(h) + a, k) == At(a, k - h)
  {}

  lemma KaratsubaEntry(f: seq<int>, f': seq<int>, g: seq<int>, g': seq<int>, k: int)
    requires |f| == |f'| == |g| == |g'| > 0
    ensures var h := |f|;
            var u, z, y := Product(f, g), Product(f', g'), Product(AddSeq(f, f'), AddSeq(g, g'));
            Conv(f + f', g + g', k) == At(u, k) + (At(y, k - h) - At(u, k - h) - At(z, k - h)) + At(z, k - 2 * h)
  {
    hide Conv, At, Product;
    var h := |f|;
    KaratsubaIdentity(f, f', g, g', k);
    ProductEntry(f, g, k);
    ProductEntry(f, g, k - h);
    ProductEntry(f', g', k - h);
    ProductEntry(AddSeq(f, f'), AddSeq(g, g'), k - h);
    ProductEntry(f', g', k - 2 * h);
  }

  lemma ProductEntry(f: seq<int>, g: seq<int>, k: int)
    requires |f| > 0 && |g| > 0
    ensures At(Product(f, g), k) == Conv(f, g, k)
  {
    if k < 0 || k >= |f| + |g| - 1 { ConvOutside(f, g, k); }
  }

  method PolyMulLessSlow(f: seq<Scalar>, g: seq<Scalar>, ghost l: nat) returns (product: seq<Scalar>)
    requires |f| == |g| == Pow2(l)
    ensures product == RedSeq(Product(f, g))
    decreases l
  {
    var n := |f|;
    if n == 1 {
      product := [Mul(f[0], g[0])];
      assert Conv(f, g, 0) == f[0] * g[0] + Conv(f[1..], g, -1);
      return;
    }
    var h := n / 2;
    assert n == 2 * Pow2(l - 1);
    var f0, f1, g0, g1 := f[..h], f[h..], g[..h], g[h..];
    var f01 := PolyAddAssign(f0, f1);
    var g01 := PolyAddAssign(g0, g1);
    var y := PolyMulLessSlow(f01, g01, l - 1);
    var z := PolyMulLessSlow(f1, g1, l - 1);
    var u := PolyMulLessSlow(f0, g0, l - 1);
    ghost var U, Y, Z := Product(f0, g0), Product(AddSeq(f0, f1), AddSeq(g0, g1)), Product(f1, g1);
    RedProduct(AddSeq(f0, f1), AddSeq(g0, g1));
    y := PolySubAssign(y, u);
    RedSub(Y, U);
    y := PolySubAssign(y, z);
    RedSub(SubSeq(Y, U), Z);
    y := PolyXnmulAssign(y, h);
    RedShift(SubSeq(SubSeq(Y, U), Z), h);
    z := PolyXnmulAssign(z, n);
    RedShift(Z, n);
    u := PolyAddAssign(u, y);
    RedAdd(U, Zeros(h) + SubSeq(SubSeq(Y, U), Z));
    u := PolyAddAssign(u, z);
    RedAdd(AddSeq(U, Zeros(h) + SubSeq(SubSeq(Y, U), Z)), Zeros(n) + Z);
    KaratsubaAssembly(f0, f1, g0, g1);
    assert f == f0 + f1 && g == g0 + g1;
    product := u;
  }
}
