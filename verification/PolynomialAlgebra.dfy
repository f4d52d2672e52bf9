/** Polynomials as coefficient vectors over the integers, constant term first.
    These are the reference meanings the fast routines are proved against:
    evaluation, convolution, the monic polynomial with given roots, the
    derivative. */
module PolynomialAlgebra {
  import opened ScalarField

  function At(c: seq<int>, i: int): int {
    if 0 <= i < |c| then c[i] else 0
  }

  function Eval(c: seq<int>, x: int): int {
    if |c| == 0 then 0 else c[0] + x * Eval(c[1..], x)
  }

  function RedSeq(c: seq<int>): (r: seq<Scalar>)
    ensures |r| == |c|
    ensures forall i :: 0 <= i < |c| ==> r[i] == Red(c[i])
  {
    seq(|c|, i requires 0 <= i < |c| => Red(c[i]))
  }

  function Zeros(n: nat): (r: seq<Scalar>)
    ensures |r| == n && forall i :: 0 <= i < n ==> r[i] == 0
  {
    seq(n, _ => 0)
  }

  function AddSeq(a: seq<int>, b: seq<int>): (r: seq<int>)
    ensures |r| == if |a| < |b| then |b| else |a|
    ensures forall i :: 0 <= i < |r| ==> r[i] == At(a, i) + At(b, i)
  {
    seq(if |a| < |b| then |b| else |a|, i requires 0 <= i => At(a, i) + At(b, i))
  }

  function SubSeq(a: seq<int>, b: seq<int>): (r: seq<int>)
    ensures |r| == if |a| < |b| then |b| else |a|
    ensures forall i :: 0 <= i < |r| ==> r[i] == At(a, i) - At(b, i)
  {
    seq(if |a| < |b| then |b| else |a|, i requires 0 <= i => At(a, i) - At(b, i))
  }

  function Scale(k: int, c: seq<int>): (r: seq<int>)
    ensures |r| == |c| && forall i :: 0 <= i < |c| ==> r[i] == k * c[i]
  {
    seq(|c|, i requires 0 <= i < |c| => k * c[i])
  }

  /** Coefficient k of the product: the sum of f[i] * g[k - i]. */
  function Conv(f: seq<int>, g: seq<int>, k: int): int {
    if |f| == 0 then 0 else f[0] * At(g, k) + Conv(f[1..], g, k - 1)
  }

  /** The schoolbook product of two non-empty coefficient vectors. */
  function Product(f: seq<int>, g: seq<int>): (r: seq<int>)
    requires |f| > 0 && |g| > 0
    ensures |r| == |f| + |g| - 1
    ensures forall k :: 0 <= k < |r| ==> r[k] == Conv(f, g, k)
  {
    seq(|f| + |g| - 1, k requires 0 <= k => Conv(f, g, k))
  }

  // ---- evaluation ----

  lemma {:induction false} EvalZero(c: seq<int>, x: int)
    requires forall i :: 0 <= i < |c| ==> c[i] == 0
    ensures Eval(c, x) == 0
  {
    if |c| > 0 { EvalZero(c[1..], x); }
  }

  lemma {:induction false} EvalAtZero(c: seq<int>)
    requires |c| > 0
    ensures Eval(c, 0) == c[0]
  {}

  lemma {:induction false} EvalAdd(a: seq<int>, b: seq<int>, x: int)
    ensures Eval(AddSeq(a, b), x) == Eval(a, x) + Eval(b, x)
  {
    if |a| == 0 {
      assert AddSeq(a, b) == b;
    } else if |b| == 0 {
      assert AddSeq(a, b) == a;
    } else {
      EvalAdd(a[1..], b[1..], x);
      assert AddSeq(a, b)[1..] == AddSeq(a[1..], b[1..]);
      MulDistribute(x, Eval(a[1..], x), Eval(b[1..], x));
    }
  }

  lemma {:induction false} EvalScale(k: int, c: seq<int>, x: int)
    ensures Eval(Scale(k, c), x) == k * Eval(c, x)
  {
    if |c| > 0 {
      EvalScale(k, c[1..], x);
      assert Scale(k, c)[1..] == Scale(k, c[1..]);
      MulDistribute(k, c[0], x * Eval(c[1..], x));
      MulAssoc(k, x, Eval(c[1..], x));
      MulAssoc(x, k, Eval(c[1..], x));
    }
  }

  lemma {:induction false} EvalAppend(a: seq<int>, b: seq<int>, x: int)
    ensures Eval(a + b, x) == Eval(a, x) + Pow(x, |a|) * Eval(b, x)
  {
    if |a| == 0 {
      assert a + b == b;
    } else {
      EvalAppend(a[1..], b, x);
      assert (a + b)[1..] == a[1..] + b;
      FactorOut(x, Eval(a[1..], x), Pow(x, |a| - 1), Eval(b, x));
    }
  }

  lemma EvalStep(c: seq<int>, x: int)
    requires |c| > 0
    ensures Eval(c, x) == c[0] + x * Eval(c[1..], x)
  {}

  lemma EvalSingle(c: seq<int>, x: int)
    requires |c| == 1
    ensures Eval(c, x) == c[0]
  {
    assert Eval(c[1..], x) == 0;
  }

  lemma AppendCoefficient(c: seq<int>, a: int, x: int)
    ensures Eval(c + [a], x) == Eval(c, x) + a * Pow(x, |c|)
  {
    hide Eval, Pow;
    EvalAppend(c, [a], x);
    EvalSingle([a], x);
    MulCommutes(a, Pow(x, |c|));
  }

  lemma FactorOut(x: int, u: int, p: int, v: int)
    ensures x * (u + p * v) == x * u + (x * p) * v
  {}

  lemma EvalPad(c: seq<int>, n: nat, x: int)
    ensures Eval(c + Zeros(n), x) == Eval(c, x)
  {
    EvalAppend(c, Zeros(n), x);
    EvalZero(Zeros(n), x);
  }

  lemma {:induction false} EvalCong(a: seq<int>, b: seq<int>, x: int, y: int)
    requires RedSeq(a) == RedSeq(b) && Cong(x, y)
    ensures Cong(Eval(a, x), Eval(b, y))
  {
    assert |a| == |RedSeq(a)| == |b|;
    if |a| > 0 {
      assert RedSeq(a)[0] == RedSeq(b)[0];
      assert RedSeq(a[1..]) == RedSeq(a)[1..] == RedSeq(b)[1..] == RedSeq(b[1..]);
      EvalCong(a[1..], b[1..], x, y);
      CongMul(x, y, Eval(a[1..], x), Eval(b[1..], y));
      CongAdd(a[0], b[0], x * Eval(a[1..], x), y * Eval(b[1..], y));
    }
  }

  lemma EvalRed(a: seq<int>, x: int)
    ensures Cong(Eval(RedSeq(a), x), Eval(a, x))
  {
    assert RedSeq(RedSeq(a)) == RedSeq(a);
    EvalCong(RedSeq(a), a, x, x);
  }

  // ---- the product ----

  lemma {:induction false} ConvOutside(f: seq<int>, g: seq<int>, k: int)
    requires k < 0 || k >= |f| + |g| - 1
    ensures Conv(f, g, k) == 0
  {
    if |f| > 0 { ConvOutside(f[1..], g, k - 1); }
  }

  lemma {:induction false} EvalProduct(f: seq<int>, g: seq<int>, x: int)
    requires |f| > 0 && |g| > 0
    ensures Eval(Product(f, g), x) == Eval(f, x) * Eval(g, x)
  {
    var h := Product(f, g);
    if |f| == 1 {
      assert Eval(f, x) == f[0] + x * Eval([], x) by { assert f[1..] == []; }
      assert h == Scale(f[0], g) by {
        forall k | 0 <= k < |g| ensures h[k] == f[0] * g[k] { assert Conv(f[1..], g, k - 1) == 0; }
      }
      EvalScale(f[0], g, x);
    } else {
      var t := [0] + Product(f[1..], g);
      assert h == AddSeq(Scale(f[0], g), t) by {
        forall k | 0 <= k < |h| ensures h[k] == f[0] * At(g, k) + At(t, k) {
          if k == 0 { ConvOutside(f[1..], g, -1); }
        }
      }
      EvalAdd(Scale(f[0], g), t, x);
      EvalScale(f[0], g, x);
      assert t[1..] == Product(f[1..], g);
      EvalProduct(f[1..], g, x);
      FactorOut(x, 0, Eval(f[1..], x), Eval(g, x));
      MulDistribute(Eval(g, x), f[0], x * Eval(f[1..], x));
    }
  }

  /** An integer polynomial that vanishes at every integer above some bound has
      only zero coefficients. */
  lemma {:induction false} VanishingIsZero(c: seq<int>, bound: nat)
    requires forall x :: x > bound ==> Eval(c, x) == 0
    ensures forall i :: 0 <= i < |c| ==> c[i] == 0
  {
    if |c| > 0 {
      var d := c[1..];
      forall x | x > bound ensures c[0] == 0 && Eval(d, x) == 0 {
        var y := x + if c[0] < 0 then -c[0] else c[0];
        assert Eval(c, y) == c[0] + y * Eval(d, y) == 0;
        SmallFactor(y, Eval(d, y), c[0]);
        assert Eval(c, x) == x * Eval(d, x) == 0;
      }
      assert Eval(d, bound + 1) == 0;
      VanishingIsZero(d, bound);
      assert c == [c[0]] + d;
    }
  }

  lemma SmallFactor(y: int, k: int, c: int)
    requires c + y * k == 0 && -y < c < y
    ensures c == 0
  {}

  lemma SameValuesSamePolynomial(f: seq<int>, g: seq<int>, bound: nat)
    requires |f| == |g| && forall x :: x > bound ==> Eval(f, x) == Eval(g, x)
    ensures f == g
  {
    var d := AddSeq(f, Scale(-1, g));
    forall x | x > bound ensures Eval(d, x) == 0 {
      EvalAdd(f, Scale(-1, g), x);
      EvalScale(-1, g, x);
    }
    VanishingIsZero(d, bound);
    assert forall i :: 0 <= i < |f| ==> d[i] == f[i] - g[i];
  }

  lemma ProductCommutes(f: seq<int>, g: seq<int>)
    requires |f| > 0 && |g| > 0
    ensures Product(f, g) == Product(g, f)
  {
    forall x | x > 0 ensures Eval(Product(f, g), x) == Eval(Product(g, f), x) {
      EvalProduct(f, g, x);
      EvalProduct(g, f, x);
    }
    SameValuesSamePolynomial(Product(f, g), Product(g, f), 0);
  }

  lemma {:induction false} ConvCong(f: seq<int>, f': seq<int>, g: seq<int>, g': seq<int>, k: int)
    requires RedSeq(f) == RedSeq(f') && RedSeq(g) == RedSeq(g')
    ensures Cong(Conv(f, g, k), Conv(f', g', k))
  {
    assert |f| == |RedSeq(f)| == |f'| && |g| == |RedSeq(g)| == |g'|;
    if |f| > 0 {
      assert RedSeq(f)[0] == RedSeq(f')[0];
      assert RedSeq(f[1..]) == RedSeq(f)[1..] == RedSeq(f')[1..] == RedSeq(f'[1..]);
      assert Cong(At(g, k), At(g', k)) by {
        if 0 <= k < |g| { assert RedSeq(g)[k] == RedSeq(g')[k]; }
      }
      ConvCong(f[1..], f'[1..], g, g', k - 1);
      CongMul(f[0], f'[0], At(g, k), At(g', k));
      CongAdd(f[0] * At(g, k), f'[0] * At(g', k), Conv(f[1..], g, k - 1), Conv(f'[1..], g', k - 1));
    }
  }

  // Convolution is bilinear, and concatenation shifts it.

  lemma {:induction false} ConvAppendLeft(f: seq<int>, f': seq<int>, g: seq<int>, k: int)
    ensures Conv(f + f', g, k) == Conv(f, g, k) + Conv(f', g, k - |f|)
  {
    if |f| == 0 {
      assert f + f' == f';
    } else {
      ConvAppendLeft(f[1..], f', g, k - 1);
      assert (f + f')[1..] == f[1..] + f';
    }
  }

  lemma {:induction false} ConvAppendRight(f: seq<int>, g: seq<int>, g': seq<int>, k: int)
    ensures Conv(f, g + g', k) == Conv(f, g, k) + Conv(f, g', k - |g|)
  {
    if |f| > 0 {
      ConvAppendRight(f[1..], g, g', k - 1);
      assert At(g + g', k) == At(g, k) + At(g', k - |g|);
      MulDistribute(f[0], At(g, k), At(g', k - |g|));
    }
  }

  lemma {:induction false} ConvAddLeft(f: seq<int>, f': seq<int>, g: seq<int>, k: int)
    requires |f| == |f'|
    ensures Conv(AddSeq(f, f'), g, k) == Conv(f, g, k) + Conv(f', g, k)
  {
    if |f| > 0 {
      ConvAddLeft(f[1..], f'[1..], g, k - 1);
      assert AddSeq(f, f')[1..] == AddSeq(f[1..], f'[1..]);
      MulDistribute(At(g, k), f[0], f'[0]);
    }
  }

  lemma {:induction false} ConvAddRight(f: seq<int>, g: seq<int>, g': seq<int>, k: int)
    ensures Conv(f, AddSeq(g, g'), k) == Conv(f, g, k) + Conv(f, g', k)
  {
    if |f| > 0 {
      ConvAddRight(f[1..], g, g', k - 1);
      MulDistribute(f[0], At(g, k), At(g', k));
    }
  }

  lemma ProductCong(f: seq<int>, f': seq<int>, g: seq<int>, g': seq<int>)
    requires |f| > 0 && |g| > 0 && RedSeq(f) == RedSeq(f') && RedSeq(g) == RedSeq(g')
    ensures |f'| == |f| && |g'| == |g|
    ensures RedSeq(Product(f, g)) == RedSeq(Product(f', g'))
  {
    assert |f| == |RedSeq(f)| == |f'| && |g| == |RedSeq(g)| == |g'|;
    forall k | 0 <= k < |f| + |g| - 1 ensures Red(Product(f, g)[k]) == Red(Product(f', g')[k]) {
      ConvCong(f, f', g, g', k);
    }
  }

  // ---- roots ----

  /** Synthetic division by (X - a). */
  function Quotient(c: seq<int>, a: int): (r: seq<int>)
    requires |c| > 0
    ensures |r| == |c| - 1
  {
    if |c| == 1 then [] else [Eval(c[1..], a)] + Quotient(c[1..], a)
  }

  lemma {:induction false} QuotientDivides(c: seq<int>, a: int, x: int)
    requires |c| > 0
    ensures Eval(c, x) == (x - a) * Eval(Quotient(c, a), x) + Eval(c, a)
  {
    hide Eval, Quotient;
    if |c| == 1 {
      EvalSingle(c, x);
      EvalSingle(c, a);
      NoQuotient(c, a, x);
    } else {
      var d := c[1..];
      QuotientDivides(d, a, x);
      EvalStep(c, x);
      EvalStep(c, a);
      QuotientStep(c, a, x);
      DivisionIdentity(x, a, Eval(d, a), Eval(Quotient(d, a), x));
    }
  }

  lemma NoQuotient(c: seq<int>, a: int, x: int)
    requires |c| == 1
    ensures (x - a) * Eval(Quotient(c, a), x) == 0
  {}

  lemma QuotientStep(c: seq<int>, a: int, x: int)
    requires |c| > 1
    ensures Quotient(c, a) == [Eval(c[1..], a)] + Quotient(c[1..], a)
    ensures Eval(Quotient(c, a), x) == Eval(c[1..], a) + x * Eval(Quotient(c[1..], a), x)
  {
    hide Eval;
    var q := Quotient(c, a);
    assert q[1..] == Quotient(c[1..], a);
    EvalStep(q, x);
  }

  lemma DivisionIdentity(x: int, a: int, v: int, w: int)
    ensures x * ((x - a) * w + v) == (x - a) * (v + x * w) + a * v
  {}

  ghost predicate Distinct(xs: seq<int>) {
    forall i, j :: 0 <= i < j < |xs| ==> !Cong(xs[i], xs[j])
  }

  lemma RootOfQuotient(c: seq<int>, a: int, y: int)
    requires |c| > 0 && !Cong(a, y)
    requires Cong(Eval(c, a), 0) && Cong(Eval(c, y), 0)
    ensures Cong(Eval(Quotient(c, a), y), 0)
  {
    QuotientDivides(c, a, y);
    CongSub(Eval(c, y), 0, Eval(c, a), 0);
    if Cong(y - a, 0) { CongAdd(y - a, 0, a, a); }
    NoZeroDivisors(y - a, Eval(Quotient(c, a), y));
  }

  /** A polynomial over the field with as many distinct roots as coefficients is
      zero. */
  lemma {:induction false} TooManyRoots(c: seq<int>, xs: seq<int>)
    requires |c| <= |xs| && Distinct(xs)
    requires forall i :: 0 <= i < |xs| ==> Cong(Eval(c, xs[i]), 0)
    ensures forall i :: 0 <= i < |c| ==> Cong(c[i], 0)
    decreases |c|
  {
    if |c| > 0 {
      var a, q, ys := xs[0], Quotient(c, xs[0]), xs[1..];
      forall i | 0 <= i < |ys| ensures Cong(Eval(q, ys[i]), 0) {
        assert ys[i] == xs[i + 1];
        RootOfQuotient(c, a, ys[i]);
      }
      TooManyRoots(q, ys);
      QuotientZero(c, a);
    }
  }

  lemma {:induction false} QuotientZero(c: seq<int>, a: int)
    requires |c| > 0 && Cong(Eval(c, a), 0)
    requires forall i :: 0 <= i < |c| - 1 ==> Cong(Quotient(c, a)[i], 0)
    ensures forall i :: 0 <= i < |c| ==> Cong(c[i], 0)
  {
    var d, v := c[1..], Eval(c[1..], a);
    assert Cong(v, 0) by {
      if |c| > 1 { assert Quotient(c, a)[0] == v; }
    }
    CongMul(a, a, v, 0);
    CongSub(Eval(c, a), 0, a * v, 0);
    if |c| > 1 {
      forall i | 0 <= i < |d| - 1 ensures Cong(Quotient(d, a)[i], 0) {
        assert Quotient(d, a)[i] == Quotient(c, a)[i + 1];
      }
      QuotientZero(d, a);
    }
    assert c == [c[0]] + d;
  }

  /** Interpolation is unique: values at enough distinct points determine the
      coefficients. */
  lemma InterpolationUnique(f: seq<int>, g: seq<int>, xs: seq<int>)
    requires |f| == |g| <= |xs| && Distinct(xs)
    requires forall i :: 0 <= i < |xs| ==> Cong(Eval(f, xs[i]), Eval(g, xs[i]))
    ensures RedSeq(f) == RedSeq(g)
  {
    hide Eval;
    var d := AddSeq(f, Scale(-1, g));
    forall i | 0 <= i < |xs| ensures Cong(Eval(d, xs[i]), 0) {
      EvalAdd(f, Scale(-1, g), xs[i]);
      EvalScale(-1, g, xs[i]);
      CongSub(Eval(f, xs[i]), Eval(g, xs[i]), Eval(g, xs[i]), Eval(g, xs[i]));
    }
    TooManyRoots(d, xs);
    SameResidues(f, g, d);
  }

  lemma SameResidues(f: seq<int>, g: seq<int>, d: seq<int>)
    requires |f| == |g| && d == AddSeq(f, Scale(-1, g))
    requires forall i :: 0 <= i < |d| ==> Cong(d[i], 0)
    ensures RedSeq(f) == RedSeq(g)
  {
    forall i | 0 <= i < |f| ensures Red(f[i]) == Red(g[i]) {
      assert d[i] == f[i] - g[i];
      CongAdd(d[i], 0, g[i], g[i]);
    }
  }

  // ---- the accumulator polynomial and its derivative ----

  /** The product of (x - a) over the elements a of s. */
  function Difference(x: int, s: seq<int>): int {
    if |s| == 0 then 1 else (x - s[0]) * Difference(x, s[1..])
  }

  /** The coefficients of the product of (X - a) over the elements a of s. */
  function Accumulator(s: seq<int>): (r: seq<int>)
    ensures |r| == |s| + 1
  {
    if |s| == 0 then [1] else Product([-s[0], 1], Accumulator(s[1..]))
  }

  lemma EvalLinear(a: int, b: int, x: int)
    ensures Eval([a, b], x) == a + b * x
  {
    assert [a, b][1..] == [b] && [b][1..] == [];
    assert Eval([b], x) == b + x * Eval([], x);
  }

  lemma {:induction false} EvalAccumulator(s: seq<int>, x: int)
    ensures Eval(Accumulator(s), x) == Difference(x, s)
  {
    if |s| == 0 {
      assert Eval([1], x) == 1 + x * Eval([], x);
    } else {
      var l := [-s[0], 1];
      EvalProduct(l, Accumulator(s[1..]), x);
      EvalAccumulator(s[1..], x);
      EvalLinear(-s[0], 1, x);
    }
  }

  lemma {:induction false} AccumulatorMonic(s: seq<int>)
    ensures Accumulator(s)[|s|] == 1
  {
    if |s| > 0 {
      AccumulatorMonic(s[1..]);
      var l, z := [-s[0], 1], Accumulator(s[1..]);
      assert l[1..] == [1] && l[1..][1..] == [];
      assert Conv(l, z, |s|) == -s[0] * At(z, |s|) + (1 * At(z, |s| - 1) + Conv([], z, |s| - 2));
    }
  }

  lemma {:induction false} DifferenceAppend(x: int, s: seq<int>, t: seq<int>)
    ensures Difference(x, s + t) == Difference(x, s) * Difference(x, t)
  {
    if |s| == 0 {
      assert s + t == t;
    } else {
      DifferenceAppend(x, s[1..], t);
      assert (s + t)[1..] == s[1..] + t;
      MulAssoc(x - s[0], Difference(x, s[1..]), Difference(x, t));
    }
  }

  lemma AccumulatorAppend(s: seq<int>, t: seq<int>)
    ensures Accumulator(s + t) == Product(Accumulator(s), Accumulator(t))
  {
    var l, r := Accumulator(s + t), Product(Accumulator(s), Accumulator(t));
    forall x | x > 0 ensures Eval(l, x) == Eval(r, x) {
      EvalProduct(Accumulator(s), Accumulator(t), x);
      EvalAccumulator(s, x);
      EvalAccumulator(t, x);
      EvalAccumulator(s + t, x);
      DifferenceAppend(x, s, t);
    }
    SameValuesSamePolynomial(l, r, 0);
  }

  /** The formal derivative. */
  function Derivative(c: seq<int>): (r: seq<int>)
    ensures |r| == if |c| == 0 then 0 else |c| - 1
    ensures forall i :: 0 <= i < |r| ==> r[i] == (i + 1) * c[i + 1]
  {
    if |c| == 0 then [] else seq(|c| - 1, i requires 0 <= i < |c| - 1 => (i + 1) * c[i + 1])
  }

  /** The derivative at a is the synthetic quotient by (X - a) at a. */
  lemma {:induction false} DerivativeIsQuotient(c: seq<int>, a: int)
    requires |c| > 0
    ensures Eval(Derivative(c), a) == Eval(Quotient(c, a), a)
  {
    hide Eval, Quotient, Derivative;
    if |c| == 1 {
      BothEmpty(c, a);
    } else {
      var d := c[1..];
      DerivativeIsQuotient(d, a);
      QuotientStep(c, a, a);
      var shifted := [0] + Derivative(d);
      DerivativeShift(c);
      EvalAdd(d, shifted, a);
      EvalStep(shifted, a);
      assert shifted[1..] == Derivative(d);
    }
  }

  lemma BothEmpty(c: seq<int>, a: int)
    requires |c| == 1
    ensures Eval(Derivative(c), a) == 0 == Eval(Quotient(c, a), a)
  {}

  /** (X * d)' = d + X * d'. */
  lemma DerivativeShift(c: seq<int>)
    requires |c| > 1
    ensures Derivative(c) == AddSeq(c[1..], [0] + Derivative(c[1..]))
  {
    var d := c[1..];
    var l, r := Derivative(c), AddSeq(d, [0] + Derivative(d));
    forall i | 0 <= i < |l| ensures l[i] == r[i] { ShiftedEntry(d[i], i); }
  }

  lemma ShiftedEntry(x: int, i: int)
    ensures (i + 1) * x == x + i * x
  {}

  /** f = (X - a) * g. */
  ghost predicate LinearFactor(f: seq<int>, a: int, g: seq<int>) {
    |f| == |g| + 1 && forall x :: Eval(f, x) == (x - a) * Eval(g, x)
  }

  /** If f = (X - a) * g then f'(a) = g(a). */
  lemma DerivativeAtRoot(f: seq<int>, a: int, g: seq<int>)
    requires LinearFactor(f, a, g)
    ensures Eval(Derivative(f), a) == Eval(g, a)
  {
    var q := Quotient(f, a);
    var bound: nat := if a > 0 then a else 0;
    forall x | x > bound ensures Eval(q, x) == Eval(g, x) {
      QuotientDivides(f, a, x);
      assert Eval(f, a) == (a - a) * Eval(g, a);
      CancelFactor(x - a, Eval(q, x), Eval(g, x));
    }
    SameValuesSamePolynomial(q, g, bound);
    DerivativeIsQuotient(f, a);
  }

  lemma CancelFactor(k: int, u: int, v: int)
    requires k != 0 && k * u == k * v
    ensures u == v
  {}
}
