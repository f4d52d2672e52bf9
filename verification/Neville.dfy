/** Interpolation at arbitrary points by Neville's scheme, and Horner evaluation
    (crypto_blstrs/mod.rs). */
module Neville {
  import opened ScalarField
  import opened PolynomialAlgebra
  import opened Polynomials

  /** Horner's rule from the last coefficient down. */
  method EvalHorner(coeff: seq<Scalar>, x: Scalar) returns (b: Scalar)
    ensures b == Red(Eval(coeff, x))
  {
    if |coeff| == 0 {
      return 0;
    }
    var i := |coeff| - 1;
    b := coeff[i];
    LastEval(coeff, x);
    while i > 0
      invariant 0 <= i < |coeff| && b == Red(Eval(coeff[i..], x))
    {
      hide Eval;
      i := i - 1;
      HornerStep(coeff, x, i, b);
      b := Add(Mul(b, x), coeff[i]);
    }
    assert coeff[0..] == coeff;
  }

  lemma LastEval(c: seq<Scalar>, x: int)
    requires |c| > 0
    ensures Red(Eval(c[|c| - 1..], x)) == c[|c| - 1]
  {
    assert c[|c| - 1..][1..] == [];
  }

  lemma HornerStep(c: seq<Scalar>, x: Scalar, i: nat, b: Scalar)
    requires i + 1 < |c| && b == Red(Eval(c[i + 1..], x))
    ensures Add(Mul(b, x), c[i]) == Red(Eval(c[i..], x))
  {
    assert c[i..][1..] == c[i + 1..];
    var e := Eval(c[i + 1..], x);
    CongMul(b, e, x, x);
    MulCommutes(e, x);
    CongAdd(Mul(b, x), x * e, c[i], c[i]);
  }

  /** `mul_poly`: multiplication by (x - X), in place from the top. */
  method MulPoly(poly0: seq<Scalar>, x: Scalar) returns (poly: seq<Scalar>)
    requires |poly0| > 0
    ensures poly == RedSeq(Product([x as int, -1], poly0))
  {
    hide Mul, Conv, Product;
    poly := poly0 + [0];
    var l := |poly|;
    while l > 0
      invariant 0 <= l <= |poly| == |poly0| + 1
      invariant forall k :: 0 <= k < l ==> poly[k] == At(poly0, k)
      invariant forall k :: l <= k < |poly| ==> poly[k] == Red(Conv([x as int, -1], poly0, k))
    {
      l := l - 1;
      LinearEntry(poly0, x, l);
      poly := poly[l := Mul(poly[l], x)];
      if l > 0 {
        poly := poly[l := Sub(poly[l], poly[l - 1])];
      }
    }
  }

  lemma LinearEntry(poly: seq<Scalar>, x: Scalar, l: nat)
    ensures Red(Conv([x as int, -1], poly, l))
         == if l > 0 then Sub(Mul(At(poly, l), x), At(poly, l - 1)) else Mul(At(poly, l), x)
  {
    var f: seq<int> := [x as int, -1];
    var u := At(poly, l);
    assert f[1..] == [-1] && f[1..][1..] == [];
    assert Conv(f, poly, l) == x * u + (-1 * At(poly, l - 1) + Conv([], poly, l - 2));
    MulCommutes(x, u);
    CongSub(Mul(u, x), x * u, At(poly, l - 1), At(poly, l - 1));
  }

  /** p has one coefficient a point and passes through the points lo .. hi. */
  ghost predicate PassesThrough(p: seq<Scalar>, xs: seq<Scalar>, ys: seq<Scalar>, lo: nat, hi: nat)
    requires |xs| == |ys| && hi < |xs|
  {
    |p| == hi - lo + 1 && forall k :: lo <= k <= hi ==> Cong(Eval(p, xs[k]), ys[k])
  }

  /** q(t) * (xj - xi) = (xj - t) * p(t) - (xi - t) * p'(t). */
  ghost predicate Combined(p: seq<int>, p': seq<int>, q: seq<int>, xi: int, xj: int, t: int) {
    Cong(Eval(q, t) * (xj - xi), (xj - t) * Eval(p, t) - (xi - t) * Eval(p', t))
  }

  /** One combination of two neighbouring interpolants. */
  method Combine(p: seq<Scalar>, p': seq<Scalar>, xi: Scalar, xj: Scalar) returns (q: seq<Scalar>)
    requires |p| == |p'| > 0 && !Cong(xi, xj)
    ensures |q| == |p| + 1 && forall t :: Combined(p, p', q, xi, xj, t)
  {
    hide Eval, Product, Combined, Mul, Sub;
    var a := MulPoly(p, xj);
    var b := MulPoly(p', xi);
    DifferenceInvertible(xi, xj);
    var diff := Inv(Sub(xj, xi));
    q := seq(|a|, k requires 0 <= k < |a| => Mul(Sub(a[k], b[k]), diff));
    forall t ensures Combined(p, p', q, xi, xj, t) {
      CombineValue(p, p', xi, xj, diff, a, b, q, t);
    }
  }

  lemma DifferenceInvertible(xi: Scalar, xj: Scalar)
    requires !Cong(xi, xj)
    ensures Red(Sub(xj, xi)) != 0
  {
    if Cong(xj - xi, 0) { CongAdd(xj - xi, 0, xi, xi); }
  }

  lemma LinearProductValue(x: int, p: seq<int>, t: int)
    requires |p| > 0
    ensures Eval(Product([x, -1], p), t) == (x - t) * Eval(p, t)
  {
    hide Eval, Product;
    EvalProduct([x, -1], p, t);
    EvalLinear(x, -1, t);
  }

  lemma CombineValue(p: seq<Scalar>, p': seq<Scalar>, xi: Scalar, xj: Scalar, diff: Scalar, a: seq<Scalar>, b: seq<Scalar>,
                     q: seq<Scalar>, t: int)
    requires |p| == |p'| > 0 && Red(Sub(xj, xi)) != 0 && diff == Inv(Sub(xj, xi))
    requires a == RedSeq(Product([xj as int, -1], p)) && b == RedSeq(Product([xi as int, -1], p'))
    requires |q| == |a| && forall k :: 0 <= k < |q| ==> q[k] == Mul(Sub(a[k], b[k]), diff)
    ensures Combined(p, p', q, xi, xj, t)
  {
    hide Eval, Product;
    var u, v := Product([xj as int, -1], p), Product([xi as int, -1], p');
    var raw := Scale(diff, SubSeq(u, v));
    forall k: nat | k < |q| ensures RedSeq(q)[k] == RedSeq(raw)[k] {
      QuotientEntry(a[k], b[k], u[k], v[k], diff);
    }
    EvalCong(q, raw, t, t);
    EvalScale(diff, SubSeq(u, v), t);
    EvalSub(u, v, t);
    LinearProductValue(xj, p, t);
    LinearProductValue(xi, p', t);
    UndoDivision(Eval(q, t), diff, (xj - t) * Eval(p, t) - (xi - t) * Eval(p', t), xj - xi);
  }

  lemma QuotientEntry(a: int, b: int, u: int, v: int, diff: int)
    requires Cong(a, u) && Cong(b, v)
    ensures Mul(Sub(a, b), diff) == Red(diff * (u - v))
  {
    CongSub(a, u, b, v);
    CongMul(Sub(a, b), u - v, diff, diff);
    MulCommutes(u - v, diff);
  }

  lemma EvalSub(a: seq<int>, b: seq<int>, x: int)
    ensures Eval(SubSeq(a, b), x) == Eval(a, x) - Eval(b, x)
  {
    EvalAdd(a, Scale(-1, b), x);
    EvalScale(-1, b, x);
    assert SubSeq(a, b) == AddSeq(a, Scale(-1, b));
  }

  lemma UndoDivision(e: int, u: int, v: int, d: int)
    requires Cong(e, u * v) && Cong(Red(d) * u, 1)
    ensures Cong(e * d, v)
  {
    CongMul(e, u * v, d, Red(d));
    MulSwap(u, v, Red(d));
    MulCommutes(u, Red(d));
    CongMul(Red(d) * u, 1, v, v);
  }

  /** The combination passes through all the points of both interpolants. */
  lemma CombinePasses(p: seq<Scalar>, p': seq<Scalar>, q: seq<Scalar>, xs: seq<Scalar>, ys: seq<Scalar>, i: nat, j: nat)
    requires |xs| == |ys| && i < j < |xs| && !Cong(xs[i], xs[j])
    requires PassesThrough(p, xs, ys, i, j - 1) && PassesThrough(p', xs, ys, i + 1, j)
    requires |q| == |p| + 1 && forall t :: Combined(p, p', q, xs[i], xs[j], t)
    ensures PassesThrough(q, xs, ys, i, j)
  {
    hide Eval;
    forall k | i <= k <= j ensures Cong(Eval(q, xs[k]), ys[k]) {
      assert Combined(p, p', q, xs[i], xs[j], xs[k]);
      CombineAt(Eval(q, xs[k]), Eval(p, xs[k]), Eval(p', xs[k]), xs[i], xs[j], xs[k], ys[k]);
    }
  }

  lemma CombineAt(q: int, p: int, p': int, xi: int, xj: int, t: int, y: int)
    requires !Cong(xi, xj) && Cong(q * (xj - xi), (xj - t) * p - (xi - t) * p')
    requires (t != xj ==> Cong(p, y)) && (t != xi ==> Cong(p', y))
    ensures Cong(q, y)
  {
    ScaledValue(xj, t, p, y);
    ScaledValue(xi, t, p', y);
    CongSub((xj - t) * p, (xj - t) * y, (xi - t) * p', (xi - t) * y);
    CombineIdentity(xi, xj, t, y);
    if Cong(xj - xi, 0) { CongAdd(xj - xi, 0, xi, xi); }
    MulCommutes(q, xj - xi);
    CancelLeft(xj - xi, q, y);
  }

  lemma ScaledValue(x: int, t: int, p: int, y: int)
    requires t != x ==> Cong(p, y)
    ensures Cong((x - t) * p, (x - t) * y)
  {
    if t != x { CongMul(x - t, x - t, p, y); }
  }

  lemma CombineIdentity(xi: int, xj: int, t: int, y: int)
    ensures (xj - t) * y - (xi - t) * y == (xj - xi) * y
  {}

  /** The interpolating polynomial: exactly one coefficient a point, and the given
      value at every point. */
  method Interpolate(xs: seq<Scalar>, ys: seq<Scalar>) returns (p: seq<Scalar>)
    requires |xs| == |ys| && Distinct(xs)
    ensures |p| == |xs|
    ensures forall k :: 0 <= k < |xs| ==> Red(Eval(p, xs[k])) == ys[k]
  {
    var n := |xs|;
    if n == 0 {
      return [];
    }
    var polys: seq<seq<Scalar>> := seq(n, k requires 0 <= k < n => [ys[k]]);
    forall k: nat | k < n ensures PassesThrough(polys[k], xs, ys, k, k) {
      assert Eval([ys[k]], xs[k]) == ys[k] + xs[k] * Eval([], xs[k]);
    }
    hide Eval, PassesThrough;
    for j := 1 to n
      invariant |polys| == n
      invariant forall k :: 0 <= k < j ==> PassesThrough(polys[k], xs, ys, k, j - 1)
      invariant forall k :: j <= k < n ==> PassesThrough(polys[k], xs, ys, k, k)
    {
      polys := NevilleRound(xs, ys, polys, j);
    }
    p := polys[0];
    WholeRange(p, xs, ys);
  }

  lemma WholeRange(p: seq<Scalar>, xs: seq<Scalar>, ys: seq<Scalar>)
    requires |xs| == |ys| > 0 && PassesThrough(p, xs, ys, 0, |xs| - 1)
    ensures |p| == |xs| && forall k :: 0 <= k < |xs| ==> Red(Eval(p, xs[k])) == ys[k]
  {}

  /** The inner loop of round j: entry i is updated after entry i + 1. */
  method NevilleRound(xs: seq<Scalar>, ys: seq<Scalar>, polys0: seq<seq<Scalar>>, j: nat) returns (polys: seq<seq<Scalar>>)
    requires |xs| == |ys| == |polys0| && 1 <= j < |xs| && Distinct(xs)
    requires forall k :: 0 <= k < j ==> PassesThrough(polys0[k], xs, ys, k, j - 1)
    requires PassesThrough(polys0[j], xs, ys, j, j)
    ensures |polys| == |polys0|
    ensures forall k :: 0 <= k <= j ==> PassesThrough(polys[k], xs, ys, k, j)
    ensures forall k :: j < k < |polys| ==> polys[k] == polys0[k]
  {
    polys := polys0;
    var i := j;
    while i > 0
      invariant 0 <= i <= j && |polys| == |polys0|
      invariant forall k :: 0 <= k < i ==> PassesThrough(polys[k], xs, ys, k, j - 1)
      invariant forall k :: i <= k <= j ==> PassesThrough(polys[k], xs, ys, k, j)
      invariant forall k :: j < k < |polys| ==> polys[k] == polys0[k]
    {
      i := i - 1;
      SameLength(polys[i], polys[i + 1], xs, ys, i, j);
      hide PassesThrough, Eval;
      var q := Combine(polys[i], polys[i + 1], xs[i], xs[j]);
      CombinePasses(polys[i], polys[i + 1], q, xs, ys, i, j);
      polys := polys[i := q];
    }
  }

  lemma SameLength(p: seq<Scalar>, p': seq<Scalar>, xs: seq<Scalar>, ys: seq<Scalar>, i: nat, j: nat)
    requires |xs| == |ys| && i < j < |xs|
    requires PassesThrough(p, xs, ys, i, j - 1) && PassesThrough(p', xs, ys, i + 1, j)
    ensures |p| == |p'| > 0
  {}
}
