/** An inner product with powers is an evaluation. */
module PowerSums {
  import opened ScalarField
  import opened PolynomialAlgebra
  import opened Interpolation
  import opened EvaluationDomain

  lemma {:induction false} PowersDotEval(y: Scalar, c: seq<int>, d: nat)
    requires |c| <= d
    ensures Cong(DotTo(c, Powers(y, d), |c|), Eval(c, y))
  {
    hide Eval, Pow;
    var ps := Powers(y, d);
    if |c| > 0 {
      var n := |c| - 1;
      var low := c[..n];
      assert c == low + [c[n]];
      PowersDotEval(y, low, d);
      DotPrefix(c, ps, n);
      AppendCoefficient(low, c[n], y);
      NextTerm(DotTo(c, ps, n), Eval(low, y), c[n], ps[n], Pow(y, n));
    } else {
      EvalZero(c, y);
    }
  }

  lemma NextTerm(d: int, e: int, c: int, p: int, q: int)
    requires Cong(d, e) && Cong(p, q)
    ensures Cong(d + c * p, e + c * q)
  {
    CongMul(c, c, p, q);
    CongAdd(d, e, c * p, c * q);
  }

  lemma {:induction false} DotPrefix(a: seq<int>, b: seq<int>, n: nat)
    requires n <= |a|
    ensures DotTo(a[..n], b, n) == DotTo(a, b, n)
  {
    forall i | 0 <= i < n ensures At(a[..n], i) == At(a, i) {}
    SameDot(a[..n], a, b, n);
  }

  lemma {:induction false} SameDot(a: seq<int>, a': seq<int>, b: seq<int>, n: nat)
    requires forall i :: 0 <= i < n ==> At(a, i) == At(a', i)
    ensures DotTo(a, b, n) == DotTo(a', b, n)
  {
    if n > 0 { SameDot(a, a', b, n - 1); }
  }
}
