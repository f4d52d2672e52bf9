/** The divide-and-conquer accumulator polynomials (polynomials.rs). */
module Accumulators {
  import opened ScalarField
  import opened PolynomialAlgebra
  import opened EvaluationDomain
  import opened Polynomials

  lemma EvalCubic(a: int, b: int, c: int, d: int, x: int)
    ensures Eval([a, b, c, d], x) == a + x * (b + x * (c + d * x))
  {
    assert [a, b, c, d][1..] == [b, c, d] && [b, c, d][1..] == [c, d];
    EvalLinear(c, d, x);
  }

  lemma DifferenceOfThree(x: int, a: int, b: int, c: int)
    ensures Difference(x, [c]) == (x - c) * 1
    ensures Difference(x, [b, c]) == (x - b) * ((x - c) * 1)
    ensures Difference(x, [a, b, c]) == (x - a) * ((x - b) * ((x - c) * 1))
  {
    assert [a, b, c][1..] == [b, c] && [b, c][1..] == [c] && [c][1..] == [];
  }

  lemma SingleAccumulator(a: int)
    ensures Accumulator([a]) == [-a, 1]
  {
    hide Eval, Accumulator, Difference;
    forall x | x > 0 ensures Eval(Accumulator([a]), x) == Eval([-a, 1], x) {
      EvalAccumulator([a], x);
      EvalLinear(-a, 1, x);
      DifferenceOfThree(x, 0, 0, a);
    }
    SameValuesSamePolynomial(Accumulator([a]), [-a, 1], 0);
  }

  lemma PairAccumulator(a: int, b: int)
    ensures Accumulator([a, b]) == [a * b, -(a + b), 1]
  {
    hide Eval, Accumulator, Difference;
    var c := [a * b, -(a + b), 1];
    forall x | x > 0 ensures Eval(Accumulator([a, b]), x) == Eval(c, x) {
      EvalAccumulator([a, b], x);
      EvalQuadratic(a * b, -(a + b), 1, x);
      DifferenceOfThree(x, 0, a, b);
      PairIdentity(a, b, x);
    }
    SameValuesSamePolynomial(Accumulator([a, b]), c, 0);
  }

  lemma EvalQuadratic(a: int, b: int, c: int, x: int)
    ensures Eval([a, b, c], x) == a + x * (b + c * x)
  {
    assert [a, b, c][1..] == [b, c];
    EvalLinear(b, c, x);
  }

  lemma PairIdentity(a: int, b: int, x: int)
    ensures (x - a) * ((x - b) * 1) == a * b + x * (-(a + b) + 1 * x)
  {}

  lemma TripleAccumulator(a: int, b: int, c: int)
    ensures Accumulator([a, b, c]) == [-(a * (b * c)), a * (b + c) + b * c, -(a + b + c), 1]
  {
    hide Eval, Accumulator, Difference;
    var z := [-(a * (b * c)), a * (b + c) + b * c, -(a + b + c), 1];
    forall x | x > 0 ensures Eval(Accumulator([a, b, c]), x) == Eval(z, x) {
      EvalAccumulator([a, b, c], x);
      EvalCubic(-(a * (b * c)), a * (b + c) + b * c, -(a + b + c), 1, x);
      DifferenceOfThree(x, a, b, c);
      TripleIdentity(a, b, c, x);
    }
    SameValuesSamePolynomial(Accumulator([a, b, c]), z, 0);
  }

  lemma TripleIdentity(a: int, b: int, c: int, x: int)
    ensures (x - a) * ((x - b) * ((x - c) * 1))
         == -(a * (b * c)) + x * ((a * (b + c) + b * c) + x * (-(a + b + c) + 1 * x))
  {}

  /** What an accumulator call returns: nothing for no points, and otherwise the
      coefficients of the product of (X - a). */
  ghost predicate Accumulates(z: seq<Scalar>, s: seq<int>) {
    z == if |s| == 0 then [] else RedSeq(Accumulator(s))
  }

  /** The special cases for up to three points. */
  method SmallAccumulator(s: seq<Scalar>) returns (z: seq<Scalar>)
    requires 1 <= |s| <= 3
    ensures Accumulates(z, s)
  {
    hide Accumulator, Add, Mul, Neg;
    if |s| == 1 {
      z := [Neg(s[0]), Red(1)];
      assert s == [s[0]];
      SingleResidues(s[0]);
    } else if |s| == 2 {
      z := [Mul(s[0], s[1]), Neg(Add(s[0], s[1])), Red(1)];
      assert s == [s[0], s[1]];
      PairResidues(s[0], s[1]);
    } else {
      var sum, prod := Add(s[1], s[2]), Mul(s[1], s[2]);
      var c0 := Neg(Mul(s[0], prod));
      var c1 := Add(Mul(s[0], sum), prod);
      var c2 := Neg(Add(Add(s[0], s[1]), s[2]));
      z := [c0, c1, c2, Red(1)];
      assert s == [s[0], s[1], s[2]];
      TripleResidues(s[0], s[1], s[2]);
    }
  }

  lemma SingleResidues(a: int)
    ensures [Neg(a), Red(1)] == RedSeq(Accumulator([a]))
  {
    SingleAccumulator(a);
  }

  lemma PairResidues(a: int, b: int)
    ensures [Mul(a, b), Neg(Add(a, b)), Red(1)] == RedSeq(Accumulator([a, b]))
  {
    PairAccumulator(a, b);
    RedNeg(a + b);
  }

  lemma RedNeg(x: int)
    ensures Neg(Red(x)) == Red(-x)
  {
    CongSub(0, 0, Red(x), x);
  }

  lemma TripleResidues(a: int, b: int, c: int)
    ensures [Neg(Mul(a, Mul(b, c))), Add(Mul(a, Add(b, c)), Mul(b, c)), Neg(Add(Add(a, b), c)), Red(1)]
         == RedSeq(Accumulator([a, b, c]))
  {
    hide Accumulator, Add, Mul, Neg;
    TripleAccumulator(a, b, c);
    TripleProduct(a, b, c);
    TripleMixed(a, b, c);
    TripleSum(a, b, c);
  }

  lemma TripleProduct(a: int, b: int, c: int)
    ensures Neg(Mul(a, Mul(b, c))) == Red(-(a * (b * c)))
  {
    CongMul(a, a, Mul(b, c), b * c);
    RedNeg(a * (b * c));
  }

  lemma TripleMixed(a: int, b: int, c: int)
    ensures Add(Mul(a, Add(b, c)), Mul(b, c)) == Red(a * (b + c) + b * c)
  {
    CongMul(a, a, Add(b, c), b + c);
    CongAdd(Mul(a, Add(b, c)), a * (b + c), Mul(b, c), b * c);
  }

  lemma TripleSum(a: int, b: int, c: int)
    ensures Neg(Add(Add(a, b), c)) == Red(-(a + b + c))
  {
    CongAdd(Add(a, b), a + b, c, c);
    RedNeg(a + b + c);
  }

  lemma ProductAccumulates(s: seq<Scalar>, t: seq<Scalar>, z: seq<Scalar>)
    requires |s| > 0 && |t| > 0
    requires z == RedSeq(Product(RedSeq(Accumulator(s)), RedSeq(Accumulator(t))))
    ensures Accumulates(z, s + t)
  {
    RedProduct(Accumulator(s), Accumulator(t));
    AccumulatorAppend(s, t);
  }

  /** Halving, with the slow product below the threshold and the FFT above it.
      Every subdomain the recursion asks for fits the batch. */
  method AccumulatorPoly(s: seq<Scalar>, batch: BatchDomain, fftThresh: nat) returns (z: seq<Scalar>)
    requires ValidBatch(batch) && (|s| <= 3 || |s| + 1 <= batch.N())
    ensures Accumulates(z, s)
    decreases |s|
  {
    hide Accumulator, Product;
    if |s| == 0 {
      return [];
    } else if |s| <= 3 {
      z := SmallAccumulator(s);
      return;
    }
    var m := |s| / 2;
    var left := AccumulatorPoly(s[..m], batch, fftThresh);
    var right := AccumulatorPoly(s[m..], batch, fftThresh);
    var domSize := (|left| - 1) + (|right| - 1) + 1;
    if domSize < fftThresh {
      z := PolyMulSlow(left, right);
    } else {
      var dom := GetSubdomain(batch, domSize);
      var right';
      z, right' := PolyMulAssignFftWithDom(left, right, dom);
    }
    ProductAccumulates(s[..m], s[m..], z);
    assert s[..m] + s[m..] == s;
  }

  // ---- the scheduled variant ----

  method AccumulatorPolyScheduled(s: seq<Scalar>, batch: BatchDomain, naiveThresh: nat, fftThresh: nat)
    returns (z: seq<Scalar>)
    requires ValidBatch(batch) && |s| + 1 <= batch.N()
    requires naiveThresh >= 2 && |s| + 1 <= Pow2(TWO_ADICITY - 1)
    ensures Accumulates(z, s)
    decreases |s|
  {
    hide Accumulator, Product;
    if |s| < naiveThresh {
      z := AccumulatorPoly(s, batch, fftThresh);
      return;
    }
    var n := |s| + 1;
    var batchSize := 1;
    ghost var l := 0;
    while n != 1
      invariant n >= 1 && batchSize == Pow2(l)
      invariant batchSize * n <= |s| + 1 && (l == 0 ==> n == |s| + 1)
    {
      HalvingStep(batchSize, n, |s| + 1);
      n := n / 2;
      batchSize := 2 * batchSize;
      l := l + 1;
    }
    batchSize := batchSize - 1;
    assert l >= 1;
    var left := AccumulatorPolyScheduledInner(s[..batchSize], batch, naiveThresh, fftThresh, l);
    if batchSize == |s| {
      assert s[..batchSize] == s;
      z := left;
    } else {
      var right := AccumulatorPolyScheduled(s[batchSize..], batch, naiveThresh, fftThresh);
      z := PolyMulFft(left, right);
      ProductAccumulates(s[..batchSize], s[batchSize..], z);
      assert s[..batchSize] + s[batchSize..] == s;
    }
  }

  lemma HalvingStep(b: nat, n: nat, bound: nat)
    requires b * n <= bound
    ensures (2 * b) * (n / 2) <= bound
  {
    assert (2 * b) * (n / 2) == b * (2 * (n / 2));
    MulMonotone(2 * (n / 2), n, b);
    MulCommutes(b, n);
    MulCommutes(b, 2 * (n / 2));
  }

  method AccumulatorPolyScheduledInner(s: seq<Scalar>, batch: BatchDomain, naiveThresh: nat, fftThresh: nat, ghost l: nat)
    returns (z: seq<Scalar>)
    requires ValidBatch(batch) && |s| + 1 <= batch.N()
    requires naiveThresh >= 2 && l >= 1 && |s| + 1 == Pow2(l)
    ensures Accumulates(z, s)
    decreases |s|
  {
    hide Accumulator, Product;
    if |s| < naiveThresh {
      z := AccumulatorPoly(s, batch, fftThresh);
      return;
    }
    var len := |s|;
    assert len + 1 == 2 * Pow2(l - 1) && l >= 2;
    var b := (len + 1) / 2 - 1;
    var b1 := AccumulatorPolyScheduledInner(s[..b], batch, naiveThresh, fftThresh, l - 1);
    var b2 := AccumulatorPolyScheduledInner(s[b..2 * b], batch, naiveThresh, fftThresh, l - 1);
    var deg1 := AccumulatorPoly(s[2 * b..], batch, fftThresh);
    var b3 := PolyMulSlow(deg1, b2);
    ProductAccumulates(s[2 * b..], s[b..2 * b], b3);
    var dom := GetSubdomain(batch, len + 1);
    var b3';
    z, b3' := PolyMulAssignFftWithDom(b1, b3, dom);
    ProductAccumulates(s[..b], s[2 * b..] + s[b..2 * b], z);
    AccumulatorRotate(s, b);
  }

  lemma AccumulatorRotate(s: seq<int>, b: nat)
    requires 2 * b < |s|
    ensures Accumulator(s[..b] + (s[2 * b..] + s[b..2 * b])) == Accumulator(s)
  {
    hide Accumulator;
    ThreeParts(s, b, 2 * b);
    AccumulatorSwapTail(s[..b], s[b..2 * b], s[2 * b..]);
  }

  lemma ThreeParts(s: seq<int>, b: nat, c: nat)
    requires b <= c <= |s|
    ensures s[..b] + (s[b..c] + s[c..]) == s
  {}

  lemma AccumulatorSwap(s: seq<int>, t: seq<int>)
    ensures Accumulator(s + t) == Accumulator(t + s)
  {
    hide Accumulator, Product;
    AccumulatorAppend(s, t);
    AccumulatorAppend(t, s);
    ProductCommutes(Accumulator(s), Accumulator(t));
  }

  lemma AccumulatorSwapTail(u: seq<int>, v: seq<int>, w: seq<int>)
    ensures Accumulator(u + (w + v)) == Accumulator(u + (v + w))
  {
    hide Accumulator, Product;
    AccumulatorAppend(u, w + v);
    AccumulatorAppend(u, v + w);
    AccumulatorSwap(v, w);
  }
}
