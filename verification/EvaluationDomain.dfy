/** FFT evaluation domains: powers of two and roots of unity. */
module EvaluationDomain {
  import opened ScalarField
  import opened PolynomialAlgebra

  /** A domain for n evaluations: N is a power of two with n <= N, `omega` a
      primitive N-th root of unity. */
  datatype Domain = Domain(n: nat, N: nat, logN: nat, omega: Scalar, omegaInverse: Scalar, nInverse: Scalar)

  /** All N-th roots of unity and the inverses of 1, 2, 4, .., N. */
  datatype BatchDomain = BatchDomain(logN: nat, omegas: seq<Scalar>, nInverses: seq<Scalar>) {
    function N(): nat { |omegas| }
  }

  datatype DomainResult = Ok(domain: Domain) | WrongLength

  // ---- roots of unity ----

  ghost predicate PrimitiveRoot(w: int, l: nat) {
    if l == 0 then Cong(w, 1) else Cong(Pow(w, Pow2(l - 1)), -1)
  }

  lemma {:induction false} RootOrder(w: int, l: nat)
    requires PrimitiveRoot(w, l)
    ensures Cong(Pow(w, Pow2(l)), 1)
  {
    if l == 0 {
      assert Pow(w, 1) == w;
    } else {
      var h := Pow(w, Pow2(l - 1));
      PowAdd(w, Pow2(l - 1), Pow2(l - 1));
      CongMul(h, -1, h, -1);
    }
  }

  lemma {:induction false} RootSquare(w: int, v: int, l: nat)
    requires PrimitiveRoot(w, l + 1) && Cong(v, w * w)
    ensures PrimitiveRoot(v, l)
  {
    assert Pow(w, 2) == w * Pow(w, 1) == w * w;
    if l == 0 {
      RootOrder(w, 1);
    } else {
      CongPow(v, w * w, Pow2(l - 1));
      PowMul(w, 2, Pow2(l - 1));
    }
  }

  lemma {:induction false} OddPowerOfMinusOne(d: nat)
    ensures Pow(-1, 2 * d + 1) == -1
  {
    if d > 0 {
      OddPowerOfMinusOne(d - 1);
      assert Pow(-1, 2 * d + 1) == -1 * (-1 * Pow(-1, 2 * d - 1));
    }
  }

  lemma PowSwap(w: int, m: nat, n: nat)
    ensures Pow(Pow(w, m), n) == Pow(Pow(w, n), m)
  {
    PowMul(w, m, n);
    PowMul(w, n, m);
    assert m * n == n * m;
  }

  lemma OddPowerNotOne(w: int, l: nat, e: nat)
    requires PrimitiveRoot(w, l) && l > 0
    ensures !Cong(Pow(w, 2 * e + 1), 1)
  {
    if Cong(Pow(w, 2 * e + 1), 1) {
      var h := Pow2(l - 1);
      CongPow(Pow(w, 2 * e + 1), 1, h);
      PowOne(h);
      PowSwap(w, 2 * e + 1, h);
      CongPow(Pow(w, h), -1, 2 * e + 1);
      OddPowerOfMinusOne(e);
      TwoNonZero();
    }
  }

  /** The powers below the order are not 1. */
  lemma {:induction false} RootNotOne(w: int, l: nat, d: nat)
    requires PrimitiveRoot(w, l) && 0 < d < Pow2(l)
    ensures !Cong(Pow(w, d), 1)
    decreases l
  {
    var e := d / 2;
    assert l > 0;
    if d == 2 * e {
      PowMul(w, 2, e);
      assert Pow(w, 2) == w * Pow(w, 1) == w * w;
      RootSquare(w, w * w, l - 1);
      RootNotOne(w * w, l - 1, e);
    } else {
      OddPowerNotOne(w, l, e);
    }
  }

  lemma RootNonZero(w: int, l: nat)
    requires PrimitiveRoot(w, l)
    ensures !Cong(w, 0)
  {
    RootOrder(w, l);
    if Cong(w, 0) {
      CongMul(w, 0, Pow(w, Pow2(l) - 1), Pow(w, Pow2(l) - 1));
    }
  }

  lemma PowNonZero(w: int, l: nat, d: nat)
    requires PrimitiveRoot(w, l)
    ensures !Cong(Pow(w, d), 0)
  {
    RootNonZero(w, l);
    if d > 0 {
      PowNonZero(w, l, d - 1);
      if Cong(w * Pow(w, d - 1), 0) { NoZeroDivisors(w, Pow(w, d - 1)); }
    } else {
      assert Red(1) == 1;
    }
  }

  lemma RootsDiffer(w: int, l: nat, i: nat, j: nat)
    requires PrimitiveRoot(w, l) && i < j < Pow2(l)
    ensures !Cong(Pow(w, i), Pow(w, j))
  {
    if Cong(Pow(w, i), Pow(w, j)) {
      PowAdd(w, i, j - i);
      PowNonZero(w, l, i);
      assert Pow(w, i) * 1 == Pow(w, i);
      CancelLeft(Pow(w, i), Pow(w, j - i), 1);
      RootNotOne(w, l, j - i);
    }
  }

  lemma InverseRoot(w: int, v: int, l: nat)
    requires PrimitiveRoot(w, l) && Cong(w * v, 1)
    ensures PrimitiveRoot(v, l)
  {
    if l == 0 {
      CongMul(w, 1, v, v);
    } else {
      var h := Pow2(l - 1);
      PowProduct(w, v, h);
      CongPow(w * v, 1, h);
      PowOne(h);
      CongMul(Pow(w, h), -1, Pow(v, h), Pow(v, h));
      CongSub(0, 0, -Pow(v, h), 1);
    }
  }

  /** The first n powers of w. */
  function Powers(w: int, n: nat): (r: seq<Scalar>)
    ensures |r| == n && forall i :: 0 <= i < n ==> r[i] == Red(Pow(w, i))
  {
    seq(n, i requires 0 <= i < n => Red(Pow(w, i)))
  }

  lemma PowersDistinct(w: int, l: nat, n: nat)
    requires PrimitiveRoot(w, l) && n <= Pow2(l)
    ensures Distinct(Powers(w, n))
  {
    var r := Powers(w, n);
    forall i, j | 0 <= i < j < n ensures !Cong(r[i], r[j]) {
      RootsDiffer(w, l, i, j);
    }
  }

  // ---- the smallest power of two ----

  /** l is the smallest exponent with n <= 2^l. */
  ghost predicate IsLogCeil(n: nat, l: nat) {
    n <= Pow2(l) && (l == 0 || Pow2(l - 1) < n)
  }

  lemma LogCeilUnique(n: nat, l: nat, m: nat)
    requires IsLogCeil(n, l) && IsLogCeil(n, m)
    ensures l == m
  {
    if l < m { Pow2Monotone(l, m - 1); }
    if m < l { Pow2Monotone(m, l - 1); }
  }

  lemma LogCeilBelow(n: nat, l: nat, m: nat)
    requires IsLogCeil(n, l) && n <= Pow2(m)
    ensures l <= m
  {
    if m < l { Pow2Monotone(m, l - 1); }
  }

  method SmallestPowerOf2GreaterOrEqThan(n: nat) returns (N: nat, logN: nat)
    ensures N == Pow2(logN) && IsLogCeil(n, logN)
  {
    N, logN := 1, 0;
    while N < n
      invariant N == Pow2(logN) && (logN == 0 || Pow2(logN - 1) < n)
      decreases n - N
    {
      N := 2 * N;
      logN := logN + 1;
    }
  }

  // ---- the roots the field provides ----

  /** The root of unity of order 2^l, by repeated squaring of the field's own. */
  function NthRoot(l: nat): Scalar
    decreases TWO_ADICITY - l
  {
    if l >= TWO_ADICITY then Red(F.root) else Mul(NthRoot(l + 1), NthRoot(l + 1))
  }

  lemma {:induction false} NthRootPrimitive(l: nat)
    requires l <= TWO_ADICITY
    ensures PrimitiveRoot(NthRoot(l), l)
    decreases TWO_ADICITY - l
  {
    if l == TWO_ADICITY {
      assert F.red(F.root) == F.root == Red(F.root);
      assert Cong(P - 1, -1) by { CongIntro(P - 1, -1, 1); }
    } else {
      NthRootPrimitive(l + 1);
      RootSquare(NthRoot(l + 1), NthRoot(l), l);
    }
  }

  lemma {:induction false} NthRootPower(l: nat, m: nat)
    requires m <= l <= TWO_ADICITY
    ensures NthRoot(m) == Red(Pow(NthRoot(l), Pow2(l - m)))
    decreases l - m
  {
    if m == l {
      assert Pow(NthRoot(l), 1) == NthRoot(l);
    } else {
      NthRootPower(l, m + 1);
      var p := Pow(NthRoot(l), Pow2(l - m - 1));
      CongMul(NthRoot(m + 1), p, NthRoot(m + 1), p);
      PowAdd(NthRoot(l), Pow2(l - m - 1), Pow2(l - m - 1));
    }
  }

  method GetNthRootOfUnity(logN: nat) returns (omega: Scalar)
    requires logN <= TWO_ADICITY
    ensures omega == NthRoot(logN)
    ensures PrimitiveRoot(omega, logN)
  {
    omega := Red(F.root);
    var i := TWO_ADICITY;
    while i > logN
      invariant logN <= i <= TWO_ADICITY && omega == NthRoot(i)
    {
      omega := Mul(omega, omega);
      i := i - 1;
    }
    NthRootPrimitive(logN);
  }

  // ---- domains ----

  ghost predicate ValidDomain(d: Domain) {
    && d.N == Pow2(d.logN) && d.n <= d.N
    && PrimitiveRoot(d.omega, d.logN)
    && Cong(d.omega * d.omegaInverse, 1)
    && Cong(d.N * d.nInverse, 1)
  }

  /** The domain for n evaluations whose size is 2^l. */
  ghost function DomainOf(n: nat, l: nat): Domain
    requires l <= TWO_ADICITY
  {
    NthRootPrimitive(l);
    RootNonZero(NthRoot(l), l);
    Pow2NonZero(l);
    Domain(n, Pow2(l), l, NthRoot(l), Inv(NthRoot(l)), Inv(Pow2(l)))
  }

  lemma DomainOfValid(n: nat, l: nat)
    requires l <= TWO_ADICITY && n <= Pow2(l)
    ensures ValidDomain(DomainOf(n, l))
  {
    NthRootPrimitive(l);
  }

  method NewDomain(n: nat) returns (r: DomainResult)
    ensures match r
            case Ok(d) => d.logN < TWO_ADICITY && IsLogCeil(n, d.logN) && d == DomainOf(n, d.logN) && ValidDomain(d)
            case WrongLength => n > Pow2(TWO_ADICITY - 1)
  {
    var N, logN := SmallestPowerOf2GreaterOrEqThan(n);
    if logN >= TWO_ADICITY {
      Pow2Monotone(TWO_ADICITY - 1, logN - 1);
      return WrongLength;
    }
    var omega := GetNthRootOfUnity(logN);
    RootNonZero(omega, logN);
    Pow2NonZero(logN);
    hide Pow2, NthRoot, PrimitiveRoot, ValidDomain, DomainOf;
    r := Ok(Domain(n, N, logN, omega, Inv(omega), Inv(N)));
    SubdomainIsDomainOf(r.domain);
  }

  /** The batch of all domains of size up to 2^l. */
  ghost predicate ValidBatch(b: BatchDomain) {
    && b.logN <= TWO_ADICITY
    && b.omegas == Powers(NthRoot(b.logN), Pow2(b.logN))
    && |b.nInverses| == b.logN + 1
    && forall i :: 0 <= i <= b.logN ==> InvertsPow2(i, b.nInverses[i])
  }

  ghost predicate InvertsPow2(i: nat, x: Scalar) {
    Cong(Pow2(i) * x, 1)
  }

  method InversePowers(n: nat) returns (inverses: seq<Scalar>)
    ensures |inverses| == n
    ensures forall j :: 0 <= j < n ==> InvertsPow2(j, inverses[j])
  {
    inverses := [];
    var i := 1;
    for k := 0 to n
      invariant i == Pow2(k) && |inverses| == k
      invariant forall j :: 0 <= j < k ==> InvertsPow2(j, inverses[j])
    {
      Pow2NonZero(k);
      assert Red(1) == 1;
      inverses := inverses + [Inv(i)];
      i := 2 * i;
    }
  }

  lemma NextPower(w: int, i: nat, acc: int)
    requires Cong(acc, Pow(w, i))
    ensures Mul(acc, w) == Red(Pow(w, i + 1))
  {
    CongMul(acc, Pow(w, i), w, w);
    MulCommutes(Pow(w, i), w);
  }

  lemma FirstPowers(w: Scalar)
    ensures [Red(1)] == Powers(w, 1) && w == Red(Pow(w, 1))
  {
    assert Pow(w, 0) == 1 && Pow(w, 1) == w;
  }

  method AllRoots(omega: Scalar, N: nat) returns (omegas: seq<Scalar>)
    requires N > 0
    ensures omegas == Powers(omega, N)
  {
    hide Pow, Mul;
    FirstPowers(omega);
    omegas := [Red(1)];
    var acc := omega;
    for i := 1 to N
      invariant omegas == Powers(omega, i) && acc == Red(Pow(omega, i))
    {
      NextPower(omega, i, acc);
      omegas := omegas + [acc];
      acc := Mul(acc, omega);
    }
  }

  method NewBatchDomain(n: nat) returns (b: BatchDomain)
    requires n <= Pow2(TWO_ADICITY)
    ensures ValidBatch(b) && IsLogCeil(n, b.logN)
  {
    var N, logN := SmallestPowerOf2GreaterOrEqThan(n);
    LogCeilBelow(n, logN, TWO_ADICITY);
    var omega := GetNthRootOfUnity(logN);
    var omegas := AllRoots(omega, N);
    var nInverses := InversePowers(logN + 1);
    b := BatchDomain(logN, omegas, nInverses);
  }

  /** Looking a subdomain up in the batch gives the very domain `NewDomain` would
      compute from scratch. */
  method GetSubdomain(b: BatchDomain, k: nat) returns (d: Domain)
    requires ValidBatch(b) && 1 <= k <= b.N()
    ensures d.logN <= b.logN && IsLogCeil(k, d.logN)
    ensures d == DomainOf(k, d.logN) && ValidDomain(d)
  {
    var K, logK := SmallestPowerOf2GreaterOrEqThan(k);
    LogCeilBelow(k, logK, b.logN);
    var idx := 1;
    for i := logK to b.logN
      invariant idx == Pow2(i - logK)
    {
      idx := 2 * idx;
    }
    d := PickSubdomain(b, k, K, logK, idx);
  }

  /** The entries of the batch that make up the subdomain of size 2^logK. */
  method PickSubdomain(b: BatchDomain, k: nat, K: nat, logK: nat, idx: nat) returns (d: Domain)
    requires ValidBatch(b) && k <= K == Pow2(logK) && logK <= b.logN && idx == Pow2(b.logN - logK)
    ensures d.logN == logK && d == DomainOf(k, logK) && ValidDomain(d)
  {
    hide Pow, NthRoot, Pow2, ValidDomain, DomainOf, IsLogCeil;
    SubdomainEntries(b, logK, idx);
    var N := |b.omegas|;
    d := Domain(k, K, logK, b.omegas[Wrapped(idx, N)], b.omegas[Wrapped(N - idx, N)], b.nInverses[logK]);
    hide ValidBatch;
    SubdomainIsDomainOf(d);
  }

  /** An index on the circle of n roots. */
  function Wrapped(i: nat, n: nat): (r: nat)
    requires n > 0
    ensures r < n && (i <= n ==> r == if i == n then 0 else i)
  {
    i % n
  }

  /** A root, its inverse and the inverse of the size, as they are looked up. */
  lemma SubdomainEntries(b: BatchDomain, m: nat, idx: nat)
    requires ValidBatch(b) && m <= b.logN && idx == Pow2(b.logN - m)
    ensures 0 < |b.omegas| && idx <= |b.omegas| && b.omegas[Wrapped(idx, |b.omegas|)] == NthRoot(m)
    ensures Cong(NthRoot(m) * b.omegas[Wrapped(|b.omegas| - idx, |b.omegas|)], 1)
    ensures m < |b.nInverses| && Cong(Pow2(m) * b.nInverses[m], 1)
  {
    assert InvertsPow2(m, b.nInverses[m]);
    hide Pow, NthRoot, Pow2, Wrapped;
    SubdomainRoot(b, m);
    SubdomainRootInverse(b, m);
  }

  lemma SubdomainIsDomainOf(d: Domain)
    requires d.logN <= TWO_ADICITY && d.n <= d.N == Pow2(d.logN) && d.omega == NthRoot(d.logN)
    requires Cong(d.omega * d.omegaInverse, 1) && Cong(d.N * d.nInverse, 1)
    ensures d == DomainOf(d.n, d.logN) && ValidDomain(d)
  {
    var e := DomainOf(d.n, d.logN);
    DomainOfValid(d.n, d.logN);
    InverseUnique(d.omega, d.omegaInverse, e.omegaInverse);
    InverseUnique(d.N, d.nInverse, e.nInverse);
  }

  /** The entries `GetSubdomain` picks, with the wrap-around of the full circle. */
  lemma SubdomainRoot(b: BatchDomain, m: nat)
    requires ValidBatch(b) && m <= b.logN
    ensures var N, idx := b.N(), Pow2(b.logN - m);
            idx <= N && b.omegas[if idx == N then 0 else idx] == NthRoot(m)
  {
    Pow2Monotone(b.logN - m, b.logN);
    if m == 0 {
      assert Red(Pow(NthRoot(b.logN), 0)) == 1;
      NthRootPrimitive(0);
    } else {
      IndexSmall(b.logN, m);
      NthRootPower(b.logN, m);
    }
  }

  lemma RootAndInverse(l: nat, m: nat)
    requires m <= l <= TWO_ADICITY
    ensures Pow2(l - m) <= Pow2(l)
    ensures Cong(NthRoot(m) * Red(Pow(NthRoot(l), Pow2(l) - Pow2(l - m))), 1)
  {
    var w, N, idx := NthRoot(l), Pow2(l), Pow2(l - m);
    Pow2Monotone(l - m, l);
    NthRootPrimitive(l);
    RootOrder(w, l);
    NthRootPower(l, m);
    PowAdd(w, idx, N - idx);
    CongMul(NthRoot(m), Pow(w, idx), Red(Pow(w, N - idx)), Pow(w, N - idx));
  }

  lemma SubdomainRootInverse(b: BatchDomain, m: nat)
    requires ValidBatch(b) && m <= b.logN
    ensures var N, idx := b.N(), Pow2(b.logN - m);
            idx <= N && Cong(NthRoot(m) * b.omegas[N - idx], 1)
  {
    hide Pow, NthRoot;
    RootAndInverse(b.logN, m);
  }

  lemma IndexSmall(l: nat, m: nat)
    requires 0 < m <= l
    ensures Pow2(l - m) < Pow2(l)
  {
    Pow2Monotone(l - m, l - 1);
  }
}
