/** The scalar field of the curve: the integers modulo a prime with a
    power-of-two root of unity.  The concrete modulus is a parameter of the whole
    development: `F` is an arbitrary field of this kind, and every theorem holds
    for all of them.

    Field elements are the canonical representatives 0 .. P-1.  Specifications are
    written over the unbounded integers and reduced once at the end, so that ring
    identities are plain integer identities. */
module ScalarField {

  function Pow(x: int, n: nat): int {
    if n == 0 then 1 else x * Pow(x, n - 1)
  }

  function Pow2(n: nat): (r: nat)
    ensures r > n
  {
    if n == 0 then 1 else 2 * Pow2(n - 1)
  }

  ghost predicate IsPrime(p: int) {
    p > 1 && forall d :: 1 < d < p ==> p % d != 0
  }

  /** `red` and `quo` are remainder and quotient by the modulus `p`; `s` is the
      two-adicity of the multiplicative group and `root` generates its subgroup
      of order 2^s. */
  datatype Field = Field(p: int, s: nat, root: int, red: int -> int, quo: int -> int) {
    ghost predicate Valid() {
      && IsPrime(p) && p > 2 && s > 0
      && (forall x {:trigger red(x)} :: 0 <= red(x) < p)
      && (forall x {:trigger quo(x)} :: x == p * quo(x) + red(x))
      && red(root) == root
      && red(Pow(root, Pow2(s - 1))) == p - 1
    }
  }

  type PrimeField = f: Field | f.Valid() witness (SmallField(); Field(3, 1, 2, x => x % 3, x => x / 3))

  lemma SmallField()
    ensures Field(3, 1, 2, x => x % 3, x => x / 3).Valid()
  {
    assert Pow(2, 1) == 2;
  }

  /** The field everything below is about. */
  const F: PrimeField

  const P: int := F.p

  /** The two-adicity of the field. */
  const TWO_ADICITY: nat := F.s

  type Scalar = x: int | 0 <= x < P witness 0

  /** The residue of an integer. */
  function Red(x: int): (r: Scalar)
    ensures 0 <= x < P ==> r == x
  {
    SmallResidue(x);
    F.red(x)
  }

  lemma SmallResidue(x: int)
    ensures 0 <= F.red(x) < P && (0 <= x < P ==> F.red(x) == x)
  {
    if 0 <= x < P { SmallMultiple(P, F.quo(x)); }
  }

  function Add(x: int, y: int): Scalar { Red(x + y) }

  function Sub(x: int, y: int): Scalar { Red(x - y) }

  function Mul(x: int, y: int): Scalar { Red(x * y) }

  function Neg(x: int): Scalar { Red(-x) }

  // ---- ring identities, one step at a time ----

  lemma MulShift(x: int, y: int, a: int, b: int, p: int, k: int, l: int)
    requires x == a + p * k && y == b + p * l
    ensures x * y == a * b + p * (k * b + l * a + p * (k * l))
  {}

  lemma MulCommutes(x: int, y: int)
    ensures x * y == y * x
  {}

  lemma MulAssoc(x: int, y: int, z: int)
    ensures x * (y * z) == (x * y) * z
  {}

  lemma MulSwap(x: int, y: int, z: int)
    ensures (x * y) * z == (x * z) * y
  {}

  lemma MulExchange(x: int, y: int, u: int, v: int)
    ensures (x * y) * (u * v) == (x * u) * (y * v)
  {}

  lemma MulDistribute(x: int, y: int, z: int)
    ensures x * (y + z) == x * y + x * z
    ensures x * (y - z) == x * y - x * z
    ensures (y + z) * x == y * x + z * x
    ensures (y - z) * x == y * x - z * x
  {}

  lemma MulMonotone(x: int, y: int, z: int)
    requires x <= y && 0 <= z
    ensures x * z <= y * z
  {}

  // ---- congruence ----

  ghost predicate Cong(x: int, y: int) {
    Red(x) == Red(y)
  }

  lemma SmallMultiple(p: int, k: int)
    requires -p < p * k < p
    ensures k == 0
  {}

  lemma SameQuotient(p: int, q: int, q': int, k: int)
    ensures p * (q' + k - q) == p * q' + p * k - p * q
  {}

  lemma {:induction false} CongIntro(x: int, y: int, k: int)
    requires x == y + P * k
    ensures Cong(x, y)
  {
    var q, q' := F.quo(x), F.quo(y);
    SameQuotient(P, q, q', k);
    SmallMultiple(P, q' + k - q);
  }

  lemma {:induction false} CongElim(x: int, y: int) returns (k: int)
    requires Cong(x, y)
    ensures x == y + P * k
  {
    k := F.quo(x) - F.quo(y);
    MulDistribute(P, F.quo(x), F.quo(y));
  }

  lemma {:induction false} CongAdd(x: int, x': int, y: int, y': int)
    requires Cong(x, x') && Cong(y, y')
    ensures Cong(x + y, x' + y')
  {
    var k := CongElim(x, x');
    var l := CongElim(y, y');
    MulDistribute(P, k, l);
    CongIntro(x + y, x' + y', k + l);
  }

  lemma {:induction false} CongSub(x: int, x': int, y: int, y': int)
    requires Cong(x, x') && Cong(y, y')
    ensures Cong(x - y, x' - y')
  {
    var k := CongElim(x, x');
    var l := CongElim(y, y');
    MulDistribute(P, k, l);
    CongIntro(x - y, x' - y', k - l);
  }

  lemma {:induction false} CongMul(x: int, x': int, y: int, y': int)
    requires Cong(x, x') && Cong(y, y')
    ensures Cong(x * y, x' * y')
  {
    var k := CongElim(x, x');
    var l := CongElim(y, y');
    MulShift(x, y, x', y', P, k, l);
    CongIntro(x * y, x' * y', k * y' + l * x' + P * (k * l));
  }

  lemma {:induction false} CongPow(x: int, y: int, n: nat)
    requires Cong(x, y)
    ensures Cong(Pow(x, n), Pow(y, n))
  {
    if n > 0 {
      CongPow(x, y, n - 1);
      CongMul(x, y, Pow(x, n - 1), Pow(y, n - 1));
    }
  }

  // ---- powers ----

  lemma {:induction false} PowAdd(x: int, m: nat, n: nat)
    ensures Pow(x, m + n) == Pow(x, m) * Pow(x, n)
  {
    if m > 0 {
      PowAdd(x, m - 1, n);
      MulAssoc(x, Pow(x, m - 1), Pow(x, n));
    }
  }

  lemma {:induction false} PowMul(x: int, m: nat, n: nat)
    ensures Pow(Pow(x, m), n) == Pow(x, m * n)
  {
    if n > 0 {
      PowMul(x, m, n - 1);
      var k: nat := m * (n - 1);
      assert m * n == m + k;
      PowAdd(x, m, k);
    }
  }

  lemma {:induction false} PowProduct(x: int, y: int, n: nat)
    ensures Pow(x * y, n) == Pow(x, n) * Pow(y, n)
  {
    if n > 0 {
      PowProduct(x, y, n - 1);
      MulExchange(x, y, Pow(x, n - 1), Pow(y, n - 1));
    }
  }

  lemma {:induction false} PowOne(n: nat)
    ensures Pow(1, n) == 1
  {
    if n > 0 { PowOne(n - 1); }
  }

  lemma {:induction false} Pow2Add(m: nat, n: nat)
    ensures Pow2(m + n) == Pow2(m) * Pow2(n)
  {
    if m > 0 {
      Pow2Add(m - 1, n);
      MulAssoc(2, Pow2(m - 1), Pow2(n));
    }
  }

  lemma {:induction false} Pow2Monotone(m: nat, n: nat)
    requires m <= n
    ensures Pow2(m) <= Pow2(n)
  {
    if m < n { Pow2Monotone(m, n - 1); }
  }

  // ---- inverses ----

  /** Every residue below the prime has an inverse, by Euclid's descent. */
  lemma {:induction false} InverseExists(x: int)
    requires 0 < x < P
    ensures exists y :: Red(x * y) == 1
    decreases x
  {
    if x == 1 {
      assert Red(1 * 1) == 1;
    } else {
      var r, q := P % x, P / x;
      assert P == x * q + r;
      InverseExists(r);
      var y :| Red(r * y) == 1;
      EuclidStep(x, q, r, P, y);
      CongIntro(x * (-q * y), r * y, -y);
      assert Red(x * (-q * y)) == 1;
    }
  }

  lemma EuclidStep(x: int, q: int, r: int, p: int, y: int)
    requires p == x * q + r
    ensures x * (-q * y) == r * y + p * (-y)
  {}

  lemma {:induction false} InverseUnique(x: int, y: int, z: int)
    requires Cong(x * y, 1) && Cong(x * z, 1)
    ensures Cong(y, z)
  {
    CongMul(x * y, 1, z, z);
    CongMul(x * z, 1, y, y);
    MulSwap(x, y, z);
  }

  /** The inverse of a non-zero scalar. */
  function Inv(x: int): (r: Scalar)
    requires Red(x) != 0
    ensures Red(x * r) == 1
  {
    InverseInRange(x);
    assert forall y: Scalar, z: Scalar :: Red(x * y) == 1 && Red(x * z) == 1 ==> y == z by {
      forall y: Scalar, z: Scalar | Red(x * y) == 1 && Red(x * z) == 1 ensures y == z {
        InverseUnique(x, y, z);
      }
    }
    var r: Scalar :| 0 <= r < P && Red(x * r) == 1;
    r
  }

  lemma {:induction false} InverseInRange(x: int)
    requires Red(x) != 0
    ensures exists r: Scalar :: Red(x * r) == 1
  {
    InverseExists(Red(x));
    var y :| Red(Red(x) * y) == 1;
    CongMul(Red(x), x, y, Red(y));
    assert Red(x * Red(y)) == 1;
  }

  lemma NoZeroDivisors(x: int, y: int)
    requires Cong(x * y, 0) && !Cong(x, 0)
    ensures Cong(y, 0)
  {
    var z := Inv(x);
    CongMul(x * z, 1, y, y);
    CongMul(x * y, 0, z, z);
    MulSwap(x, y, z);
  }

  lemma CancelLeft(x: int, y: int, z: int)
    requires Cong(x * y, x * z) && !Cong(x, 0)
    ensures Cong(y, z)
  {
    CongSub(x * y, x * z, x * z, x * z);
    MulDistribute(x, y, z);
    NoZeroDivisors(x, y - z);
    CongAdd(y - z, 0, z, z);
  }

  /** Division in the field is the only solution of the linear equation. */
  lemma InvSolves(x: int, y: int, z: int)
    requires Red(x) != 0 && Cong(x * y, z)
    ensures Cong(y, z * Inv(x))
  {
    CongMul(x * Inv(x), 1, z, z);
    MulAssoc(x, z, Inv(x));
    MulSwap(x, z, Inv(x));
    CancelLeft(x, y, z * Inv(x));
  }

  lemma TwoNonZero()
    ensures !Cong(2, 0) && !Cong(-1, 1)
  {
    if Cong(-1, 1) {
      CongAdd(-1, 1, 1, 1);
    }
  }

  lemma {:induction false} Pow2NonZero(n: nat)
    ensures !Cong(Pow2(n), 0)
  {
    TwoNonZero();
    if n > 0 {
      Pow2NonZero(n - 1);
      if Cong(2 * Pow2(n - 1), 0) { NoZeroDivisors(2, Pow2(n - 1)); }
    }
  }
}
