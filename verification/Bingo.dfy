/** Bingo (bingo/dealer.rs, bingo/receivers.rs, bivariate_polynomial.rs): the dealer
    commits to the rows of a bivariate polynomial, the players exchange openings,
    and columns of openings complete the rows. */
module Bingo {
  import opened Options
  import opened ScalarField
  import opened PolynomialAlgebra
  import opened Interpolation
  import opened EvaluationDomain
  import opened Lagrange
  import opened Group
  import opened Kzg
  import opened Scheme
  import opened PowerSums

  // ---- the bivariate polynomial ----

  /** fields[k] is the coefficient of X^k, a polynomial in Y of degree ty. */
  ghost predicate Bivariate(fields: seq<seq<Scalar>>, ty: nat) {
    |fields| > 0 && forall k :: 0 <= k < |fields| ==> |fields[k]| == ty + 1
  }

  /** The row at y, a polynomial in X. */
  function RowAt(fields: seq<seq<Scalar>>, y: int): (r: seq<Scalar>)
    ensures |r| == |fields| && forall k :: 0 <= k < |r| ==> r[k] == Red(Eval(fields[k], y))
  {
    seq(|fields|, k requires 0 <= k < |fields| => Red(Eval(fields[k], y)))
  }

  /** The column at x, a polynomial in Y. */
  ghost function ColumnAt(fields: seq<seq<int>>, x: int): seq<int> {
    if |fields| == 0 then [] else AddSeq(fields[0], Scale(x, ColumnAt(fields[1..], x)))
  }

  lemma {:induction false} ColumnDegree(fields: seq<seq<int>>, x: int, d: nat)
    requires forall k :: 0 <= k < |fields| ==> |fields[k]| <= d
    ensures |ColumnAt(fields, x)| <= d
  {
    if |fields| > 0 { ColumnDegree(fields[1..], x, d); }
  }

  /** The row at y and the column at x meet: both are the polynomial at (x, y). */
  lemma {:induction false} RowMeetsColumn(fields: seq<seq<Scalar>>, x: int, y: int)
    ensures Cong(Eval(RowAt(fields, y), x), Eval(ColumnAt(fields, x), y))
  {
    if |fields| > 0 {
      var rest := fields[1..];
      RowMeetsColumn(rest, x, y);
      assert RowAt(fields, y)[1..] == RowAt(rest, y);
      var e, r, c := Eval(fields[0], y), Eval(RowAt(rest, y), x), Eval(ColumnAt(rest, x), y);
      assert Eval(RowAt(fields, y), x) == Red(e) + x * r;
      EvalAdd(fields[0], Scale(x, ColumnAt(rest, x)), y);
      EvalScale(x, ColumnAt(rest, x), y);
      hide Eval;
      CongMul(x, x, r, c);
      CongAdd(Red(e), e, x * r, x * c);
    }
  }

  /** `compute_powers`. */
  method ComputePowers(base: Scalar, degree: nat) returns (powers: seq<Scalar>)
    ensures powers == Powers(base, degree + 1)
  {
    hide Pow, Mul;
    powers := seq(degree + 1, i => 1);
    FirstPowers(base);
    assert Powers(base, 1)[0] == 1;
    for i := 1 to degree + 1
      invariant |powers| == degree + 1
      invariant forall k :: 0 <= k < i ==> powers[k] == Red(Pow(base, k))
    {
      NextPower(base, i - 1, powers[i - 1]);
      powers := powers[i := Mul(powers[i - 1], base)];
    }
  }

  /** `evaluate_on_y`. */
  method EvaluateOnY(fields: seq<seq<Scalar>>, ghost ty: nat, y: Scalar) returns (row: seq<Scalar>)
    requires Bivariate(fields, ty)
    ensures row == RowAt(fields, y)
  {
    hide Eval, Pow, DotTo;
    var powers := ComputePowers(y, |fields[0]| - 1);
    row := [];
    for k := 0 to |fields|
      invariant |row| == k && forall j :: 0 <= j < k ==> row[j] == Red(Eval(fields[j], y))
    {
      var value := InnerProduct(fields[k], powers);
      PowersDotEval(y, fields[k], ty + 1);
      row := row + [value];
    }
  }

  // ---- the dealer ----

  /** Player m gets row m, the one at the root w^(m+1), and its commitment. */
  ghost predicate RowCommitments(batch: BatchDomain, s: Setup, fields: seq<seq<Scalar>>, comm: seq<G1>) {
    && |comm| < |batch.omegas|
    && forall m :: 0 <= m < |comm| ==> comm[m] == EvalPolyAtTau(s.powersOfTau, RowAt(fields, batch.omegas[m + 1]))
  }

  /** `deal`. */
  method Deal(batch: BatchDomain, n: nat, s: Setup, fields: seq<seq<Scalar>>, ghost ty: nat)
    returns (comm: seq<G1>, lines: seq<seq<Scalar>>)
    requires n < |batch.omegas| && Bivariate(fields, ty) && |fields| <= |s.powersOfTau|
    ensures |comm| == |lines| == n && RowCommitments(batch, s, fields, comm)
    ensures forall m :: 0 <= m < n ==> lines[m] == RowAt(fields, batch.omegas[m + 1])
  {
    hide RowAt, EvalPolyAtTau, Bivariate;
    comm, lines := [], [];
    for i := 1 to n + 1
      invariant |comm| == |lines| == i - 1
      invariant forall m :: 0 <= m < i - 1 ==> lines[m] == RowAt(fields, batch.omegas[m + 1])
      invariant forall m :: 0 <= m < i - 1 ==> comm[m] == EvalPolyAtTau(s.powersOfTau, RowAt(fields, batch.omegas[m + 1]))
    {
      var ax := EvaluateOnY(fields, ty, batch.omegas[i]);
      assert |ax| == |fields|;
      var c := Commit(s, ax);
      comm, lines := comm + [c.c], lines + [ax];
    }
  }

  /** A row commitment is a value of the column at tau. */
  lemma RowCommitmentValue(s: Setup, tau: Scalar, fields: seq<seq<Scalar>>, y: Scalar)
    requires ValidSetup(s, tau) && |fields| <= |s.powersOfTau|
    ensures EvalPolyAtTau(s.powersOfTau, RowAt(fields, y)) == Red(Eval(Scale(s.g1, ColumnAt(fields, tau)), y))
  {
    hide Eval, EvalPolyAtTau;
    CommitmentValue(s, tau, RowAt(fields, y));
    RowMeetsColumn(fields, tau, y);
    EvalScale(s.g1, ColumnAt(fields, tau), y);
    CongMul(s.g1, s.g1, Eval(RowAt(fields, y), tau), Eval(ColumnAt(fields, tau), y));
  }

  // ---- a player opens its row to the others ----

  /** What `verify_my_line` does with the row it received: the commitment call may
      abort on a row that is too long, the row may not match, or one opening goes
      to every player. */
  datatype LineOutcome = Aborted | Mismatch | Sent(messages: seq<KzgShare>, own: seq<KzgShare>)

  /** For one commitment, point and proof at most one value verifies. */
  lemma OneValuePerProof(s: Setup, tau: Scalar, c: G1, x: Scalar, v: Scalar, v': Scalar, w: G1)
    requires ValidSetup(s, tau) && Verify(s, c, x, v, w) && Verify(s, c, x, v', w)
    ensures v == v'
  {
    hide Verify;
    VerifyEquation(s, tau, c, x, v, w);
    VerifyEquation(s, tau, c, x, v', w);
    var g: int, a: int, b: int, r := s.g1, v, v', w * (tau - x);
    CongSub(c, c, c - g * a, r);
    CongSub(c, c, c - g * b, r);
    CancelLeft(g, a, b);
  }

  lemma AddOneDiffers(v: Scalar)
    ensures Add(v, 1) != v
  {
    if Add(v, 1) == v { CongSub(v + 1, v, v, v); }
  }

  method OpenTo(s: Setup, ghost tau: Scalar, line: seq<Scalar>, index: nat, value: Scalar, x: Scalar, isByz: bool)
    returns (share: KzgShare)
    requires ValidSetup(s, tau) && |line| <= |s.powersOfTau| && value == Red(Eval(line, x))
    ensures share.index == index && share.value == if isByz then Add(value, 1) else value
    ensures Verify(s, EvalPolyAtTau(s.powersOfTau, line), x, share.value, share.proof) <==> !isByz
  {
    hide Eval, Verify, EvalPolyAtTau, OpeningAt, Add;
    var w, q := Open(s, line, value, x);
    assert OpeningAt(line, q, value, x, tau);
    OpeningVerifies(s, tau, line, value, x, q);
    share := KzgShare(index, value, w);
    if isByz {
      share := share.(value := Add(value, 1));
      AddOneDiffers(value);
      if Verify(s, EvalPolyAtTau(s.powersOfTau, line), x, share.value, w) {
        OneValuePerProof(s, tau, EvalPolyAtTau(s.powersOfTau, line), x, value, share.value, w);
      }
    }
  }

  /** The opening player `index` makes for player i. */
  ghost predicate OpenedTo(batch: BatchDomain, s: Setup, comm: G1, line: seq<Scalar>, index: nat, isByz: bool, i: nat,
                           message: KzgShare, own: KzgShare)
  {
    i < |batch.omegas| && OpenedAt(s, comm, Red(Eval(line, batch.omegas[i])), batch.omegas[i], index, isByz, i, message, own)
  }

  ghost predicate OpenedAt(s: Setup, comm: G1, v: Scalar, x: Scalar, index: nat, isByz: bool, i: nat,
                           message: KzgShare, own: KzgShare)
  {
    && message.index == index && message.value == (if isByz then Add(v, 1) else v)
    && (Verify(s, comm, x, message.value, message.proof) <==> !isByz)
    && own == message.(index := i)
  }

  ghost predicate Filled(batch: BatchDomain, s: Setup, comm: G1, line: seq<Scalar>, index: nat, isByz: bool, i: nat,
                         message: Option<KzgShare>, own: Option<KzgShare>)
  {
    message.Some? && own.Some? && OpenedTo(batch, s, comm, line, index, isByz, i, message.value, own.value)
  }

  /** The player served at step j; players with an even index go backwards. */
  function Served(index: nat, n: nat, j: nat): (i: nat)
    requires j < n
    ensures i < n
  {
    if index % 2 == 0 then n - j - 1 else j
  }

  /** The serving loop: `evaluations` is in serving order. */
  method ServeAll(batch: BatchDomain, n: nat, s: Setup, ghost tau: Scalar, line: seq<Scalar>, index: nat, isByz: bool,
                  evaluations: seq<Scalar>) returns (messages: seq<Option<KzgShare>>, own: seq<Option<KzgShare>>)
    requires ValidSetup(s, tau) && |line| <= |s.powersOfTau| && |evaluations| == n <= |batch.omegas|
    requires forall j :: 0 <= j < n ==> evaluations[j] == Red(Eval(line, batch.omegas[Served(index, n, j)]))
    ensures |messages| == |own| == n
    ensures forall i :: 0 <= i < n ==> messages[i].Some? && own[i].Some?
    ensures forall i :: 0 <= i < n ==>
      Filled(batch, s, EvalPolyAtTau(s.powersOfTau, line), line, index, isByz, i, messages[i], own[i])
  {
    hide Eval, EvalPolyAtTau, Verify, ValidSetup, Add;
    ghost var comm := EvalPolyAtTau(s.powersOfTau, line);
    messages, own := seq(n, i => None), seq(n, i => None);
    for j := 0 to n
      invariant |messages| == |own| == n
      invariant forall i: nat :: i < n && Served(index, n, i) < j ==>
        Filled(batch, s, comm, line, index, isByz, i, messages[i], own[i])
    {
      hide OpenedTo;
      var i := Served(index, n, j);
      var share := OpenTo(s, tau, line, index, evaluations[j], batch.omegas[i], isByz);
      Opened(batch, s, comm, line, index, isByz, i, share);
      messages, own := messages[i := Some(share)], own[i := Some(share.(index := i))];
    }
  }

  lemma Opened(batch: BatchDomain, s: Setup, comm: G1, line: seq<Scalar>, index: nat, isByz: bool, i: nat, share: KzgShare)
    requires i < |batch.omegas| && share.index == index
    requires share.value == if isByz then Add(Red(Eval(line, batch.omegas[i])), 1) else Red(Eval(line, batch.omegas[i]))
    requires Verify(s, comm, batch.omegas[i], share.value, share.proof) <==> !isByz
    ensures OpenedTo(batch, s, comm, line, index, isByz, i, share, share.(index := i))
  {
    hide Eval, Verify, Add;
  }

  /** `verify_my_line`: every player i is served the value of the row at w^i. */
  method VerifyMyLine(c: Configuration, s: Setup, ghost tau: Scalar, comm: seq<G1>, index: nat, isByz: bool,
                      line: seq<Scalar>) returns (r: LineOutcome)
    requires ValidConfiguration(c) && ValidSetup(s, tau) && |s.powersOfTau| <= c.dom.N && index < |comm|
    ensures r.Aborted? <==> |line| > |s.powersOfTau|
    ensures r.Sent? <==> |line| <= |s.powersOfTau| && comm[index] == EvalPolyAtTau(s.powersOfTau, line)
    ensures r.Sent? ==> |r.messages| == |r.own| == c.n && forall i :: 0 <= i < c.n ==>
      OpenedTo(c.batch, s, comm[index], line, index, isByz, i, r.messages[i], r.own[i])
  {
    assert c.n <= |c.batch.omegas|;
    var committed := Commit(s, line);
    hide Eval, EvalPolyAtTau, ValidConfiguration, ValidSetup, OpenedTo;
    if committed.DegreeTooLarge? {
      return Aborted;
    }
    if comm[index] != committed.c {
      return Mismatch;
    }
    var evaluations := EvaluateAtRoots(c, line);
    var ordered := ServingOrder(index, evaluations);
    hide PlayerValues, ServingOrder;
    PlayerValueAt(c, line);
    var messages, own := ServeAll(c.batch, c.n, s, tau, line, index, isByz, ordered);
    hide Filled;
    r := Sent(Contents(messages), Contents(own));
    forall i | 0 <= i < c.n ensures OpenedTo(c.batch, s, comm[index], line, index, isByz, i, r.messages[i], r.own[i]) {
      FilledContents(c.batch, s, comm[index], line, index, isByz, i, messages[i], own[i]);
    }
  }

  lemma PlayerValueAt(c: Configuration, line: seq<Scalar>)
    requires c.n <= |c.batch.omegas|
    ensures forall i :: 0 <= i < c.n ==> PlayerValues(c, line)[i] == Red(Eval(line, c.batch.omegas[i]))
  {
    hide Eval;
  }

  lemma FilledContents(batch: BatchDomain, s: Setup, comm: G1, line: seq<Scalar>, index: nat, isByz: bool, i: nat,
                       message: Option<KzgShare>, own: Option<KzgShare>)
    requires Filled(batch, s, comm, line, index, isByz, i, message, own)
    ensures message.Some? && own.Some? && OpenedTo(batch, s, comm, line, index, isByz, i, message.value, own.value)
  {
    hide OpenedTo;
  }

  /** The evaluations as they are served: reversed for an even index. */
  function ServingOrder(index: nat, evaluations: seq<Scalar>): (r: seq<Scalar>)
    ensures |r| == |evaluations|
    ensures forall j :: 0 <= j < |r| ==> r[j] == evaluations[Served(index, |evaluations|, j)]
  {
    var n := |evaluations|;
    if index % 2 == 0 then seq(n, j requires 0 <= j < n => evaluations[n - j - 1]) else evaluations
  }

  function Contents(s: seq<Option<KzgShare>>): (r: seq<KzgShare>)
    requires forall i :: 0 <= i < |s| ==> s[i].Some?
    ensures |r| == |s| && forall i :: 0 <= i < |r| ==> r[i] == s[i].value
  {
    seq(|s|, i requires 0 <= i < |s| => s[i].value)
  }

  // ---- columns complete rows ----

  /** `col_manager` at player i accepts a share of sender j when it opens row j at w^i. */
  predicate Accepted(s: Setup, comm: seq<G1>, x: Scalar, share: KzgShare) {
    share.index < |comm| && Verify(s, comm[share.index], x, share.value, share.proof)
  }

  /** The same share under the index of its root: row j lies at w^(j+1). */
  function Shift(shares: seq<KzgShare>): (r: seq<KzgShare>)
    ensures |r| == |shares| && forall k :: 0 <= k < |r| ==> r[k] == shares[k].(index := shares[k].index + 1)
  {
    seq(|shares|, k requires 0 <= k < |shares| => shares[k].(index := shares[k].index + 1))
  }

  function Pick(comm: seq<G1>, shares: seq<KzgShare>): (r: seq<Scalar>)
    requires forall k :: 0 <= k < |shares| ==> shares[k].index < |comm|
    ensures |r| == |shares| && forall k :: 0 <= k < |r| ==> r[k] == comm[shares[k].index]
  {
    seq(|shares|, k requires 0 <= k < |shares| => comm[shares[k].index])
  }

  /** Commitment m is the combination of the commitments of the senders. */
  lemma CombinedCommitment(batch: BatchDomain, s: Setup, tau: Scalar, fields: seq<seq<Scalar>>, ty: nat, comm: seq<G1>,
                           shares: seq<KzgShare>, m: nat)
    requires ValidSetup(s, tau) && Bivariate(fields, ty) && |fields| <= |s.powersOfTau|
    requires RowCommitments(batch, s, fields, comm) && m < |comm| && ty < |shares|
    requires forall k :: 0 <= k < |shares| ==> shares[k].index < |comm|
    requires Selection(batch, Indices(Shift(shares)))
    ensures comm[m] ==
      Red(Dot(Bases(Points(batch, Indices(Shift(shares))), batch.omegas[m + 1]), Pick(comm, shares)))
  {
    hide Eval, EvalPolyAtTau, Scale, ValidSetup, Basis, Bases, DotTo;
    var col := Scale(s.g1, ColumnAt(fields, tau));
    ColumnDegree(fields, tau, ty + 1);
    var xs := Points(batch, Indices(Shift(shares)));
    PointsDistinct(batch, Indices(Shift(shares)));
    forall k | 0 <= k < |shares| ensures Pick(comm, shares)[k] == Red(Eval(col, xs[k])) {
      RowCommitmentValue(s, tau, fields, xs[k]);
    }
    ValuesAtPoints(col, xs, batch.omegas[m + 1], Pick(comm, shares));
    RowCommitmentValue(s, tau, fields, batch.omegas[m + 1]);
  }

  /** Accepted openings stay openings under any linear combination. */
  lemma CombinationVerifies(s: Setup, tau: Scalar, comm: seq<G1>, x: Scalar, shares: seq<KzgShare>, b: seq<Scalar>)
    requires ValidSetup(s, tau) && |b| == |shares|
    requires forall k :: 0 <= k < |shares| ==> shares[k].index < |comm| && Accepted(s, comm, x, shares[k])
    ensures Verify(s, Red(Dot(b, Pick(comm, shares))), x, Red(Dot(b, Values(shares))), Red(Dot(b, Proofs(shares))))
  {
    hide Verify, ValidSetup, DotTo;
    var n, g, d := |shares|, s.g1 as int, tau - x;
    var c: seq<int>, v: seq<int>, w: seq<int> := Pick(comm, shares), Values(shares), Proofs(shares);
    var left := seq(n, k requires 0 <= k < n => c[k] + (-g) * v[k]);
    var right := seq(n, k requires 0 <= k < n => d * w[k]);
    forall k | 0 <= k < n ensures Cong(At(left, k), At(right, k)) {
      assert Accepted(s, comm, x, shares[k]);
      VerifyEquation(s, tau, c[k], x, v[k], w[k]);
      Reshape(c[k], g, v[k], w[k], d);
    }
    DotCong(b, b, left, right, n);
    DotLinear(b, c, v, left, -g, n);
    DotScaled(b, w, right, d, n);
    CombinedEquation(Dot(b, c), Dot(b, v), Dot(b, w), g, d);
    VerifyEquation(s, tau, Red(Dot(b, c)), x, Red(Dot(b, v)), Red(Dot(b, w)));
  }

  lemma Reshape(c: int, g: int, v: int, w: int, d: int)
    ensures c - g * v == c + (-g) * v && w * d == d * w
  {}

  lemma {:induction false} DotScaled(a: seq<int>, b: seq<int>, c: seq<int>, k: int, n: nat)
    requires forall i :: 0 <= i < n ==> At(c, i) == k * At(b, i)
    ensures DotTo(a, c, n) == k * DotTo(a, b, n)
  {
    if n > 0 {
      DotScaled(a, b, c, k, n - 1);
      ScaledStep(At(a, n - 1), At(b, n - 1), k, DotTo(a, b, n - 1));
    }
  }

  lemma ScaledStep(a: int, b: int, k: int, t: int)
    ensures k * t + a * (k * b) == k * (t + a * b)
  {}

  lemma CombinedEquation(c: int, v: int, w: int, g: int, d: int)
    requires Cong(c + (-g) * v, d * w)
    ensures Cong(Red(c) - g * Red(v), Red(w) * d)
  {
    Reshape(c, g, v, w, d);
    CongMul(g, g, Red(v), v);
    CongSub(Red(c), c, g * Red(v), g * v);
    CongMul(Red(w), w, d, d);
  }

  /** From any t+1 accepted shares of distinct senders, whatever their values, the
      combination at w^(m+1) is accepted under the commitment of player m. */
  lemma ColumnServesRow(batch: BatchDomain, s: Setup, tau: Scalar, fields: seq<seq<Scalar>>, ty: nat, comm: seq<G1>,
                        x: Scalar, shares: seq<KzgShare>, m: nat)
    requires ValidSetup(s, tau) && Bivariate(fields, ty) && |fields| <= |s.powersOfTau|
    requires RowCommitments(batch, s, fields, comm) && m < |comm| && ty < |shares|
    requires forall k :: 0 <= k < |shares| ==> shares[k].index < |comm| && Accepted(s, comm, x, shares[k])
    requires Selection(batch, Indices(Shift(shares)))
    ensures Verify(s, comm[m], x, Completed(batch, Shift(shares), Values(shares), m + 1),
                   Completed(batch, Shift(shares), Proofs(shares), m + 1))
  {
    hide Verify, ValidSetup, DotTo, Basis, Bases, EvalPolyAtTau;
    CombinedCommitment(batch, s, tau, fields, ty, comm, shares, m);
    CombinationVerifies(s, tau, comm, x, shares, Bases(Points(batch, Indices(Shift(shares))), batch.omegas[m + 1]));
  }
}
