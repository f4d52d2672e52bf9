/** A whole exchange of Bingo (bingo/dealer.rs, bingo/receivers.rs): the dealer's rows,
    openings that complete columns, and columns that complete rows. */
module BingoProtocol {
  import opened Options
  import opened ScalarField
  import opened PolynomialAlgebra
  import opened EvaluationDomain
  import opened Group
  import opened Kzg
  import opened Scheme
  import opened ShareOrder
  import opened Bingo
  import opened BingoManagers
  import opened BingoRows

  /** What the dealer has published and sent. */
  ghost predicate Dealt(c: Configuration, s: Setup, tau: Scalar, fields: seq<seq<Scalar>>, t: nat, comm: seq<G1>,
                        lines: seq<seq<Scalar>>)
  {
    && ValidConfiguration(c) && |comm| == |lines| == c.n && |s.powersOfTau| <= c.dom.N
    && HonestDealer(c.batch, s, tau, fields, t, comm)
    && forall m :: 0 <= m < c.n ==> lines[m] == RowAt(fields, c.batch.omegas[m + 1])
  }

  /** Different players. */
  ghost predicate Players(order: seq<nat>, n: nat) {
    && (forall k :: 0 <= k < |order| ==> order[k] < n)
    && forall k, l :: 0 <= k < l < |order| ==> order[k] != order[l]
  }

  /** The positions of the correct players. */
  ghost function Correct(order: seq<nat>, isByz: seq<bool>): set<nat>
    requires Players(order, |isByz|)
  {
    set k: nat | k < |order| && !isByz[order[k]]
  }

  /** The opening player j makes for player i: valid and dealt exactly if j is correct. */
  ghost predicate OpenedBy(batch: BatchDomain, s: Setup, fields: seq<seq<Scalar>>, comm: seq<G1>, i: nat, j: nat, byz: bool,
                           msg: KzgShare)
  {
    && msg.index == j < |comm| && i < |batch.omegas|
    && (Verify(s, comm[j], batch.omegas[i], msg.value, msg.proof) <==> !byz)
    && (!byz ==> Honest(batch, fields, batch.omegas[i], msg))
  }

  lemma OpenedToIsOpenedBy(batch: BatchDomain, s: Setup, fields: seq<seq<Scalar>>, comm: seq<G1>, i: nat, j: nat, byz: bool,
                           msg: KzgShare, own: KzgShare)
    requires j < |comm| && j + 1 < |batch.omegas|
    requires OpenedTo(batch, s, comm[j], RowAt(fields, batch.omegas[j + 1]), j, byz, i, msg, own)
    ensures OpenedBy(batch, s, fields, comm, i, j, byz, msg)
  {
    hide Eval, RowAt, Verify, Add;
  }

  lemma DealtRow(c: Configuration, s: Setup, tau: Scalar, fields: seq<seq<Scalar>>, t: nat, comm: seq<G1>,
                 lines: seq<seq<Scalar>>, j: nat)
    requires Dealt(c, s, tau, fields, t, comm, lines) && j < c.n
    ensures j + 1 < |c.batch.omegas| && lines[j] == RowAt(fields, c.batch.omegas[j + 1])
    ensures |lines[j]| <= |s.powersOfTau| && comm[j] == EvalPolyAtTau(s.powersOfTau, lines[j])
  {
    hide RowAt, EvalPolyAtTau, ValidSetup, Bivariate;
  }

  /** `verify_my_line` at player j, and what it serves to player i. */
  method OpenOne(c: Configuration, s: Setup, ghost tau: Scalar, ghost fields: seq<seq<Scalar>>, ghost t: nat,
                 comm: seq<G1>, lines: seq<seq<Scalar>>, byz: bool, j: nat, i: nat) returns (msg: KzgShare)
    requires Dealt(c, s, tau, fields, t, comm, lines) && j < c.n && i < c.n
    ensures OpenedBy(c.batch, s, fields, comm, i, j, byz, msg)
  {
    hide ValidConfiguration, HonestDealer, OpenedTo, OpenedBy, RowAt, EvalPolyAtTau;
    DealtRow(c, s, tau, fields, t, comm, lines, j);
    DealersSetup(c, s, tau, fields, t, comm);
    var r := VerifyMyLine(c, s, tau, comm, j, byz, lines[j]);
    OpenedToIsOpenedBy(c.batch, s, fields, comm, i, j, byz, r.messages[i], r.own[i]);
    msg := r.messages[i];
  }

  /** The openings that reach player i, in the order they arrive. */
  method OpenColumn(c: Configuration, s: Setup, ghost tau: Scalar, ghost fields: seq<seq<Scalar>>, ghost t: nat,
                    comm: seq<G1>, lines: seq<seq<Scalar>>, isByz: seq<bool>, order: seq<nat>, i: nat)
    returns (msgs: seq<KzgShare>)
    requires Dealt(c, s, tau, fields, t, comm, lines) && |isByz| == c.n && Players(order, c.n) && i < c.n
    ensures |msgs| == |order|
    ensures forall k :: 0 <= k < |msgs| ==>
      OpenedBy(c.batch, s, fields, comm, i, order[k], isByz[order[k]], msgs[k])
  {
    hide Dealt, OpenedBy;
    msgs := [];
    for k := 0 to |order|
      invariant |msgs| == k
      invariant forall l :: 0 <= l < k ==> OpenedBy(c.batch, s, fields, comm, i, order[l], isByz[order[l]], msgs[l])
    {
      var msg := OpenOne(c, s, tau, fields, t, comm, lines, isByz[order[k]], order[k], i);
      msgs := msgs + [msg];
    }
  }

  lemma DealersSetup(c: Configuration, s: Setup, tau: Scalar, fields: seq<seq<Scalar>>, t: nat, comm: seq<G1>)
    requires HonestDealer(c.batch, s, tau, fields, t, comm)
    ensures ValidSetup(s, tau) && ValidBatch(c.batch) && 1 < c.batch.N() && t < c.batch.N() && |comm| < c.batch.N()
  {}

  /** The row message of player i to player m: valid and on the dealt row exactly if i is
      correct. */
  ghost predicate SentBy(batch: BatchDomain, s: Setup, fields: seq<seq<Scalar>>, comm: seq<G1>, i: nat, byz: bool, m: nat,
                         msg: KzgShare)
  {
    && msg.index == i < |batch.omegas| && m < |comm|
    && (Verify(s, comm[m], batch.omegas[i], msg.value, msg.proof) <==> !byz)
    && (!byz ==> OnDealtRow(batch, fields, m, msg))
  }

  /** `verify_my_line` at the given players, then `col_manager` at player i: the column
      completes exactly when t+1 of them are correct, and correct rows are the dealt
      ones. */
  method CompleteColumn(c: Configuration, s: Setup, ghost tau: Scalar, ghost fields: seq<seq<Scalar>>, t: nat,
                        comm: seq<G1>, lines: seq<seq<Scalar>>, isByz: seq<bool>, order: seq<nat>, i: nat)
    returns (sent: Option<seq<KzgShare>>)
    requires Dealt(c, s, tau, fields, t, comm, lines) && |isByz| == c.n && Players(order, c.n) && i < c.n
    ensures sent.Some? <==> |Correct(order, isByz)| >= t + 1
    ensures sent.Some? ==> |sent.value| == c.n
    ensures sent.Some? ==> forall m :: 0 <= m < c.n ==> SentBy(c.batch, s, fields, comm, i, isByz[i], m, sent.value[m])
  {
    hide ValidConfiguration, HonestDealer, Honest, OnDealtRow, Verify, ColumnState;
    DealersSetup(c, s, tau, fields, t, comm);
    InDomain(c, s, tau, fields, t, comm, lines, i);
    var msgs := OpenColumn(c, s, tau, fields, t, comm, lines, isByz, order, i);
    var shares;
    shares, sent := ColManager(c.batch, s, tau, fields, t, comm, i, isByz[i], msgs);
    assert Openings(s, comm, c.batch.omegas[i], msgs) == Correct(order, isByz);
    if sent.Some? {
      forall k | 0 <= k < |shares| ensures Honest(c.batch, fields, c.batch.omegas[i], shares[k]) {
        assert OpeningAmong(s, comm, c.batch.omegas[i], msgs, shares[k]);
      }
      ColumnSent(c.batch, s, fields, comm, t, i, isByz[i], msgs, shares, sent);
    }
  }

  lemma InDomain(c: Configuration, s: Setup, tau: Scalar, fields: seq<seq<Scalar>>, t: nat, comm: seq<G1>,
                 lines: seq<seq<Scalar>>, i: nat)
    requires Dealt(c, s, tau, fields, t, comm, lines) && i < c.n
    ensures i + 1 < |c.batch.omegas|
  {}

  lemma ColumnSent(batch: BatchDomain, s: Setup, fields: seq<seq<Scalar>>, comm: seq<G1>, t: nat, i: nat, byz: bool,
                   msgs: seq<KzgShare>, shares: seq<KzgShare>, sent: Option<seq<KzgShare>>)
    requires i < |batch.omegas| && ColumnState(batch, s, fields, comm, t, i, byz, msgs, shares, sent) && sent.Some?
    requires forall k :: 0 <= k < |shares| ==> Honest(batch, fields, batch.omegas[i], shares[k])
    ensures |sent.value| == |comm| && forall m :: 0 <= m < |comm| ==> SentBy(batch, s, fields, comm, i, byz, m, sent.value[m])
  {
    hide Honest, OnDealtRow, Verify, Collected;
  }

  /** The row messages that reach player m, in the order they arrive. */
  method CollectRow(c: Configuration, s: Setup, ghost tau: Scalar, ghost fields: seq<seq<Scalar>>, t: nat, comm: seq<G1>,
                    lines: seq<seq<Scalar>>, isByz: seq<bool>, orders: seq<seq<nat>>, senders: seq<nat>, m: nat)
    returns (msgs: seq<KzgShare>)
    requires Dealt(c, s, tau, fields, t, comm, lines) && |isByz| == |orders| == c.n && Players(senders, c.n) && m < c.n
    requires forall i :: 0 <= i < c.n ==> Players(orders[i], c.n) && |Correct(orders[i], isByz)| >= t + 1
    ensures |msgs| == |senders|
    ensures forall k :: 0 <= k < |msgs| ==>
      SentBy(c.batch, s, fields, comm, senders[k], isByz[senders[k]], m, msgs[k])
  {
    hide ValidConfiguration, HonestDealer, SentBy, Correct, Dealt;
    msgs := [];
    for k := 0 to |senders|
      invariant |msgs| == k
      invariant forall l :: 0 <= l < k ==> SentBy(c.batch, s, fields, comm, senders[l], isByz[senders[l]], m, msgs[l])
    {
      var i := senders[k];
      var sent := CompleteColumn(c, s, tau, fields, t, comm, lines, isByz, orders[i], i);
      msgs := msgs + [sent.value[m]];
    }
  }

  /** A whole exchange, seen from player m: when every column has t+1 correct openings,
      then a row message of a Byzantine player that `line_manager` handles aborts it, and
      otherwise 2t+1 handled messages give exactly the row that was dealt to m. */
  method RecoverRow(c: Configuration, s: Setup, ghost tau: Scalar, fields: seq<seq<Scalar>>, t: nat, isByz: seq<bool>,
                    orders: seq<seq<nat>>, senders: seq<nat>, full: seq<bool>, m: nat)
    returns (r: LineResult)
    requires ValidConfiguration(c) && c.n < c.batch.N() && 2 * t + 1 <= c.batch.N()
    requires ValidSetup(s, tau) && Bivariate(fields, t) && |fields| <= 2 * t + 1 && |fields| <= |s.powersOfTau| <= c.dom.N
    requires |isByz| == |orders| == c.n && Players(senders, c.n) && |full| == |senders| && m < c.n
    requires forall i :: 0 <= i < c.n ==> Players(orders[i], c.n) && |Correct(orders[i], isByz)| >= t + 1
    ensures r.Panic? <==> exists k :: 0 <= k < |senders| && !full[k] && isByz[senders[k]]
    ensures r.Done? <==> !r.Panic? && |LookedAt(full)| >= 2 * t + 1
    ensures r.Done? ==> |r.row| == c.n && m + 1 < |c.batch.omegas| && forall i :: 0 <= i < c.n ==>
      r.row[i] == Red(Eval(RowAt(fields, c.batch.omegas[m + 1]), c.batch.omegas[i]))
  {
    var comm, lines := DealTo(c, s, tau, fields, t);
    hide ValidConfiguration, HonestDealer, ValidSetup, Bivariate, Dealt, Correct, RowAt, Eval, SentBy, LineState, LookedAt;
    DealersBatch(c, s, tau, fields, t, comm, lines);
    var msgs := CollectRow(c, s, tau, fields, t, comm, lines, isByz, orders, senders, m);
    SentIndices(c.batch, s, fields, comm, isByz, senders, m, msgs);
    r := LineManager(c.batch, s, c.n, t, comm[m], msgs, full, RowAt(fields, c.batch.omegas[m + 1]));
    RowOutcome(c.batch, s, c.n, t, comm, fields, isByz, senders, full, m, msgs, r);
  }

  method DealTo(c: Configuration, s: Setup, ghost tau: Scalar, fields: seq<seq<Scalar>>, ghost t: nat)
    returns (comm: seq<G1>, lines: seq<seq<Scalar>>)
    requires ValidConfiguration(c) && c.n < c.batch.N() && t < c.batch.N()
    requires ValidSetup(s, tau) && Bivariate(fields, t) && |fields| <= |s.powersOfTau| <= c.dom.N
    ensures Dealt(c, s, tau, fields, t, comm, lines)
  {
    hide ValidSetup, Bivariate, RowAt, EvalPolyAtTau;
    assert |c.batch.omegas| == c.batch.N();
    comm, lines := Deal(c.batch, c.n, s, fields, t);
  }

  lemma DealersBatch(c: Configuration, s: Setup, tau: Scalar, fields: seq<seq<Scalar>>, t: nat, comm: seq<G1>,
                     lines: seq<seq<Scalar>>)
    requires Dealt(c, s, tau, fields, t, comm, lines)
    ensures ValidBatch(c.batch) && 1 < c.batch.N() == |c.batch.omegas| && |comm| == c.n < c.batch.N()
  {}

  lemma SentIndices(batch: BatchDomain, s: Setup, fields: seq<seq<Scalar>>, comm: seq<G1>, isByz: seq<bool>,
                    senders: seq<nat>, m: nat, msgs: seq<KzgShare>)
    requires |msgs| == |senders| && Players(senders, |isByz|)
    requires forall k :: 0 <= k < |msgs| ==> SentBy(batch, s, fields, comm, senders[k], isByz[senders[k]], m, msgs[k])
    ensures DistinctIndices(msgs) && forall k :: 0 <= k < |msgs| ==> msgs[k].index == senders[k] < |batch.omegas|
  {
    hide Verify, OnDealtRow;
  }

  /** From the contract of `line_manager` to the dealt row. */
  lemma RowOutcome(batch: BatchDomain, s: Setup, n: nat, t: nat, comm: seq<G1>, fields: seq<seq<Scalar>>, isByz: seq<bool>,
                   senders: seq<nat>, full: seq<bool>, m: nat, msgs: seq<KzgShare>, r: LineResult)
    requires n <= |batch.omegas| && m < |comm| && m + 1 < |batch.omegas|
    requires |msgs| == |senders| == |full| && Players(senders, |isByz|)
    requires forall k :: 0 <= k < |msgs| ==> SentBy(batch, s, fields, comm, senders[k], isByz[senders[k]], m, msgs[k])
    requires LineState(batch, s, n, 2 * t + 1, comm[m], Handled(msgs, full), RowAt(fields, batch.omegas[m + 1]), r)
    ensures r.Panic? <==> exists k :: 0 <= k < |senders| && !full[k] && isByz[senders[k]]
    ensures r.Done? ==> |r.row| == n && forall i :: 0 <= i < n ==>
      r.row[i] == Red(Eval(RowAt(fields, batch.omegas[m + 1]), batch.omegas[i]))
  {
    hide Verify, RowAt, Eval, OnRow, Handled;
    var handled := Handled(msgs, full);
    HandledAre(msgs, full);
    if k :| 0 <= k < |senders| && !full[k] && isByz[senders[k]] {
      assert msgs[k] in handled && SentBy(batch, s, fields, comm, senders[k], isByz[senders[k]], m, msgs[k]);
    }
    forall h | 0 <= h < |handled|
      ensures OnRow(batch, RowAt(fields, batch.omegas[m + 1]), handled[h]) || !Opens(batch, s, comm[m], handled[h])
      ensures !Opens(batch, s, comm[m], handled[h]) ==> exists k :: 0 <= k < |senders| && !full[k] && isByz[senders[k]]
    {
      assert handled[h] in handled;
      var k :| 0 <= k < |msgs| && !full[k] && msgs[k] == handled[h];
      assert SentBy(batch, s, fields, comm, senders[k], isByz[senders[k]], m, msgs[k]);
    }
  }
}
