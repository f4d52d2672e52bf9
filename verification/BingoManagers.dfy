/** The column loop of Bingo: `col_manager` (bingo/receivers.rs), with the
    interpolation it ends in (scheme.rs). */
module BingoManagers {
  import opened Options
  import opened ScalarField
  import opened PolynomialAlgebra
  import opened Interpolation
  import opened EvaluationDomain
  import opened Lagrange
  import opened Group
  import opened Kzg
  import opened Scheme
  import opened ShareOrder
  import opened Bingo

  lemma IncreasingSelection(batch: BatchDomain, ids: seq<nat>)
    requires ValidBatch(batch) && 1 < batch.N() && 0 < |ids| <= batch.N() && Increasing(ids)
    requires forall k :: 0 <= k < |ids| ==> ids[k] < batch.N()
    ensures Selection(batch, ids)
  {
    hide ValidBatch;
  }

  lemma OrderedShares(batch: BatchDomain, shares: seq<KzgShare>)
    requires ValidBatch(batch) && 1 < batch.N() && 0 < |shares| <= batch.N() && Increasing(Indices(shares))
    requires forall k :: 0 <= k < |shares| ==> shares[k].index < batch.N()
    ensures SortedShares(batch, batch.N(), shares)
  {
    hide ValidBatch, Selection, Increasing;
    IncreasingSelection(batch, Indices(shares));
  }

  lemma OrderedIncreasing(shares: seq<KzgShare>)
    requires Ordered(shares)
    ensures Increasing(Indices(shares)) && Increasing(Indices(Shift(shares)))
  {
    hide Ordered;
    forall i: nat, j: nat | i < j < |shares| ensures shares[i].index < shares[j].index { OrderedEntries(shares, i, j); }
  }

  lemma ShiftedSelection(batch: BatchDomain, shares: seq<KzgShare>)
    requires ValidBatch(batch) && 1 < batch.N() && 0 < |shares| <= batch.N() && Ordered(shares)
    requires forall k :: 0 <= k < |shares| ==> shares[k].index + 1 < batch.N()
    ensures SortedShares(batch, batch.N(), Shift(shares))
  {
    hide ValidBatch, Ordered, Increasing, SortedShares;
    OrderedIncreasing(shares);
    OrderedShares(batch, Shift(shares));
  }

  /** Entry m of what `kzg_interpolate_all` returns. */
  ghost predicate Served(batch: BatchDomain, shares: seq<KzgShare>, m: nat, row: KzgShare) {
    && m + 1 < |batch.omegas| && (forall k :: 0 <= k < |shares| ==> shares[k].index + 1 < |batch.omegas|)
    && ServedEntry(batch, shares, m, row)
  }

  ghost predicate ServedEntry(batch: BatchDomain, shares: seq<KzgShare>, m: nat, row: KzgShare)
    requires m + 1 < |batch.omegas| && forall k :: 0 <= k < |shares| ==> shares[k].index + 1 < |batch.omegas|
  {
    || (exists k :: 0 <= k < |shares| && shares[k] == row && row.index == m)
    || row == KzgShare(m, Completed(batch, Shift(shares), Values(shares), m + 1),
                          Completed(batch, Shift(shares), Proofs(shares), m + 1))
  }

  function Renumbered(entries: seq<(Scalar, G1)>): (r: seq<KzgShare>)
    ensures |r| == |entries|
    ensures forall m :: 0 <= m < |r| ==> r[m] == KzgShare(m, entries[m].0, entries[m].1)
  {
    seq(|entries|, m requires 0 <= m < |entries| => KzgShare(m, entries[m].0, entries[m].1))
  }

  /** `kzg_interpolate_all`: complete the shifted shares over the whole domain and
      drop slot 0. */
  method KzgInterpolateAll(batch: BatchDomain, n: nat, shares: seq<KzgShare>) returns (rows: seq<KzgShare>)
    requires n < batch.N() && SortedShares(batch, batch.N(), Shift(shares))
    requires forall k :: 0 <= k < |shares| ==> shares[k].index + 1 < batch.N()
    ensures |rows| == n && forall m :: 0 <= m < n ==> Served(batch, shares, m, rows[m])
  {
    hide Basis, Bases, DotTo;
    var shifted := Shift(shares);
    var res := CompleteEvaluationsWithProofs(batch.N(), shifted, batch);
    rows := Renumbered(res[1..n + 1]);
    hide Completed, SortedShares, Served;
    forall m: nat | m < n ensures Served(batch, shares, m, rows[m]) {
      CompletedEntry(batch, shares, m, res[m + 1]);
    }
  }

  /** Slot m+1 of the completion of the shifted shares. */
  lemma CompletedEntry(batch: BatchDomain, shares: seq<KzgShare>, m: nat, entry: (Scalar, G1))
    requires m + 1 < |batch.omegas| && forall k :: 0 <= k < |shares| ==> shares[k].index + 1 < |batch.omegas|
    requires forall k :: 0 <= k < |shares| && shares[k].index == m ==> entry == (shares[k].value, shares[k].proof)
    requires m + 1 !in Indices(Shift(shares)) ==>
      entry == (Completed(batch, Shift(shares), Values(Shift(shares)), m + 1),
                Completed(batch, Shift(shares), Proofs(Shift(shares)), m + 1))
    ensures Served(batch, shares, m, KzgShare(m, entry.0, entry.1))
  {
    hide Completed;
    assert Values(Shift(shares)) == Values(shares) && Proofs(Shift(shares)) == Proofs(shares);
    if m + 1 in Indices(Shift(shares)) {
      var k :| 0 <= k < |shares| && Indices(Shift(shares))[k] == m + 1;
      assert shares[k] == KzgShare(m, entry.0, entry.1);
    }
  }

  /** The value row k, the one player k was dealt, takes at x. */
  ghost predicate Honest(batch: BatchDomain, fields: seq<seq<Scalar>>, x: Scalar, share: KzgShare) {
    && share.index + 1 < |batch.omegas|
    && share.value == Red(Eval(RowAt(fields, batch.omegas[share.index + 1]), x))
  }

  lemma HonestOnColumn(batch: BatchDomain, fields: seq<seq<Scalar>>, x: Scalar, share: KzgShare)
    requires share.index + 1 < |batch.omegas|
    ensures Honest(batch, fields, x, share) <==>
      share.value == Red(Eval(ColumnAt(fields, x), batch.omegas[share.index + 1]))
  {
    RowMeetsColumn(fields, x, batch.omegas[share.index + 1]);
    hide Eval, ColumnAt, RowAt;
  }

  /** When the collected values are the dealt ones, so are the interpolated ones. */
  lemma HonestColumnServesRow(batch: BatchDomain, fields: seq<seq<Scalar>>, t: nat, x: Scalar, shares: seq<KzgShare>,
                              m: nat, row: KzgShare)
    requires Bivariate(fields, t) && t < |shares| && SortedShares(batch, batch.N(), Shift(shares))
    requires forall k :: 0 <= k < |shares| ==> Honest(batch, fields, x, shares[k])
    requires Served(batch, shares, m, row)
    ensures row.value == Red(Eval(RowAt(fields, batch.omegas[m + 1]), x))
  {
    hide Eval, RowAt, Honest, Completed, SortedShares;
    HonestCompleted(batch, fields, t, x, shares, m);
    if k :| 0 <= k < |shares| && shares[k] == row && row.index == m {
      assert Honest(batch, fields, x, row);
      HonestValue(batch, fields, x, row);
    }
  }

  lemma HonestValue(batch: BatchDomain, fields: seq<seq<Scalar>>, x: Scalar, share: KzgShare)
    requires Honest(batch, fields, x, share)
    ensures share.value == Red(Eval(RowAt(fields, batch.omegas[share.index + 1]), x))
  {
    hide Eval, RowAt;
  }

  lemma HonestCompleted(batch: BatchDomain, fields: seq<seq<Scalar>>, t: nat, x: Scalar, shares: seq<KzgShare>, m: nat)
    requires Bivariate(fields, t) && t < |shares| && SortedShares(batch, batch.N(), Shift(shares)) && m + 1 < batch.N()
    requires forall k :: 0 <= k < |shares| ==> Honest(batch, fields, x, shares[k])
    requires forall k :: 0 <= k < |shares| ==> Shift(shares)[k].index < |batch.omegas|
    ensures Completed(batch, Shift(shares), Values(shares), m + 1) == Red(Eval(RowAt(fields, batch.omegas[m + 1]), x))
  {
    hide Eval, ColumnAt, RowAt, Honest, SortedShares, Completed;
    var col := ColumnAt(fields, x);
    ColumnDegree(fields, x, t + 1);
    ShiftedOnColumn(batch, fields, x, shares);
    CompletionIsEvaluation(batch.N(), Shift(shares), batch, col, m + 1);
    RowMeetsColumn(fields, x, batch.omegas[m + 1]);
  }

  lemma ShiftedOnColumn(batch: BatchDomain, fields: seq<seq<Scalar>>, x: Scalar, shares: seq<KzgShare>)
    requires forall k :: 0 <= k < |shares| ==> Honest(batch, fields, x, shares[k])
    requires forall k :: 0 <= k < |shares| ==> Shift(shares)[k].index < |batch.omegas|
    ensures Values(Shift(shares)) == Values(shares)
    ensures forall k :: 0 <= k < |shares| ==>
      Shift(shares)[k].value == Red(Eval(ColumnAt(fields, x), batch.omegas[Shift(shares)[k].index]))
  {
    hide Eval, ColumnAt, RowAt, Honest;
    forall k | 0 <= k < |shares| ensures shares[k].index + 1 < |batch.omegas| {
      assert Shift(shares)[k].index == shares[k].index + 1;
    }
    forall k | 0 <= k < |shares|
      ensures shares[k].value == Red(Eval(ColumnAt(fields, x), batch.omegas[shares[k].index + 1]))
    {
      assert Honest(batch, fields, x, shares[k]);
      assert Shift(shares)[k].index == shares[k].index + 1;
      HonestOnColumn(batch, fields, x, shares[k]);
    }
  }

  /** The first `enough` accepted messages. */
  function Collected(s: Setup, comm: seq<G1>, x: Scalar, enough: nat, msgs: seq<KzgShare>): (r: seq<KzgShare>)
    ensures |r| <= enough
    ensures forall k :: 0 <= k < |r| ==> r[k] in msgs && r[k].index < |comm| && Accepted(s, comm, x, r[k])
  {
    if |msgs| == 0 then []
    else
      var last := msgs[|msgs| - 1];
      var before := Collected(s, comm, x, enough, msgs[..|msgs| - 1]);
      if |before| < enough && Accepted(s, comm, x, last) then before + [last] else before
  }

  lemma CollectedStep(s: Setup, comm: seq<G1>, x: Scalar, enough: nat, msgs: seq<KzgShare>, msg: KzgShare)
    ensures var before := Collected(s, comm, x, enough, msgs);
            Collected(s, comm, x, enough, msgs + [msg]) ==
              if |before| < enough && Accepted(s, comm, x, msg) then before + [msg] else before
  {
    assert (msgs + [msg])[..|msgs|] == msgs;
  }

  lemma {:induction false} CollectedDistinct(s: Setup, comm: seq<G1>, x: Scalar, enough: nat, msgs: seq<KzgShare>)
    requires DistinctIndices(msgs)
    ensures DistinctIndices(Collected(s, comm, x, enough, msgs))
  {
    hide Accepted;
    if |msgs| > 0 { CollectedDistinct(s, comm, x, enough, msgs[..|msgs| - 1]); }
  }

  /** The positions of the messages that are valid openings of the senders' rows at x. */
  ghost function Openings(s: Setup, comm: seq<G1>, x: Scalar, msgs: seq<KzgShare>): set<nat>
    requires forall k :: 0 <= k < |msgs| ==> msgs[k].index < |comm|
  {
    set k: nat | k < |msgs| && Verify(s, comm[msgs[k].index], x, msgs[k].value, msgs[k].proof)
  }

  /** Every valid opening is collected until there are enough. */
  lemma {:induction false} CollectedCount(s: Setup, comm: seq<G1>, x: Scalar, enough: nat, msgs: seq<KzgShare>)
    requires forall k :: 0 <= k < |msgs| ==> msgs[k].index < |comm|
    ensures |Collected(s, comm, x, enough, msgs)| ==
      if |Openings(s, comm, x, msgs)| < enough then |Openings(s, comm, x, msgs)| else enough
  {
    hide Verify;
    if |msgs| > 0 {
      var last := |msgs| - 1;
      CollectedCount(s, comm, x, enough, msgs[..last]);
      OpeningsStep(s, comm, x, msgs[..last], msgs[last]);
      assert msgs[..last] + [msgs[last]] == msgs;
    }
  }

  lemma OpeningsStep(s: Setup, comm: seq<G1>, x: Scalar, msgs: seq<KzgShare>, msg: KzgShare)
    requires msg.index < |comm| && forall k :: 0 <= k < |msgs| ==> msgs[k].index < |comm|
    ensures |Openings(s, comm, x, msgs + [msg])| ==
      |Openings(s, comm, x, msgs)| + if Verify(s, comm[msg.index], x, msg.value, msg.proof) then 1 else 0
  {
    hide Verify;
    var before, after, n := Openings(s, comm, x, msgs), Openings(s, comm, x, msgs + [msg]), |msgs|;
    var all := msgs + [msg];
    assert all[n] == msg;
    if Verify(s, comm[msg.index], x, msg.value, msg.proof) {
      assert n in after;
      assert after == before + {n};
    } else {
      assert after == before;
    }
  }

  /** What player i sends once its column is complete: entry m goes to player m. */
  ghost predicate RowMessage(s: Setup, comm: G1, x: Scalar, i: nat, isByz: bool, message: KzgShare) {
    message.index == i && (Verify(s, comm, x, message.value, message.proof) <==> !isByz)
  }

  ghost predicate RowMessages(s: Setup, comm: seq<G1>, x: Scalar, i: nat, isByz: bool, sent: seq<KzgShare>) {
    |sent| == |comm| && forall m :: 0 <= m < |comm| ==> RowMessage(s, comm[m], x, i, isByz, sent[m])
  }

  /** An interpolated entry verifies under the commitment of its player. */
  lemma ServedVerifies(batch: BatchDomain, s: Setup, tau: Scalar, fields: seq<seq<Scalar>>, ty: nat, comm: seq<G1>,
                       x: Scalar, shares: seq<KzgShare>, m: nat, row: KzgShare)
    requires ValidSetup(s, tau) && Bivariate(fields, ty) && |fields| <= |s.powersOfTau|
    requires RowCommitments(batch, s, fields, comm) && m < |comm| && ty < |shares|
    requires forall k :: 0 <= k < |shares| ==> shares[k].index < |comm| && Accepted(s, comm, x, shares[k])
    requires SortedShares(batch, batch.N(), Shift(shares)) && Served(batch, shares, m, row)
    ensures Verify(s, comm[m], x, row.value, row.proof)
  {
    hide Verify, Basis, Bases, DotTo, ValidSetup, Bivariate, RowCommitments;
    if k :| 0 <= k < |shares| && shares[k] == row && row.index == m {
      assert Accepted(s, comm, x, shares[k]);
    } else {
      ColumnServesRow(batch, s, tau, fields, ty, comm, x, shares, m);
    }
  }

  /** The entries as they are sent: under the index of the sender, and with a wrong
      value when it is Byzantine. */
  method SendRows(s: Setup, ghost tau: Scalar, ghost comm: seq<G1>, x: Scalar, i: nat, isByz: bool, rows: seq<KzgShare>)
    returns (sent: seq<KzgShare>)
    requires ValidSetup(s, tau) && |rows| <= |comm|
    ensures |sent| == |rows|
    ensures forall m :: 0 <= m < |rows| && Verify(s, comm[m], x, rows[m].value, rows[m].proof) ==>
      RowMessage(s, comm[m], x, i, isByz, sent[m])
    ensures !isByz ==> forall m :: 0 <= m < |rows| ==> sent[m] == rows[m].(index := i)
  {
    hide Verify, ValidSetup, Add;
    sent := [];
    for m := 0 to |rows|
      invariant |sent| == m
      invariant forall k :: 0 <= k < m && Verify(s, comm[k], x, rows[k].value, rows[k].proof) ==>
        RowMessage(s, comm[k], x, i, isByz, sent[k])
      invariant !isByz ==> forall k :: 0 <= k < m ==> sent[k] == rows[k].(index := i)
    {
      var share := rows[m].(index := i);
      if isByz {
        share := share.(value := Add(share.value, 1));
        AddOneDiffers(rows[m].value);
        if Verify(s, comm[m], x, rows[m].value, share.proof) && Verify(s, comm[m], x, share.value, share.proof) {
          OneValuePerProof(s, tau, comm[m], x, rows[m].value, share.value, share.proof);
        }
      }
      sent := sent + [share];
    }
  }

  lemma SortedCollection(batch: BatchDomain, s: Setup, comm: seq<G1>, x: Scalar, shares: seq<KzgShare>)
    requires ValidBatch(batch) && batch.N() > 1 && |comm| < batch.N() && |shares| > 0 && DistinctIndices(shares)
    requires |shares| <= batch.N()
    requires forall k :: 0 <= k < |shares| ==> shares[k].index < |comm| && Accepted(s, comm, x, shares[k])
    ensures SortedShares(batch, batch.N(), Shift(SortShares(shares)))
    ensures forall k :: 0 <= k < |shares| ==>
      SortShares(shares)[k].index < |comm| && Accepted(s, comm, x, SortShares(shares)[k])
  {
    hide Accepted, ValidBatch, SortedShares;
    var sorted := SortShares(shares);
    SortIsOrdered(shares);
    forall k | 0 <= k < |sorted| ensures sorted[k].index < |comm| && Accepted(s, comm, x, sorted[k]) {
      SortMember(shares, sorted[k]);
    }
    ShiftedSelection(batch, sorted);
  }

  /** The dealer committed to the rows of a polynomial of degree t in Y, and the
      domain has a root for every row. */
  ghost predicate HonestDealer(batch: BatchDomain, s: Setup, tau: Scalar, fields: seq<seq<Scalar>>, t: nat, comm: seq<G1>) {
    && ValidBatch(batch) && 1 < batch.N() && t < batch.N() && |comm| < batch.N()
    && ValidSetup(s, tau) && Bivariate(fields, t) && |fields| <= |s.powersOfTau|
    && RowCommitments(batch, s, fields, comm)
  }

  /** The share carries the value of the row at the root of its sender. */
  ghost predicate OnRow(batch: BatchDomain, row: seq<Scalar>, share: KzgShare) {
    share.index < |batch.omegas| && share.value == Red(Eval(row, batch.omegas[share.index]))
  }

  /** When a correct player collected dealt values, the entry it sends to player m
      lies on the row that player m was dealt. */
  ghost predicate HonestRows(batch: BatchDomain, fields: seq<seq<Scalar>>, i: nat, isByz: bool, shares: seq<KzgShare>,
                             sent: seq<KzgShare>)
    requires i < |batch.omegas|
  {
    !isByz && (forall k :: 0 <= k < |shares| ==> Honest(batch, fields, batch.omegas[i], shares[k])) ==>
      forall m :: 0 <= m < |sent| ==> OnDealtRow(batch, fields, m, sent[m])
  }

  ghost predicate OnDealtRow(batch: BatchDomain, fields: seq<seq<Scalar>>, m: nat, share: KzgShare) {
    m + 1 < |batch.omegas| && OnRow(batch, RowAt(fields, batch.omegas[m + 1]), share)
  }

  lemma SortedHonest(batch: BatchDomain, fields: seq<seq<Scalar>>, x: Scalar, shares: seq<KzgShare>)
    requires forall k :: 0 <= k < |shares| ==> Honest(batch, fields, x, shares[k])
    ensures forall k :: 0 <= k < |shares| ==> Honest(batch, fields, x, SortShares(shares)[k])
  {
    hide Honest;
    forall k | 0 <= k < |shares| ensures Honest(batch, fields, x, SortShares(shares)[k]) {
      SortMember(shares, SortShares(shares)[k]);
    }
  }

  lemma ServedOnRow(batch: BatchDomain, fields: seq<seq<Scalar>>, t: nat, i: nat, sorted: seq<KzgShare>, m: nat, row: KzgShare)
    requires Bivariate(fields, t) && t < |sorted| && i < |batch.omegas|
    requires SortedShares(batch, batch.N(), Shift(sorted)) && Served(batch, sorted, m, row)
    requires forall k :: 0 <= k < |sorted| ==> Honest(batch, fields, batch.omegas[i], sorted[k])
    ensures OnDealtRow(batch, fields, m, row.(index := i))
  {
    hide Honest, Eval, RowAt, SortedShares, Served, Bivariate, Shift;
    ServedInDomain(batch, sorted, m, row);
    HonestColumnServesRow(batch, fields, t, batch.omegas[i], sorted, m, row);
  }

  lemma ServedInDomain(batch: BatchDomain, shares: seq<KzgShare>, m: nat, row: KzgShare)
    requires Served(batch, shares, m, row)
    ensures m + 1 < |batch.omegas|
  {}

  /** What the column manager does when it has enough shares. */
  method FinishColumn(batch: BatchDomain, s: Setup, ghost tau: Scalar, ghost fields: seq<seq<Scalar>>, ghost t: nat,
                      comm: seq<G1>, i: nat, isByz: bool, shares: seq<KzgShare>)
    returns (sent: seq<KzgShare>)
    requires HonestDealer(batch, s, tau, fields, t, comm) && i < |batch.omegas|
    requires |shares| == t + 1 && DistinctIndices(shares)
    requires forall k :: 0 <= k < |shares| ==>
      shares[k].index < |comm| && Accepted(s, comm, batch.omegas[i], shares[k])
    ensures RowMessages(s, comm, batch.omegas[i], i, isByz, sent)
    ensures HonestRows(batch, fields, i, isByz, shares, sent)
  {
    hide Accepted, ValidBatch, SortedShares, Verify, ValidSetup, Bivariate, RowCommitments, RowMessage, Served, Honest,
      OnDealtRow;
    var x := batch.omegas[i];
    SortedCollection(batch, s, comm, x, shares);
    var sorted := SortShares(shares);
    var rows := KzgInterpolateAll(batch, |comm|, sorted);
    forall m | 0 <= m < |comm| ensures Verify(s, comm[m], x, rows[m].value, rows[m].proof) {
      ServedVerifies(batch, s, tau, fields, t, comm, x, sorted, m, rows[m]);
    }
    sent := SendRows(s, tau, comm, x, i, isByz, rows);
    if !isByz && forall k :: 0 <= k < |shares| ==> Honest(batch, fields, x, shares[k]) {
      SortedHonest(batch, fields, x, shares);
      forall m | 0 <= m < |sent| ensures OnDealtRow(batch, fields, m, sent[m]) {
        ServedOnRow(batch, fields, t, i, sorted, m, rows[m]);
      }
    }
  }

  /** The state of the column manager after the messages msgs. */
  ghost predicate ColumnState(batch: BatchDomain, s: Setup, fields: seq<seq<Scalar>>, comm: seq<G1>, t: nat, i: nat,
                              isByz: bool, msgs: seq<KzgShare>, shares: seq<KzgShare>, sent: Option<seq<KzgShare>>)
  {
    && i < |batch.omegas|
    && shares == Collected(s, comm, batch.omegas[i], t + 1, msgs)
    && match sent
       case None => |shares| <= t
       case Some(rows) =>
         && |shares| == t + 1 && RowMessages(s, comm, batch.omegas[i], i, isByz, rows)
         && HonestRows(batch, fields, i, isByz, shares, rows)
  }

  lemma ColumnStart(batch: BatchDomain, s: Setup, fields: seq<seq<Scalar>>, comm: seq<G1>, t: nat, i: nat, isByz: bool)
    requires i < |batch.omegas|
    ensures ColumnState(batch, s, fields, comm, t, i, isByz, [], [], None)
  {
    hide Accepted, RowMessages, HonestRows;
  }

  /** One turn of the loop. */
  method ReceiveColumn(batch: BatchDomain, s: Setup, ghost tau: Scalar, ghost fields: seq<seq<Scalar>>, t: nat,
                       comm: seq<G1>, i: nat, isByz: bool, ghost msgs: seq<KzgShare>, msg: KzgShare,
                       shares0: seq<KzgShare>, sent0: Option<seq<KzgShare>>)
    returns (shares: seq<KzgShare>, sent: Option<seq<KzgShare>>)
    requires HonestDealer(batch, s, tau, fields, t, comm) && msg.index < |comm| && DistinctIndices(msgs + [msg])
    requires ColumnState(batch, s, fields, comm, t, i, isByz, msgs, shares0, sent0)
    ensures ColumnState(batch, s, fields, comm, t, i, isByz, msgs + [msg], shares, sent)
  {
    hide Accepted, HonestDealer, RowMessages, HonestRows, Collected, DistinctIndices;
    var x := batch.omegas[i];
    CollectedStep(s, comm, x, t + 1, msgs, msg);
    shares, sent := shares0, sent0;
    if |shares| == t + 1 {
      return;
    }
    if Accepted(s, comm, x, msg) {
      shares := shares + [msg];
      if |shares| == t + 1 {
        CollectedDistinct(s, comm, x, t + 1, msgs + [msg]);
        var rows := FinishColumn(batch, s, tau, fields, t, comm, i, isByz, shares);
        sent := Some(rows);
      }
    }
  }

  /** `col_manager` over the messages it receives, one a sender: it completes exactly
      when t+1 of them are valid openings, and what it then sends to player m opens row m at w^i
      whatever the accepted values were.  Only a Byzantine sender's rows fail.  When
      the accepted values were the dealt ones, so is every value it sends. */
  method ColManager(batch: BatchDomain, s: Setup, ghost tau: Scalar, ghost fields: seq<seq<Scalar>>, t: nat,
                    comm: seq<G1>, i: nat, isByz: bool, msgs: seq<KzgShare>)
    returns (shares: seq<KzgShare>, sent: Option<seq<KzgShare>>)
    requires HonestDealer(batch, s, tau, fields, t, comm) && i < |batch.omegas|
    requires DistinctIndices(msgs) && forall k :: 0 <= k < |msgs| ==> msgs[k].index < |comm|
    ensures ColumnState(batch, s, fields, comm, t, i, isByz, msgs, shares, sent)
    ensures sent.Some? <==> |Openings(s, comm, batch.omegas[i], msgs)| >= t + 1
    ensures forall k :: 0 <= k < |shares| ==> OpeningAmong(s, comm, batch.omegas[i], msgs, shares[k])
  {
    shares, sent := [], None;
    hide HonestDealer, ColumnState;
    ColumnStart(batch, s, fields, comm, t, i, isByz);
    assert msgs[..0] == [];
    for k := 0 to |msgs|
      invariant ColumnState(batch, s, fields, comm, t, i, isByz, msgs[..k], shares, sent)
    {
      assert msgs[..k] + [msgs[k]] == msgs[..k + 1];
      shares, sent := ReceiveColumn(batch, s, tau, fields, t, comm, i, isByz, msgs[..k], msgs[k], shares, sent);
    }
    assert msgs[..|msgs|] == msgs;
    ColumnCompletes(batch, s, fields, comm, t, i, isByz, msgs, shares, sent);
  }

  /** One of the messages, and a valid opening. */
  ghost predicate OpeningAmong(s: Setup, comm: seq<G1>, x: Scalar, msgs: seq<KzgShare>, share: KzgShare) {
    share in msgs && share.index < |comm| && Verify(s, comm[share.index], x, share.value, share.proof)
  }

  lemma ColumnCompletes(batch: BatchDomain, s: Setup, fields: seq<seq<Scalar>>, comm: seq<G1>, t: nat, i: nat,
                        isByz: bool, msgs: seq<KzgShare>, shares: seq<KzgShare>, sent: Option<seq<KzgShare>>)
    requires ColumnState(batch, s, fields, comm, t, i, isByz, msgs, shares, sent)
    requires i < |batch.omegas| && forall k :: 0 <= k < |msgs| ==> msgs[k].index < |comm|
    ensures sent.Some? <==> |Openings(s, comm, batch.omegas[i], msgs)| >= t + 1
    ensures forall k :: 0 <= k < |shares| ==> OpeningAmong(s, comm, batch.omegas[i], msgs, shares[k])
  {
    hide Verify, RowMessages, HonestRows, Openings, Collected;
    CollectedCount(s, comm, batch.omegas[i], t + 1, msgs);
  }
}
