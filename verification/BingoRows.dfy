/** The row loop of Bingo: `line_manager` (bingo/receivers.rs). */
module BingoRows {
  import opened ScalarField
  import opened PolynomialAlgebra
  import opened Interpolation
  import opened EvaluationDomain
  import opened Lagrange
  import opened Group
  import opened Kzg
  import opened Scheme
  import opened ShareOrder
  import opened Bingo
  import opened BingoManagers

  datatype LineResult = Panic | Waiting | Done(row: seq<Scalar>)

  lemma SortedSelection(batch: BatchDomain, shares: seq<KzgShare>)
    requires ValidBatch(batch) && batch.N() > 1 && 0 < |shares| <= batch.N() && DistinctIndices(shares)
    requires forall k :: 0 <= k < |shares| ==> shares[k].index < batch.N()
    ensures SortedShares(batch, batch.N(), SortShares(shares))
  {
    hide ValidBatch, Ordered, DistinctIndices, Increasing, SortedShares;
    var sorted := SortShares(shares);
    SortIsOrdered(shares);
    OrderedIncreasing(sorted);
    forall k | 0 <= k < |sorted| ensures sorted[k].index < batch.N() { SortMember(shares, sorted[k]); }
    OrderedShares(batch, sorted);
  }

  /** `kzg_interpolate_all_without_proofs` on sorted shares. */
  method KzgInterpolateAllWithoutProofs(batch: BatchDomain, n: nat, shares: seq<KzgShare>, ghost row: seq<Scalar>)
    returns (values: seq<Scalar>)
    requires n <= batch.N() && SortedShares(batch, batch.N(), shares) && |row| <= |shares|
    ensures |values| == n
    ensures (forall k :: 0 <= k < |shares| ==> OnRow(batch, row, shares[k])) ==>
      forall i :: 0 <= i < n ==> values[i] == Red(Eval(row, batch.omegas[i]))
  {
    hide Basis, Bases, DotTo, Eval, Completed;
    var res := CompleteEvaluations(batch.N(), shares, batch);
    values := res[..n];
    if forall k :: 0 <= k < |shares| ==> OnRow(batch, row, shares[k]) {
      forall i: nat | i < n ensures values[i] == Red(Eval(row, batch.omegas[i])) {
        if i in Indices(shares) {
          var k :| 0 <= k < |shares| && Indices(shares)[k] == i;
          assert OnRow(batch, row, shares[k]);
        } else {
          CompletionIsEvaluation(batch.N(), shares, batch, row, i);
        }
      }
    }
  }

  predicate Opens(batch: BatchDomain, s: Setup, comm: G1, share: KzgShare) {
    share.index < |batch.omegas| && Verify(s, comm, batch.omegas[share.index], share.value, share.proof)
  }

  method FinishRow(batch: BatchDomain, n: nat, shares: seq<KzgShare>, ghost row: seq<Scalar>) returns (values: seq<Scalar>)
    requires ValidBatch(batch) && batch.N() > 1 && n <= batch.N() && 0 < |shares| <= batch.N() && |row| <= |shares|
    requires DistinctIndices(shares) && forall k :: 0 <= k < |shares| ==> shares[k].index < batch.N()
    ensures |values| == n
    ensures (forall k :: 0 <= k < |shares| ==> OnRow(batch, row, shares[k])) ==>
      forall i :: 0 <= i < n ==> values[i] == Red(Eval(row, batch.omegas[i]))
    ensures RowDone(batch, n, |shares|, shares, row, Done(values))
  {
    hide ValidBatch, OnRow, Eval, DistinctIndices, SortedShares;
    SortedSelection(batch, shares);
    var sorted := SortShares(shares);
    if forall k :: 0 <= k < |shares| ==> OnRow(batch, row, shares[k]) {
      forall k | 0 <= k < |sorted| ensures OnRow(batch, row, sorted[k]) { SortMember(shares, sorted[k]); }
    }
    values := KzgInterpolateAllWithoutProofs(batch, n, sorted, row);
  }

  /** The messages the loop looks at: it skips a message while the node already has
      shares from all n players (`full`). */
  function Handled(msgs: seq<KzgShare>, full: seq<bool>): (r: seq<KzgShare>)
    requires |full| == |msgs|
    ensures |r| <= |msgs| && forall k :: 0 <= k < |r| ==> r[k] in msgs
  {
    if |msgs| == 0 then []
    else
      var before := Handled(msgs[..|msgs| - 1], full[..|full| - 1]);
      if full[|full| - 1] then before else before + [msgs[|msgs| - 1]]
  }

  lemma HandledStep(msgs: seq<KzgShare>, full: seq<bool>, k: nat)
    requires k < |msgs| == |full|
    ensures var before := Handled(msgs[..k], full[..k]);
            Handled(msgs[..k + 1], full[..k + 1]) == if full[k] then before else before + [msgs[k]]
  {
    assert msgs[..k + 1][..k] == msgs[..k] && full[..k + 1][..k] == full[..k];
  }

  lemma {:induction false} HandledDistinct(msgs: seq<KzgShare>, full: seq<bool>)
    requires |full| == |msgs| && DistinctIndices(msgs)
    ensures DistinctIndices(Handled(msgs, full))
  {
    if |msgs| > 0 { HandledDistinct(msgs[..|msgs| - 1], full[..|full| - 1]); }
  }

  lemma {:induction false} HandledPrefix(msgs: seq<KzgShare>, full: seq<bool>, k: nat)
    requires k <= |msgs| == |full|
    ensures Handled(msgs[..k], full[..k]) <= Handled(msgs, full)
  {
    if k < |msgs| {
      var n := |msgs| - 1;
      HandledPrefix(msgs[..n], full[..n], k);
      assert msgs[..n][..k] == msgs[..k] && full[..n][..k] == full[..k];
    } else {
      assert msgs[..k] == msgs && full[..k] == full;
    }
  }

  /** The positions of the messages the loop looks at. */
  ghost function LookedAt(full: seq<bool>): set<nat> {
    set k: nat | k < |full| && !full[k]
  }

  lemma {:induction false} HandledAre(msgs: seq<KzgShare>, full: seq<bool>)
    requires |full| == |msgs|
    ensures |Handled(msgs, full)| == |LookedAt(full)|
    ensures forall share :: share in Handled(msgs, full) <==> exists k :: 0 <= k < |msgs| && !full[k] && msgs[k] == share
  {
    if |msgs| > 0 {
      var last := |msgs| - 1;
      HandledAre(msgs[..last], full[..last]);
      LookedStep(full[..last], full[last]);
      assert full[..last] + [full[last]] == full;
    }
  }

  lemma LookedStep(full: seq<bool>, flag: bool)
    ensures |LookedAt(full + [flag])| == |LookedAt(full)| + if flag then 0 else 1
  {
    var all, before, after, n := full + [flag], LookedAt(full), LookedAt(full + [flag]), |full|;
    assert all[n] == flag;
    if flag {
      assert after == before;
    } else {
      assert n in after;
      assert after == before + {n};
    }
  }

  /** The row a completed line manager holds: the values of `row` at the roots of the
      players, when the first `enough` handled messages lie on it. */
  ghost predicate RowDone(batch: BatchDomain, n: nat, enough: nat, handled: seq<KzgShare>, row: seq<Scalar>, r: LineResult)
    requires r.Done? && enough <= |handled| && n <= |batch.omegas|
  {
    && |r.row| == n
    && ((forall k :: 0 <= k < enough ==> OnRow(batch, row, handled[k])) ==>
          forall i :: 0 <= i < n ==> r.row[i] == Red(Eval(row, batch.omegas[i])))
  }

  /** The state of the loop after the given handled messages. */
  ghost predicate LineState(batch: BatchDomain, s: Setup, n: nat, enough: nat, comm: G1, handled: seq<KzgShare>,
                            row: seq<Scalar>, r: LineResult)
    requires n <= |batch.omegas|
  {
    && (r.Panic? <==> exists k :: 0 <= k < |handled| && !Opens(batch, s, comm, handled[k]))
    && (r.Done? <==> !r.Panic? && |handled| >= enough)
    && (r.Done? ==> RowDone(batch, n, enough, handled, row, r))
  }

  /** `line_manager` at player m: it aborts exactly if a handled message does not
      open row m; the first 2t+1 handled messages complete the row, to the dealt one when
      their values lie on it. */
  method LineManager(batch: BatchDomain, s: Setup, n: nat, t: nat, comm: G1, msgs: seq<KzgShare>, full: seq<bool>,
                     ghost row: seq<Scalar>)
    returns (r: LineResult)
    requires ValidBatch(batch) && batch.N() > 1 && n <= batch.N() && 2 * t + 1 <= batch.N() && |row| <= 2 * t + 1
    requires DistinctIndices(msgs) && forall k :: 0 <= k < |msgs| ==> msgs[k].index < batch.N()
    requires |full| == |msgs|
    ensures LineState(batch, s, n, 2 * t + 1, comm, Handled(msgs, full), row, r)
    ensures r.Panic? <==> exists k ::
      && 0 <= k < |msgs| && !full[k]
      && !Verify(s, comm, batch.omegas[msgs[k].index], msgs[k].value, msgs[k].proof)
    ensures r.Done? <==> !r.Panic? && |LookedAt(full)| >= 2 * t + 1
  {
    hide ValidBatch, Verify, LookedAt, Opens, OnRow, LineState, Handled, DistinctIndices;
    var enough := 2 * t + 1;
    var shares: seq<KzgShare> := [];
    r := Waiting;
    LineStart(batch, s, n, enough, comm, row, msgs, full);
    for k := 0 to |msgs|
      invariant shares == Handled(msgs[..k], full[..k]) && !r.Panic?
      invariant LineState(batch, s, n, enough, comm, shares, row, r)
    {
      HandledStep(msgs, full, k);
      if full[k] {
        continue;
      }
      var before := shares;
      if !Opens(batch, s, comm, msgs[k]) {
        HandledPrefix(msgs, full, k + 1);
        LineFails(batch, s, n, enough, comm, before, msgs[k], Handled(msgs, full), row);
        LineOutcome(batch, s, n, enough, comm, msgs, full, row, Panic);
        return Panic;
      }
      shares := shares + [msgs[k]];
      HandledDistinct(msgs, full);
      HandledPrefix(msgs, full, k + 1);
      PrefixDistinct(shares, Handled(msgs, full));
      if |shares| == enough {
        var values := FinishRow(batch, n, shares, row);
        LineCompletes(batch, s, n, enough, comm, before, msgs[k], row, r, values);
        r := Done(values);
      } else {
        LineGrows(batch, s, n, enough, comm, before, msgs[k], row, r);
      }
    }
    assert msgs[..|msgs|] == msgs && full[..|full|] == full;
    LineOutcome(batch, s, n, enough, comm, msgs, full, row, r);
  }

  lemma LineOutcome(batch: BatchDomain, s: Setup, n: nat, enough: nat, comm: G1, msgs: seq<KzgShare>, full: seq<bool>,
                    row: seq<Scalar>, r: LineResult)
    requires n <= |batch.omegas| && |full| == |msgs| && forall k :: 0 <= k < |msgs| ==> msgs[k].index < |batch.omegas|
    requires LineState(batch, s, n, enough, comm, Handled(msgs, full), row, r)
    ensures r.Panic? <==> exists k ::
      && 0 <= k < |msgs| && !full[k]
      && !Verify(s, comm, batch.omegas[msgs[k].index], msgs[k].value, msgs[k].proof)
    ensures r.Done? <==> !r.Panic? && |LookedAt(full)| >= enough
  {
    hide Verify, RowDone, Handled, LookedAt;
    HandledAre(msgs, full);
    var handled := Handled(msgs, full);
    if r.Panic? {
      var k :| 0 <= k < |handled| && !Opens(batch, s, comm, handled[k]);
      assert handled[k] in handled;
    }
    if k :| 0 <= k < |msgs| && !full[k] && !Verify(s, comm, batch.omegas[msgs[k].index], msgs[k].value, msgs[k].proof) {
      assert msgs[k] in handled && !Opens(batch, s, comm, msgs[k]);
    }
  }

  lemma PrefixDistinct(a: seq<KzgShare>, b: seq<KzgShare>)
    requires a <= b && DistinctIndices(b)
    ensures DistinctIndices(a)
  {}

  lemma LineStart(batch: BatchDomain, s: Setup, n: nat, enough: nat, comm: G1, row: seq<Scalar>, msgs: seq<KzgShare>,
                  full: seq<bool>)
    requires n <= |batch.omegas| && enough > 0 && |full| == |msgs|
    ensures Handled(msgs[..0], full[..0]) == []
    ensures LineState(batch, s, n, enough, comm, [], row, Waiting)
  {}

  lemma LineFails(batch: BatchDomain, s: Setup, n: nat, enough: nat, comm: G1, before: seq<KzgShare>, msg: KzgShare,
                  all: seq<KzgShare>, row: seq<Scalar>)
    requires n <= |batch.omegas| && before + [msg] <= all && !Opens(batch, s, comm, msg)
    ensures LineState(batch, s, n, enough, comm, all, row, Panic)
  {
    hide Opens;
    assert all[|before|] == msg;
  }

  lemma LineGrows(batch: BatchDomain, s: Setup, n: nat, enough: nat, comm: G1, before: seq<KzgShare>, msg: KzgShare,
                  row: seq<Scalar>, r: LineResult)
    requires n <= |batch.omegas| && Opens(batch, s, comm, msg) && !r.Panic? && |before| + 1 != enough
    requires LineState(batch, s, n, enough, comm, before, row, r)
    ensures LineState(batch, s, n, enough, comm, before + [msg], row, r)
  {
    hide Opens, OnRow, Eval;
    var after := before + [msg];
    if r.Done? && forall k :: 0 <= k < enough ==> OnRow(batch, row, after[k]) {
      assert forall k :: 0 <= k < enough ==> before[k] == after[k];
    }
  }

  lemma LineCompletes(batch: BatchDomain, s: Setup, n: nat, enough: nat, comm: G1, before: seq<KzgShare>, msg: KzgShare,
                      row: seq<Scalar>, r: LineResult, values: seq<Scalar>)
    requires n <= |batch.omegas| && Opens(batch, s, comm, msg) && !r.Panic? && |before| + 1 == enough == |before + [msg]|
    requires LineState(batch, s, n, enough, comm, before, row, r)
    requires RowDone(batch, n, enough, before + [msg], row, Done(values))
    ensures LineState(batch, s, n, enough, comm, before + [msg], row, Done(values))
  {
    hide Opens, RowDone;
  }
}
