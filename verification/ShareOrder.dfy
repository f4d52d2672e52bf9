/** Sorting shares by index, as `shares.sort()` does with the order of share.rs. */
module ShareOrder {
  import opened Scheme

  function InsertShare(share: KzgShare, sorted: seq<KzgShare>): (r: seq<KzgShare>)
    ensures multiset(r) == multiset(sorted) + multiset{share}
  {
    if |sorted| == 0 || share.index <= sorted[0].index then [share] + sorted
    else
      assert sorted == [sorted[0]] + sorted[1..];
      [sorted[0]] + InsertShare(share, sorted[1..])
  }

  function SortShares(shares: seq<KzgShare>): (r: seq<KzgShare>)
    ensures multiset(r) == multiset(shares) && |r| == |shares|
  {
    if |shares| == 0 then []
    else
      assert shares == shares[..|shares| - 1] + [shares[|shares| - 1]];
      assert |multiset(shares)| == |shares|;
      var r := InsertShare(shares[|shares| - 1], SortShares(shares[..|shares| - 1]));
      assert |multiset(r)| == |r|;
      r
  }

  ghost predicate DistinctIndices(shares: seq<KzgShare>) {
    forall i, j :: 0 <= i < j < |shares| ==> shares[i].index != shares[j].index
  }

  ghost predicate Below(i: nat, shares: seq<KzgShare>) {
    forall o :: o in shares ==> i < o.index
  }

  ghost predicate Ordered(shares: seq<KzgShare>) {
    |shares| > 0 ==> Below(shares[0].index, shares[1..]) && Ordered(shares[1..])
  }

  lemma InsertMember(share: KzgShare, sorted: seq<KzgShare>, other: KzgShare)
    ensures other in InsertShare(share, sorted) <==> other in sorted || other == share
  {
    assert other in multiset(InsertShare(share, sorted)) <==> other in multiset(sorted) || other == share;
  }

  lemma {:induction false} InsertKeepsOrder(share: KzgShare, sorted: seq<KzgShare>)
    requires Ordered(sorted) && forall o :: o in sorted ==> o.index != share.index
    ensures Ordered(InsertShare(share, sorted))
  {
    if |sorted| == 0 {
    } else if share.index <= sorted[0].index {
      assert ([share] + sorted)[1..] == sorted == [sorted[0]] + sorted[1..];
      assert Below(share.index, sorted);
    } else {
      var rest := sorted[1..];
      InsertKeepsOrder(share, rest);
      forall o | o in InsertShare(share, rest) ensures sorted[0].index < o.index { InsertMember(share, rest, o); }
      assert InsertShare(share, sorted)[1..] == InsertShare(share, rest);
    }
  }

  lemma SortMember(shares: seq<KzgShare>, share: KzgShare)
    ensures share in SortShares(shares) <==> share in shares
  {
    assert share in multiset(SortShares(shares)) <==> share in multiset(shares);
  }

  lemma {:induction false} SortIsOrdered(shares: seq<KzgShare>)
    requires DistinctIndices(shares)
    ensures Ordered(SortShares(shares))
  {
    if |shares| > 0 {
      var init, last := shares[..|shares| - 1], shares[|shares| - 1];
      SortIsOrdered(init);
      forall o | o in SortShares(init) ensures o.index != last.index { SortMember(init, o); }
      InsertKeepsOrder(last, SortShares(init));
    }
  }

  lemma {:induction false} OrderedEntries(shares: seq<KzgShare>, i: nat, j: nat)
    requires Ordered(shares) && i < j < |shares|
    ensures shares[i].index < shares[j].index
  {
    assert shares[j] == shares[1..][j - 1];
    if i > 0 {
      OrderedEntries(shares[1..], i - 1, j - 1);
    } else {
      assert shares[j] in shares[1..];
    }
  }
}
