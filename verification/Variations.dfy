/** The experiment counter (config_treatment/variations.rs, result_fields.rs): five
    digits, of which one has a radix that depends on another and one skips the
    algorithms that do not support the current step. */
module Variations {
  import opened Options

  datatype Step = Sharing | Reconstruct

  datatype Algo = AvssSimpl | DualAvssSimpl | Bingo | LightWeight | Badger | HbAvss | Haven

  datatype TypeField = N | DealerCorruption | BatchSize | TDenom | LDenom | NbByz | T | L

  type Curve = seq<nat>

  predicate Support(a: Algo, s: Step) {
    match a
    case Badger => true
    case Bingo => true
    case AvssSimpl => true
    case DualAvssSimpl => true
    case _ => s == Sharing
  }

  /** What is varied: the steps, the algorithms, the values of the secondary fields
      and the values of the main field. */
  datatype Data = Data(steps: seq<Step>, algos: seq<Algo>, subs: seq<(TypeField, seq<nat>)>, main: seq<nat>)

  /** Nothing that is indexed is empty. */
  ghost predicate ValidData(d: Data) {
    |d.steps| > 0 && |d.algos| > 0 && |d.main| > 0 && forall k :: 0 <= k < |d.subs| ==> |d.subs[k].1| > 0
  }

  datatype Digits = Digits(step: nat, algo: nat, subvaried: nat, sub: nat, main: nat)

  const FIRST := Digits(0, 0, 0, 0, 0)

  ghost predicate InRange(d: Data, g: Digits) {
    && g.step < |d.steps| && g.algo < |d.algos| && g.main < |d.main|
    && if |d.subs| == 0 then g.subvaried == 0 && g.sub == 0
       else g.subvaried < |d.subs| && g.sub < |d.subs[g.subvaried].1|
  }

  /** A combination to run: the algorithm supports the step. */
  ghost predicate Combination(d: Data, g: Digits) {
    InRange(d, g) && Support(d.algos[g.algo], d.steps[g.step])
  }

  // ---- the rank of a combination ----

  /** Supported algorithms of step s below index a. */
  ghost function SupportedBefore(d: Data, s: nat, a: nat): nat
    requires s < |d.steps| && a <= |d.algos|
  {
    if a == 0 then 0 else SupportedBefore(d, s, a - 1) + if Support(d.algos[a - 1], d.steps[s]) then 1 else 0
  }

  /** Supported pairs of steps below s. */
  ghost function PairsBefore(d: Data, s: nat): nat
    requires s <= |d.steps|
  {
    if s == 0 then 0 else PairsBefore(d, s - 1) + SupportedBefore(d, s - 1, |d.algos|)
  }

  ghost function PairRank(d: Data, s: nat, a: nat): nat
    requires s < |d.steps| && a <= |d.algos|
  {
    PairsBefore(d, s) + SupportedBefore(d, s, a)
  }

  /** Secondary values of the fields below k. */
  ghost function SubsBefore(d: Data, k: nat): nat
    requires k <= |d.subs|
  {
    if k == 0 then 0 else SubsBefore(d, k - 1) + |d.subs[k - 1].1|
  }

  ghost function SubTotal(d: Data): nat {
    if |d.subs| == 0 then 1 else SubsBefore(d, |d.subs|)
  }

  ghost function SubRank(d: Data, g: Digits): nat
    requires InRange(d, g)
  {
    SubsBefore(d, g.subvaried) + g.sub
  }

  /** Mixed radix: high * size + low. */
  ghost function Place(high: nat, size: nat, low: nat): nat {
    high * size + low
  }

  /** The curve a combination belongs to: everything but the main value. */
  ghost function Block(d: Data, g: Digits): nat
    requires InRange(d, g)
  {
    Place(PairRank(d, g.step, g.algo), SubTotal(d), SubRank(d, g))
  }

  ghost function Rank(d: Data, g: Digits): nat
    requires InRange(d, g)
  {
    Place(Block(d, g), |d.main|, g.main)
  }

  /** The number of combinations: supported pairs, times secondary values, times
      main values. */
  ghost function Total(d: Data): nat {
    Place(Place(PairsBefore(d, |d.steps|), SubTotal(d), 0), |d.main|, 0)
  }

  // ---- arithmetic of places ----

  lemma PlaceNext(high: nat, size: nat)
    requires size > 0
    ensures Place(high, size, size - 1) + 1 == Place(high + 1, size, 0)
  {}

  lemma PlaceSuccessor(high: nat, size: nat, low: nat)
    ensures Place(high, size, low + 1) == Place(high, size, low) + 1
  {}

  lemma PlaceMonotone(high: nat, size: nat, low: nat, bound: nat)
    requires low < size && high < bound
    ensures Place(high, size, low) < Place(bound, size, 0)
  {
    TimesMonotone(high + 1, bound, size);
  }

  lemma TimesMonotone(x: nat, y: nat, z: nat)
    requires x <= y
    ensures x * z <= y * z
  {}

  lemma PlaceInjective(high: nat, size: nat, low: nat, high': nat, low': nat)
    requires low < size && low' < size && Place(high, size, low) == Place(high', size, low')
    ensures high == high' && low == low'
  {
    if high < high' { PlaceMonotone(high, size, low, high'); }
    if high' < high { PlaceMonotone(high', size, low', high); }
  }

  // ---- ranks are injective ----

  lemma {:induction false} SupportedGrows(d: Data, s: nat, a: nat, b: nat)
    requires s < |d.steps| && a <= b <= |d.algos|
    ensures SupportedBefore(d, s, a) <= SupportedBefore(d, s, b)
    ensures a < b && Support(d.algos[a], d.steps[s]) ==> SupportedBefore(d, s, a) < SupportedBefore(d, s, b)
  {
    if a < b { SupportedGrows(d, s, a, b - 1); }
  }

  lemma {:induction false} PairsGrow(d: Data, s: nat, r: nat)
    requires s <= r <= |d.steps|
    ensures PairsBefore(d, s) <= PairsBefore(d, r)
  {
    if s < r { PairsGrow(d, s, r - 1); }
  }

  /** Earlier supported pairs rank lower. */
  lemma PairOrder(d: Data, s: nat, a: nat, r: nat, b: nat)
    requires s < |d.steps| && r < |d.steps| && a < |d.algos| && b < |d.algos| && Support(d.algos[a], d.steps[s])
    requires s < r || (s == r && a < b)
    ensures PairRank(d, s, a) < PairRank(d, r, b)
  {
    if s == r {
      SupportedGrows(d, s, a, b);
    } else {
      SupportedGrows(d, s, a, |d.algos|);
      PairsGrow(d, s + 1, r);
    }
  }

  lemma {:induction false} SubsGrow(d: Data, k: nat, l: nat)
    requires k <= l <= |d.subs|
    ensures SubsBefore(d, k) <= SubsBefore(d, l)
    ensures k < l ==> SubsBefore(d, k) + |d.subs[k].1| <= SubsBefore(d, l)
  {
    if k < l { SubsGrow(d, k, l - 1); }
  }

  lemma SubRankBound(d: Data, g: Digits)
    requires InRange(d, g)
    ensures SubRank(d, g) < SubTotal(d)
  {
    if |d.subs| > 0 { SubsGrow(d, g.subvaried, |d.subs|); }
  }

  lemma SubRankInjective(d: Data, g: Digits, h: Digits)
    requires InRange(d, g) && InRange(d, h) && SubRank(d, g) == SubRank(d, h)
    ensures g.subvaried == h.subvaried && g.sub == h.sub
  {
    if |d.subs| > 0 {
      if g.subvaried < h.subvaried { SubsGrow(d, g.subvaried, h.subvaried); }
      if h.subvaried < g.subvaried { SubsGrow(d, h.subvaried, g.subvaried); }
    }
  }

  lemma PairRankBound(d: Data, g: Digits)
    requires Combination(d, g)
    ensures PairRank(d, g.step, g.algo) < PairsBefore(d, |d.steps|)
  {
    SupportedGrows(d, g.step, g.algo, |d.algos|);
    PairsGrow(d, g.step + 1, |d.steps|);
  }

  lemma SameBlock(d: Data, g: Digits, h: Digits)
    requires Combination(d, g) && Combination(d, h) && Block(d, g) == Block(d, h)
    ensures g == h.(main := g.main)
  {
    hide Place, PairRank;
    SubRankBound(d, g);
    SubRankBound(d, h);
    PlaceInjective(PairRank(d, g.step, g.algo), SubTotal(d), SubRank(d, g), PairRank(d, h.step, h.algo), SubRank(d, h));
    SubRankInjective(d, g, h);
    if g.step < h.step || (g.step == h.step && g.algo < h.algo) { PairOrder(d, g.step, g.algo, h.step, h.algo); }
    if h.step < g.step || (h.step == g.step && h.algo < g.algo) { PairOrder(d, h.step, h.algo, g.step, g.algo); }
  }

  /** Different combinations have different ranks. */
  lemma RankInjective(d: Data, g: Digits, h: Digits)
    requires Combination(d, g) && Combination(d, h) && Rank(d, g) == Rank(d, h)
    ensures g == h
  {
    hide Place, Block;
    PlaceInjective(Block(d, g), |d.main|, g.main, Block(d, h), h.main);
    SameBlock(d, g, h);
  }

  /** Every combination ranks below the total. */
  lemma RankBelowTotal(d: Data, g: Digits)
    requires Combination(d, g)
    ensures Rank(d, g) < Total(d)
  {
    hide Place, PairRank;
    SubRankBound(d, g);
    PairRankBound(d, g);
    PlaceMonotone(PairRank(d, g.step, g.algo), SubTotal(d), SubRank(d, g), PairsBefore(d, |d.steps|));
    PlaceMonotone(Block(d, g), |d.main|, g.main, Place(PairsBefore(d, |d.steps|), SubTotal(d), 0));
  }

  /** A trace that starts at rank 0 and climbs by one to the last rank visits every
      combination exactly once, at the position of its rank. */
  lemma EachExactlyOnce(d: Data, trace: seq<Digits>, g: Digits)
    requires |trace| == Total(d) && Combination(d, g)
    requires forall k :: 0 <= k < |trace| ==> Combination(d, trace[k]) && Rank(d, trace[k]) == k
    ensures Rank(d, g) < |trace| && trace[Rank(d, g)] == g
    ensures forall k :: 0 <= k < |trace| && trace[k] == g ==> k == Rank(d, g)
  {
    RankBelowTotal(d, g);
    RankInjective(d, trace[Rank(d, g)], g);
  }

  // ---- the curves ----

  /** The key of a curve: the algorithm and, with secondary fields, the label made of
      the current one and its value. */
  datatype Key = Key(algo: Algo, variant: Option<(TypeField, nat)>)

  type Curves = map<Step, map<Key, seq<Curve>>>

  ghost function List(c: Curves, s: Step, k: Key): seq<Curve> {
    if s in c && k in c[s] then c[s][k] else []
  }

  /** `ResultCurves::insert`: an absent step first gets an empty map. */
  method Insert(c: Curves, curve: Curve, step: Step, key: Key) returns (r: Curves)
    ensures forall s, k :: List(r, s, k) == List(c, s, k) + if s == step && k == key then [curve] else []
    decreases step !in c
  {
    if step in c {
      var algoMap := c[step];
      if key in algoMap {
        algoMap := algoMap[key := algoMap[key] + [curve]];
      } else {
        algoMap := algoMap[key := [curve]];
      }
      r := c[step := algoMap];
    } else {
      r := Insert(c[step := map[]], curve, step, key);
    }
  }

  /** The key the current digits store under. */
  function KeyOf(d: Data, g: Digits): Key
    requires g.algo < |d.algos| && (|d.subs| > 0 ==> g.subvaried < |d.subs| && g.sub < |d.subs[g.subvaried].1|)
  {
    var a := d.algos[g.algo];
    if |d.subs| > 0 then Key(a, Some((d.subs[g.subvaried].0, d.subs[g.subvaried].1[g.sub]))) else Key(a, None)
  }

  /** Combinations that store under the same step and key belong to one block. */
  ghost predicate DistinctData(d: Data) {
    forall g, h :: Combination(d, g) && Combination(d, h) && d.steps[g.step] == d.steps[h.step] && KeyOf(d, g) == KeyOf(d, h)
      ==> g == h.(main := g.main)
  }

  /** No step, algorithm or secondary value is listed twice. */
  ghost predicate DuplicateFree(d: Data) {
    && (forall i, j :: 0 <= i < j < |d.steps| ==> d.steps[i] != d.steps[j])
    && (forall i, j :: 0 <= i < j < |d.algos| ==> d.algos[i] != d.algos[j])
    && forall k, l, i, j :: Listed(d, k, i) && Listed(d, l, j) && SubAt(d, k, i) == SubAt(d, l, j) ==> k == l && i == j
  }

  ghost predicate Listed(d: Data, k: nat, i: nat) {
    k < |d.subs| && i < |d.subs[k].1|
  }

  /** A secondary field with one of its values. */
  ghost function SubAt(d: Data, k: nat, i: nat): (TypeField, nat)
    requires Listed(d, k, i)
  {
    (d.subs[k].0, d.subs[k].1[i])
  }

  lemma DuplicateFreeIsDistinct(d: Data)
    requires DuplicateFree(d)
    ensures DistinctData(d)
  {
    forall g, h | Combination(d, g) && Combination(d, h) && d.steps[g.step] == d.steps[h.step] && KeyOf(d, g) == KeyOf(d, h)
      ensures g == h.(main := g.main)
    {
      assert g.step == h.step && g.algo == h.algo;
      if |d.subs| > 0 {
        assert Listed(d, g.subvaried, g.sub) && Listed(d, h.subvaried, h.sub);
        assert SubAt(d, g.subvaried, g.sub) == SubAt(d, h.subvaried, h.sub);
      }
    }
  }

  /** Listing an algorithm twice mixes two blocks under one key. */
  lemma RepeatedAlgorithm()
    ensures ValidData(Data([Sharing], [Bingo, Bingo], [], [0])) && !DistinctData(Data([Sharing], [Bingo, Bingo], [], [0]))
  {
    var d := Data([Sharing], [Bingo, Bingo], [], [0]);
    var g, h := Digits(0, 0, 0, 0, 0), Digits(0, 1, 0, 0, 0);
    assert Combination(d, g) && Combination(d, h) && KeyOf(d, g) == KeyOf(d, h);
  }

  /** How many main values of the block of g are done once the first `rank` results
      are in. */
  ghost function DoneOf(d: Data, g: Digits, rank: nat): nat
    requires InRange(d, g)
  {
    var base := Place(Block(d, g), |d.main|, 0);
    if rank <= base then 0 else if rank - base >= |d.main| then |d.main| else rank - base
  }

  /** n entries from position `from`. */
  ghost function Slice(results: seq<Curve>, from: nat, n: nat): seq<Curve> {
    if from + n <= |results| then results[from..from + n] else []
  }

  /** The curve list of a block is the results of its main values, in order. */
  ghost predicate Stored(d: Data, c: Curves, results: seq<Curve>, g: Digits)
    requires InRange(d, g)
  {
    List(c, d.steps[g.step], KeyOf(d, g)) ==
      Slice(results, Place(Block(d, g), |d.main|, 0), DoneOf(d, g, |results|))
  }

  lemma SliceExtends(results: seq<Curve>, curve: Curve, from: nat, n: nat)
    ensures from + n == |results| ==> Slice(results + [curve], from, n + 1) == Slice(results, from, n) + [curve]
    ensures from + n <= |results| || n == 0 ==> Slice(results + [curve], from, n) == Slice(results, from, n)
  {}

  ghost predicate AllStored(d: Data, c: Curves, results: seq<Curve>) {
    forall g :: Combination(d, g) ==> Stored(d, c, results, g)
  }

  lemma DoneElsewhere(d: Data, g: Digits, h: Digits)
    requires InRange(d, g) && InRange(d, h) && Block(d, g) != Block(d, h)
    ensures DoneOf(d, h, Rank(d, g)) == DoneOf(d, h, Rank(d, g) + 1)
  {
    hide Block;
    var b, c, n := Block(d, g), Block(d, h), |d.main|;
    if b < c {
      PlaceMonotone(b, n, g.main, c);
    } else {
      PlaceNext(c, n);
      TimesMonotone(c + 1, b, n);
    }
  }

  lemma DoneHere(d: Data, g: Digits)
    requires InRange(d, g)
    ensures DoneOf(d, g, Rank(d, g)) == g.main && DoneOf(d, g, Rank(d, g) + 1) == g.main + 1
    ensures Place(Block(d, g), |d.main|, 0) + g.main == Rank(d, g)
  {
    hide Block;
  }

  /** Storing the result of the current combination under its key. */
  lemma StoreStep(d: Data, c: Curves, c': Curves, results: seq<Curve>, curve: Curve, g: Digits, h: Digits)
    requires DistinctData(d) && Combination(d, g) && Combination(d, h) && Rank(d, g) == |results|
    requires Stored(d, c, results, h)
    requires forall s, k ::
      List(c', s, k) == List(c, s, k) + if s == d.steps[g.step] && k == KeyOf(d, g) then [curve] else []
    ensures Stored(d, c', results + [curve], h)
  {
    hide Rank, Block, DoneOf, KeyOf, List, Place, Slice;
    if Block(d, g) == Block(d, h) {
      SameBlock(d, g, h);
      SameKey(d, g, h);
      SameDone(d, g, h, |results|);
      SameDone(d, g, h, |results| + 1);
      DoneHere(d, g);
      SliceExtends(results, curve, Place(Block(d, g), |d.main|, 0), g.main);
      assert List(c', d.steps[h.step], KeyOf(d, h)) == List(c, d.steps[h.step], KeyOf(d, h)) + [curve];
    } else {
      DoneElsewhere(d, g, h);
      OtherKey(d, g, h);
      var s, k := d.steps[h.step], KeyOf(d, h);
      assert List(c', s, k) == List(c, s, k) + [];
      StoredLonger(d, c, c', results, curve, h);
    }
  }

  lemma StoredLonger(d: Data, c: Curves, c': Curves, results: seq<Curve>, curve: Curve, h: Digits)
    requires InRange(d, h) && Stored(d, c, results, h)
    requires List(c', d.steps[h.step], KeyOf(d, h)) == List(c, d.steps[h.step], KeyOf(d, h))
    requires DoneOf(d, h, |results|) == DoneOf(d, h, |results| + 1)
    ensures Stored(d, c', results + [curve], h)
  {
    DoneFits(d, h, |results|);
    hide Block, DoneOf, KeyOf, List, Place, Slice;
    SliceExtends(results, curve, Place(Block(d, h), |d.main|, 0), DoneOf(d, h, |results|));
  }

  lemma DoneFits(d: Data, h: Digits, rank: nat)
    requires InRange(d, h)
    ensures Place(Block(d, h), |d.main|, 0) + DoneOf(d, h, rank) <= rank || DoneOf(d, h, rank) == 0
  {
    hide Block, Place;
  }

  lemma SameKey(d: Data, g: Digits, h: Digits)
    requires InRange(d, g) && InRange(d, h) && g == h.(main := g.main)
    ensures KeyOf(d, g) == KeyOf(d, h)
  {}

  lemma SameDone(d: Data, g: Digits, h: Digits, rank: nat)
    requires InRange(d, g) && InRange(d, h) && Block(d, g) == Block(d, h)
    ensures DoneOf(d, g, rank) == DoneOf(d, h, rank)
  {
    hide Block;
  }

  lemma OtherKey(d: Data, g: Digits, h: Digits)
    requires DistinctData(d) && Combination(d, g) && Combination(d, h) && Block(d, g) != Block(d, h)
    ensures d.steps[g.step] != d.steps[h.step] || KeyOf(d, g) != KeyOf(d, h)
  {
    hide KeyOf;
  }

  // ---- exactly when the lists come out right ----

  ghost predicate StoredUnder(d: Data, g: Digits, s: Step, k: Key) {
    InRange(d, g) && d.steps[g.step] == s && KeyOf(d, g) == k
  }

  /** How many combinations of the trace store under the key. */
  ghost function CountUnder(d: Data, trace: seq<Digits>, s: Step, k: Key): nat {
    if |trace| == 0 then 0
    else CountUnder(d, trace[..|trace| - 1], s, k) + if StoredUnder(d, trace[|trace| - 1], s, k) then 1 else 0
  }

  ghost predicate CountsMatch(d: Data, c: Curves, trace: seq<Digits>) {
    forall s, k :: |List(c, s, k)| == CountUnder(d, trace, s, k)
  }

  lemma CountStep(d: Data, c: Curves, c': Curves, trace: seq<Digits>, curve: Curve, g: Digits)
    requires CountsMatch(d, c, trace) && InRange(d, g)
    requires forall s, k ::
      List(c', s, k) == List(c, s, k) + if s == d.steps[g.step] && k == KeyOf(d, g) then [curve] else []
    ensures CountsMatch(d, c', trace + [g])
  {
    hide List, KeyOf;
    assert (trace + [g])[..|trace|] == trace;
  }

  lemma {:induction false} CountRange(d: Data, trace: seq<Digits>, s: Step, k: Key, lo: nat, hi: nat)
    requires lo <= hi <= |trace| && forall i :: lo <= i < hi ==> StoredUnder(d, trace[i], s, k)
    ensures CountUnder(d, trace[..hi], s, k) >= CountUnder(d, trace[..lo], s, k) + (hi - lo)
  {
    if lo < hi {
      CountRange(d, trace, s, k, lo, hi - 1);
      assert trace[..hi][..hi - 1] == trace[..hi - 1];
    }
  }

  lemma {:induction false} CountGrows(d: Data, trace: seq<Digits>, s: Step, k: Key, lo: nat, hi: nat)
    requires lo <= hi <= |trace|
    ensures CountUnder(d, trace[..lo], s, k) <= CountUnder(d, trace[..hi], s, k)
  {
    if lo < hi {
      CountGrows(d, trace, s, k, lo, hi - 1);
      assert trace[..hi][..hi - 1] == trace[..hi - 1];
    }
  }

  /** Every combination was run once, in the order of the ranks. */
  ghost predicate FullTrace(d: Data, trace: seq<Digits>) {
    |trace| == Total(d) && forall k :: 0 <= k < |trace| ==> Combination(d, trace[k]) && Rank(d, trace[k]) == k
  }

  /** The main values of a block are run one after the other. */
  lemma BlockRange(d: Data, trace: seq<Digits>, g: Digits)
    requires FullTrace(d, trace) && Combination(d, g)
    ensures Place(Block(d, g), |d.main|, 0) + |d.main| <= |trace|
    ensures forall i :: Place(Block(d, g), |d.main|, 0) <= i < Place(Block(d, g), |d.main|, 0) + |d.main| ==>
      StoredUnder(d, trace[i], d.steps[g.step], KeyOf(d, g))
  {
    var base := Place(Block(d, g), |d.main|, 0);
    hide Block, Place, KeyOf, Rank;
    BlockEntry(d, trace, g, base, |d.main| - 1);
    forall i | base <= i < base + |d.main| ensures StoredUnder(d, trace[i], d.steps[g.step], KeyOf(d, g)) {
      BlockEntry(d, trace, g, base, i - base);
    }
  }

  lemma BlockEntry(d: Data, trace: seq<Digits>, g: Digits, base: nat, m: nat)
    requires FullTrace(d, trace) && Combination(d, g) && m < |d.main| && base == Place(Block(d, g), |d.main|, 0)
    ensures base + m < |trace| && StoredUnder(d, trace[base + m], d.steps[g.step], KeyOf(d, g))
  {
    hide Block, KeyOf;
    var h := g.(main := m);
    BlockOfMain(d, g, m);
    assert Rank(d, h) == base + m;
    EachExactlyOnce(d, trace, h);
    SameKey(d, h, g);
  }

  lemma BlockOfMain(d: Data, g: Digits, m: nat)
    requires InRange(d, g) && m < |d.main|
    ensures Block(d, g.(main := m)) == Block(d, g)
  {}

  lemma SharedKey(d: Data, trace: seq<Digits>, g: Digits, h: Digits)
    requires FullTrace(d, trace) && Combination(d, g) && Combination(d, h) && Block(d, g) < Block(d, h)
    requires d.steps[g.step] == d.steps[h.step] && KeyOf(d, g) == KeyOf(d, h)
    ensures CountUnder(d, trace, d.steps[g.step], KeyOf(d, g)) >= 2 * |d.main|
  {
    hide Block, KeyOf, CountUnder, StoredUnder;
    var n, s, k := |d.main|, d.steps[g.step], KeyOf(d, g);
    var a, b := Place(Block(d, g), n, 0), Place(Block(d, h), n, 0);
    PlaceMonotone(Block(d, g), n, n - 1, Block(d, h));
    hide Place;
    BlockRange(d, trace, g);
    BlockRange(d, trace, h);
    CountRange(d, trace, s, k, a, a + n);
    CountGrows(d, trace, s, k, a + n, b);
    CountRange(d, trace, s, k, b, b + n);
    CountGrows(d, trace, s, k, b + n, |trace|);
    assert trace[..|trace|] == trace;
  }

  /** Position g.main of the list of g holds the result of g, and the list holds the
      results of its main values only. */
  ghost predicate ListOf(d: Data, c: Curves, results: seq<Curve>, g: Digits)
    requires InRange(d, g)
  {
    var variant := if |d.subs| > 0 then Some((d.subs[g.subvaried].0, d.subs[g.subvaried].1[g.sub])) else None;
    var l := List(c, d.steps[g.step], Key(d.algos[g.algo], variant));
    |l| == |d.main| && Rank(d, g) < |results| && l[g.main] == results[Rank(d, g)]
  }

  lemma StoredIsListOf(d: Data, c: Curves, results: seq<Curve>, g: Digits)
    requires Combination(d, g) && |results| == Total(d) && Stored(d, c, results, g)
    ensures ListOf(d, c, results, g)
  {
    hide Block, List;
    var last := g.(main := |d.main| - 1);
    BlockOfMain(d, g, last.main);
    RankBelowTotal(d, last);
  }

  /** After the last combination, every list holds the results of its main values, in
      order, exactly when no two blocks share a key. */
  lemma ListsExactlyWhenDistinct(d: Data, c: Curves, results: seq<Curve>, trace: seq<Digits>)
    requires ValidData(d) && FullTrace(d, trace) && |results| == |trace| && CountsMatch(d, c, trace)
    requires DistinctData(d) ==> AllStored(d, c, results)
    ensures (forall g :: Combination(d, g) ==> ListOf(d, c, results, g)) <==> DistinctData(d)
  {
    hide ListOf, Stored, KeyOf, Block;
    if DistinctData(d) {
      forall g | Combination(d, g) ensures ListOf(d, c, results, g) { StoredIsListOf(d, c, results, g); }
    } else {
      var g, h :| Combination(d, g) && Combination(d, h) && d.steps[g.step] == d.steps[h.step] &&
                  KeyOf(d, g) == KeyOf(d, h) && g != h.(main := g.main);
      if Block(d, g) == Block(d, h) { SameBlock(d, g, h); }
      if Block(d, g) < Block(d, h) { SharedKey(d, trace, g, h); } else { SharedKey(d, trace, h, g); }
      TooLong(d, c, results, trace, g);
    }
  }

  lemma TooLong(d: Data, c: Curves, results: seq<Curve>, trace: seq<Digits>, g: Digits)
    requires ValidData(d) && Combination(d, g) && CountsMatch(d, c, trace)
    requires CountUnder(d, trace, d.steps[g.step], KeyOf(d, g)) >= 2 * |d.main|
    ensures !ListOf(d, c, results, g)
  {
    hide Rank;
  }

  // ---- advancing the digits ----

  /** No supported algorithm lies between a0 and a, which is supported. */
  ghost predicate NextAlgo(d: Data, s: nat, a0: nat, a: nat) {
    && s < |d.steps| && a0 < a < |d.algos| && Support(d.algos[a], d.steps[s])
    && SupportedBefore(d, s, a) == SupportedBefore(d, s, a0 + 1)
  }

  ghost predicate NoFurtherAlgo(d: Data, s: nat, a0: nat) {
    s < |d.steps| && a0 < |d.algos| && SupportedBefore(d, s, |d.algos|) == SupportedBefore(d, s, a0 + 1)
  }

  /** The supported pair (s, a) has the given rank. */
  ghost predicate PairAt(d: Data, s: nat, a: nat, rank: nat) {
    s < |d.steps| && a < |d.algos| && Support(d.algos[a], d.steps[s]) && PairRank(d, s, a) == rank
  }

  lemma NextMain(d: Data, g: Digits)
    requires Combination(d, g) && g.main + 1 < |d.main|
    ensures Combination(d, g.(main := g.main + 1)) && Rank(d, g.(main := g.main + 1)) == Rank(d, g) + 1
  {
    hide Place;
    PlaceSuccessor(Block(d, g), |d.main|, g.main);
    assert Block(d, g.(main := g.main + 1)) == Block(d, g);
  }

  /** After the last main value comes the next block. */
  lemma NextBlock(d: Data, g: Digits, h: Digits)
    requires Combination(d, g) && g.main + 1 == |d.main|
    requires Combination(d, h) && h.main == 0 && Block(d, h) == Block(d, g) + 1
    ensures Rank(d, h) == Rank(d, g) + 1
  {
    hide Place, Block;
    PlaceNext(Block(d, g), |d.main|);
  }

  lemma NextSub(d: Data, g: Digits, h: Digits)
    requires ValidData(d) && Combination(d, g) && h == g.(main := 0, subvaried := h.subvaried, sub := h.sub)
    requires |d.subs| > 0
    requires if g.sub + 1 < |d.subs[g.subvaried].1| then h.subvaried == g.subvaried && h.sub == g.sub + 1
             else g.subvaried + 1 < |d.subs| && h.subvaried == g.subvaried + 1 && h.sub == 0
    ensures Combination(d, h) && Block(d, h) == Block(d, g) + 1
  {
    hide Place, PairRank;
    PlaceSuccessor(PairRank(d, g.step, g.algo), SubTotal(d), SubRank(d, g));
  }

  /** The last secondary value of the last secondary field. */
  ghost predicate LastSub(d: Data, g: Digits)
    requires InRange(d, g)
  {
    |d.subs| == 0 || (g.subvaried + 1 == |d.subs| && g.sub + 1 == |d.subs[g.subvaried].1|)
  }

  lemma LastSubRank(d: Data, g: Digits)
    requires InRange(d, g) && LastSub(d, g)
    ensures SubRank(d, g) + 1 == SubTotal(d)
    ensures Block(d, g) + 1 == Place(PairRank(d, g.step, g.algo) + 1, SubTotal(d), 0)
  {
    PlaceNext(PairRank(d, g.step, g.algo), SubTotal(d));
    hide Place, PairRank;
  }

  lemma NextPair(d: Data, g: Digits, h: Digits)
    requires ValidData(d) && Combination(d, g) && g.main + 1 == |d.main| && LastSub(d, g)
    requires PairAt(d, h.step, h.algo, PairRank(d, g.step, g.algo) + 1) && h == Digits(h.step, h.algo, 0, 0, 0)
    ensures Combination(d, h) && Rank(d, h) == Rank(d, g) + 1
  {
    hide Place, PairRank, Rank;
    LastSubRank(d, g);
    NextBlock(d, g, h);
  }

  /** After the last pair nothing is left. */
  lemma LastRank(d: Data, g: Digits)
    requires Combination(d, g) && g.main + 1 == |d.main| && LastSub(d, g)
    requires PairRank(d, g.step, g.algo) + 1 == PairsBefore(d, |d.steps|)
    ensures Rank(d, g) + 1 == Total(d)
  {
    hide Place, PairRank;
    LastSubRank(d, g);
    PlaceNext(Block(d, g), |d.main|);
  }

  lemma AlgoAdvances(d: Data, s: nat, a0: nat)
    requires s < |d.steps| && a0 < |d.algos| && Support(d.algos[a0], d.steps[s])
    ensures SupportedBefore(d, s, a0 + 1) == SupportedBefore(d, s, a0) + 1
    ensures NoFurtherAlgo(d, s, a0) ==> PairsBefore(d, s + 1) == PairRank(d, s, a0) + 1
    ensures forall a :: NextAlgo(d, s, a0, a) ==> PairAt(d, s, a, PairRank(d, s, a0) + 1)
  {}

  // ---- the counter ----

  /** `Variation`: the five digits and the curves collected so far.  The ghost fields
      record the combinations run and their results. */
  class Variation {
    const data: Data
    var variationIndex: nat
    var algoVariationIndex: nat
    var stepVariationIndex: nat
    var subvariationIndex: nat
    var subvariedIndex: nat
    var conclusion: Option<Curves>
    ghost var trace: seq<Digits>
    ghost var results: seq<Curve>

    ghost function State(): Digits
      reads this
    {
      Digits(stepVariationIndex, algoVariationIndex, subvariedIndex, subvariationIndex, variationIndex)
    }

    /** The combinations run so far are those of the ranks below the current one. */
    ghost predicate Valid()
      reads this
    {
      && ValidData(data) && Combination(data, State()) && Rank(data, State()) == |results| == |trace|
      && (forall k :: 0 <= k < |trace| ==> Combination(data, trace[k]) && Rank(data, trace[k]) == k)
      && conclusion.Some? && (DistinctData(data) ==> AllStored(data, conclusion.value, results))
      && CountsMatch(data, conclusion.value, trace)
    }

    constructor (data: Data)
      requires ValidData(data) && Support(data.algos[0], data.steps[0])
      ensures Valid() && this.data == data && State() == FIRST && results == []
    {
      this.data := data;
      variationIndex, algoVariationIndex, stepVariationIndex, subvariationIndex, subvariedIndex := 0, 0, 0, 0, 0;
      conclusion := Some(map[]);
      trace, results := [], [];
      new;
      assert Rank(data, FIRST) == 0;
      hide Rank;
    }

    method IncVariationIndex() returns (over: bool)
      requires ValidData(data) && InRange(data, State())
      modifies this`variationIndex
      ensures over <==> old(variationIndex) + 1 == |data.main|
      ensures variationIndex == if over then 0 else old(variationIndex) + 1
    {
      variationIndex := variationIndex + 1;
      over := variationIndex == |data.main|;
      if over {
        variationIndex := 0;
      }
    }

    /** The secondary value; there is nothing to advance without secondary fields. */
    method IncSubvariationIndex() returns (over: bool)
      requires ValidData(data) && InRange(data, State())
      modifies this`subvariationIndex
      ensures over <==> |data.subs| == 0 || old(subvariationIndex) + 1 == |data.subs[subvariedIndex].1|
      ensures subvariationIndex == if over then 0 else old(subvariationIndex) + 1
    {
      if |data.subs| == 0 {
        return true;
      }
      subvariationIndex := subvariationIndex + 1;
      over := subvariationIndex == |data.subs[subvariedIndex].1|;
      if over {
        subvariationIndex := 0;
      }
    }

    /** The secondary field. */
    method IncSubvariedIndex() returns (over: bool)
      requires ValidData(data) && InRange(data, State())
      modifies this`subvariedIndex
      ensures over <==> |data.subs| == 0 || old(subvariedIndex) + 1 == |data.subs|
      ensures subvariedIndex == if over then 0 else old(subvariedIndex) + 1
    {
      if |data.subs| == 0 {
        return true;
      }
      subvariedIndex := subvariedIndex + 1;
      over := subvariedIndex == |data.subs|;
      if over {
        subvariedIndex := 0;
      }
    }

    /** The next algorithm that supports the step: no supported one is skipped. */
    method IncAlgoIndex() returns (over: bool)
      requires stepVariationIndex < |data.steps| && algoVariationIndex < |data.algos|
      modifies this`algoVariationIndex
      ensures over ==> algoVariationIndex == 0 && NoFurtherAlgo(data, stepVariationIndex, old(algoVariationIndex))
      ensures !over ==> NextAlgo(data, stepVariationIndex, old(algoVariationIndex), algoVariationIndex)
    {
      algoVariationIndex := algoVariationIndex + 1;
      while algoVariationIndex < |data.algos| &&
            !Support(data.algos[algoVariationIndex], data.steps[stepVariationIndex])
        invariant algoVariationIndex <= |data.algos|
        invariant SupportedBefore(data, stepVariationIndex, algoVariationIndex) ==
          SupportedBefore(data, stepVariationIndex, old(algoVariationIndex) + 1)
        decreases |data.algos| - algoVariationIndex
      {
        algoVariationIndex := algoVariationIndex + 1;
      }
      over := algoVariationIndex == |data.algos|;
      if over {
        algoVariationIndex := 0;
      }
    }

    /** The next step with a supported algorithm: `inc_step_index` calls
        `inc_algo_index` and itself until there is one. */
    method IncStepIndex() returns (over: bool)
      requires stepVariationIndex < |data.steps| && |data.algos| > 0 && algoVariationIndex == 0
      modifies this`stepVariationIndex, this`algoVariationIndex
      ensures over ==> stepVariationIndex == 0 && algoVariationIndex == 0
      ensures over ==> PairsBefore(data, |data.steps|) == PairsBefore(data, old(stepVariationIndex) + 1)
      ensures !over ==> PairAt(data, stepVariationIndex, algoVariationIndex, PairsBefore(data, old(stepVariationIndex) + 1))
      decreases |data.steps| - stepVariationIndex
    {
      stepVariationIndex := stepVariationIndex + 1;
      over := stepVariationIndex == |data.steps|;
      if over {
        stepVariationIndex := 0;
        return;
      }
      assert SupportedBefore(data, stepVariationIndex, 0) == 0;
      if Support(data.algos[0], data.steps[stepVariationIndex]) {
        return false;
      }
      over := IncAlgoIndex();
      if over {
        over := IncStepIndex();
      }
    }

    /** `next`: each digit advances when the ones before it have run over. */
    method Next() returns (over: bool)
      requires ValidData(data) && Combination(data, State())
      modifies this`variationIndex, this`subvariationIndex, this`subvariedIndex, this`algoVariationIndex,
        this`stepVariationIndex
      ensures over ==> old(Rank(data, State())) + 1 == Total(data)
      ensures !over ==> Combination(data, State()) && Rank(data, State()) == old(Rank(data, State())) + 1
    {
      hide Rank, Block, Place, PairRank, Support;
      ghost var g := State();
      over := IncVariationIndex();
      if !over {
        NextMain(data, g);
        return;
      }
      over := IncSubvariationIndex();
      if !over {
        NextSub(data, g, State());
        NextBlock(data, g, State());
        return;
      }
      over := IncSubvariedIndex();
      if !over {
        NextSub(data, g, State());
        NextBlock(data, g, State());
        return;
      }
      AlgoAdvances(data, g.step, g.algo);
      over := IncAlgoIndex();
      if !over {
        NextPair(data, g, State());
        return;
      }
      over := IncStepIndex();
      if over {
        LastRank(data, g);
      } else {
        NextPair(data, g, State());
      }
    }

    /** `insert_result`: its support assertion is the precondition. */
    method InsertResult(step: Step, algo: Algo, result: Curve)
      requires InRange(data, State()) && Support(algo, step) && algo == data.algos[algoVariationIndex]
      requires conclusion.Some?
      modifies this`conclusion
      ensures conclusion.Some?
      ensures forall s, k :: List(conclusion.value, s, k) ==
                             List(old(conclusion.value), s, k) +
                             if s == step && k == KeyOf(data, State()) then [result] else []
    {
      hide List;
      var r := Insert(conclusion.value, result, step, KeyOf(data, Digits(stepVariationIndex, algoVariationIndex,
                                                                       subvariedIndex, subvariationIndex, variationIndex)));
      conclusion := Some(r);
    }

    /** `evolve`: store the result of the current combination and move on; after the
        last combination the curves are handed out.  Position k of every list then
        holds the result of main value k, provided no two blocks share a key. */
    method Evolve(result: Curve) returns (finished: Option<Curves>)
      requires Valid()
      modifies this
      ensures results == old(results) + [result] && trace == old(trace) + [old(State())]
      ensures finished.Some? <==> |results| == Total(data)
      ensures finished.None? ==> Valid()
      ensures finished.Some? ==> FullTrace(data, trace)
      ensures finished.Some? ==>
        ((forall h :: Combination(data, h) ==> ListOf(data, finished.value, results, h)) <==> DistinctData(data))
    {
      hide Rank, Stored, List, DistinctData, Support, ListOf, CountsMatch;
      ghost var g, c, r := State(), conclusion.value, results;
      InsertResult(data.steps[stepVariationIndex], data.algos[algoVariationIndex], result);
      if DistinctData(data) {
        forall h | Combination(data, h) ensures Stored(data, conclusion.value, r + [result], h) {
          StoreStep(data, c, conclusion.value, r, result, g, h);
        }
      }
      CountStep(data, c, conclusion.value, trace, result, g);
      results, trace := results + [result], trace + [g];
      var over := Next();
      if over {
        finished := conclusion;
        ListsExactlyWhenDistinct(data, conclusion.value, results, trace);
        conclusion := None;
      } else {
        RankBelowTotal(data, State());
        finished := None;
      }
    }
  }
}
