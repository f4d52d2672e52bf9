/** Discrete logarithms by table look-up (vss/ni_vss/dlog_recovery.rs). */
module DlogRecovery {
  import opened Options
  import opened ScalarField
  import opened Group
  import opened NivssUtils
  import opened Chunking
  import opened Scheme

  /** The table holds the short hash of every multiple of the generator below the
      chunk size. */
  predicate IsTable(hash: G1 -> nat, table: seq<nat>) {
    |table| == CHUNK_SIZE && forall i :: 0 <= i < CHUNK_SIZE ==> table[i] == hash(Red(i))
  }

  lemma NextMultiple(i: nat, x: G1)
    requires x == Red(i)
    ensures Add(x, G1_GENERATOR) == Red(i + 1)
  {
    CongAdd(x, i, G1_GENERATOR, 1);
  }

  /** `create`: walk through the multiples by repeated addition. */
  method Create(hash: G1 -> nat) returns (table: seq<nat>)
    ensures IsTable(hash, table)
  {
    var x: G1 := 0;
    var a := new nat[CHUNK_SIZE](i => 0);
    for i := 0 to CHUNK_SIZE
      invariant x == Red(i) && forall k :: 0 <= k < i ==> a[k] == hash(Red(k))
    {
      hide Add;
      a[i] := hash(x);
      NextMultiple(i, x);
      x := Add(x, G1_GENERATOR);
    }
    table := a[..];
  }

  /** The last of the first n entries equal to h, or 0. */
  function LastMatch(table: seq<nat>, h: nat, n: nat): (r: nat)
    requires n <= |table|
    ensures r < n || r == 0
  {
    if n == 0 then 0 else if table[n - 1] == h then n - 1 else LastMatch(table, h, n - 1)
  }

  /** The candidate, kept only when it is a logarithm of the target. */
  function Solution(hash: G1 -> nat, table: seq<nat>, target: G1): Option<Scalar> {
    var candidate := Red(LastMatch(table, hash(target), |table|));
    if Times(G1_GENERATOR, candidate) == target then Some(candidate) else None
  }

  function Hashes(hash: G1 -> nat, targets: seq<G1>): (r: seq<nat>)
    ensures |r| == |targets| && forall i :: 0 <= i < |r| ==> r[i] == hash(targets[i])
  {
    seq(|targets|, i requires 0 <= i < |targets| => hash(targets[i]))
  }

  /** The scan over the whole table: every entry overwrites the earlier matches. */
  method Scan(table: seq<nat>, hashes: seq<nat>) returns (results: seq<nat>)
    ensures |results| == |hashes|
    ensures forall i :: 0 <= i < |hashes| ==> results[i] == LastMatch(table, hashes[i], |table|)
  {
    var scan := new nat[|hashes|](i => 0);
    for x := 0 to |table|
      invariant forall i :: 0 <= i < |hashes| ==> scan[i] == LastMatch(table, hashes[i], x)
    {
      for i := 0 to |hashes|
        invariant forall k :: 0 <= k < i ==> scan[k] == LastMatch(table, hashes[k], x + 1)
        invariant forall k :: i <= k < |hashes| ==> scan[k] == LastMatch(table, hashes[k], x)
      {
        if table[x] == hashes[i] {
          scan[i] := x;
        }
      }
    }
    results := scan[..];
  }

  /** `solve_several`. */
  method SolveSeveral(hash: G1 -> nat, table: seq<nat>, targets: seq<G1>) returns (results: seq<Option<Scalar>>)
    ensures |results| == |targets|
    ensures forall i :: 0 <= i < |targets| ==> results[i] == Solution(hash, table, targets[i])
  {
    hide LastMatch, Times;
    var scan := Scan(table, Hashes(hash, targets));
    results := [];
    for i := 0 to |targets|
      invariant |results| == i
      invariant forall k :: 0 <= k < i ==> results[k] == Solution(hash, table, targets[k])
    {
      var candidate := Red(scan[i]);
      results := results + [if Times(G1_GENERATOR, candidate) == targets[i] then Some(candidate) else None];
    }
  }

  /** No later table entry has the same hash. */
  ghost predicate Findable(hash: G1 -> nat, x: nat) {
    x < CHUNK_SIZE && forall y :: x < y < CHUNK_SIZE ==> hash(Red(y)) != hash(Red(x))
  }

  lemma {:induction false} LastMatchIs(hash: G1 -> nat, table: seq<nat>, h: nat, n: nat, x: nat)
    requires IsTable(hash, table) && x < n <= |table| && table[x] == h
    requires forall y :: x < y < n ==> table[y] != h
    ensures LastMatch(table, h, n) == x
  {
    if x < n - 1 { LastMatchIs(hash, table, h, n - 1, x); }
  }

  lemma {:induction false} LastMatchMatches(table: seq<nat>, h: nat, n: nat)
    requires n <= |table|
    ensures var r := LastMatch(table, h, n);
            (r < n && table[r] == h && forall y :: r < y < n ==> table[y] != h) || forall y :: 0 <= y < n ==> table[y] != h
  {
    if n > 0 { LastMatchMatches(table, h, n - 1); }
  }

  /** The table finds the logarithm of exactly those targets that are a multiple
      below the chunk size whose hash does not come back later in the table. */
  lemma SolvesExactly(hash: G1 -> nat, table: seq<nat>, target: G1)
    requires IsTable(hash, table) && CHUNK_SIZE < P
    ensures Solution(hash, table, target) == if Findable(hash, target) then Some(target) else None
  {
    var h := hash(target);
    var c := LastMatch(table, h, |table|);
    hide LastMatch, Times;
    TimesGenerator(c);
    if target < CHUNK_SIZE {
      LastMatchMatches(table, h, |table|);
      assert table[target] == h;
      if Findable(hash, target) {
        LastMatchIs(hash, table, h, |table|, target);
      }
    }
  }
}
