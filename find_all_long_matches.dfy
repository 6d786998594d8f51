/**
 * The driver of src/main.rs, `find_all_long_matches`: start from the identity
 * prefix array and an all-zero divergence array, then apply the per-site step
 * to sites 0 .. k_site-2 of a site-major haplotype matrix, concatenating the
 * matches. Sweep is the reference definition over the matrix's columns.
 */
module FindAllLongMatches {
  import opened PbwtSpec
  import opened FindLongMatches
  import opened StepProperties

  /** The prefix array a_0: every haplotype in its own position. */
  function Identity(n: nat): seq<nat> {
    seq(n, i => i)
  }

  /** `p` is a permutation of the haplotype indices 0 .. n-1. */
  predicate IsPermutation(p: seq<nat>, n: nat) {
    multiset(p) == multiset(Identity(n))
  }

  /** A permutation of 0 .. n-1 addresses every column of n alleles. */
  lemma PermutationIndexes(p: seq<nat>, n: nat, col: seq<Allele>)
    requires IsPermutation(p, n) && |col| == n
    ensures Indexes(p, col)
  {
    forall i | 0 <= i < |p| ensures p[i] < |col| {
      assert p[i] in multiset(p);
      assert p[i] in Identity(n);
    }
  }

  lemma MulMonotone(a: nat, b: nat, n: nat)
    requires a <= b
    ensures a * n <= b * n
  {
    if a < b {
      MulMonotone(a, b - 1, n);
      assert b * n == (b - 1) * n + n;
    }
  }

  /** Site `k` of the site-major matrix `hap` of `n` haplotypes: the slice hap[k*n .. (k+1)*n]. */
  function Site(hap: seq<Allele>, n: nat, k: nat): (col: seq<Allele>)
    requires (k + 1) * n <= |hap|
    ensures |col| == n
    ensures forall h :: 0 <= h < n ==> col[h] == hap[k * n + h]
  {
    MulMonotone(k, k + 1, n);
    hap[k * n..(k + 1) * n]
  }

  /**
   * The first `sites` sites of the site-major matrix `hap`, one column of
   * `n` alleles per site: site s is hap[s*n .. (s+1)*n].
   */
  function Columns(hap: seq<Allele>, n: nat, sites: nat): (cols: seq<seq<Allele>>)
    requires sites * n <= |hap|
    ensures |cols| == sites
    ensures forall s :: 0 <= s < sites ==> |cols[s]| == n
  {
    if sites == 0 then []
    else Columns(hap, n, sites - 1) + [Site(hap, n, sites - 1)]
  }

  /** Column s of `Columns` is exactly the slice the source takes for site s. */
  lemma {:induction false} ColumnAt(hap: seq<Allele>, n: nat, sites: nat, s: nat)
    requires sites * n <= |hap| && s < sites
    ensures (s + 1) * n <= |hap| && Columns(hap, n, sites)[s] == Site(hap, n, s)
  {
    MulMonotone(s + 1, sites, n);
    var m := sites - 1;
    if s < m {
      MulMonotone(m, sites, n);
      ColumnAt(hap, n, m, s);
      assert Columns(hap, n, sites)[s] == Columns(hap, n, m)[s];
    }
  }

  /** Every column of `Columns` is the slice the source takes for its site. */
  lemma ColumnsAt(hap: seq<Allele>, n: nat, sites: nat)
    requires sites * n <= |hap|
    ensures forall s :: 0 <= s < sites ==> (s + 1) * n <= |hap| && Columns(hap, n, sites)[s] == Site(hap, n, s)
  {
    forall s | 0 <= s < sites ensures (s + 1) * n <= |hap| && Columns(hap, n, sites)[s] == Site(hap, n, s) {
      ColumnAt(hap, n, sites, s);
    }
  }

  /**
   * The state after stepping through every column of `cols` in order:
   * the k-th column is stepped at site k, and the matches of all sites are
   * concatenated site by site.
   */
  function Sweep(cols: seq<seq<Allele>>, n: nat, minSize: nat): (t: Transition)
    requires forall s :: 0 <= s < |cols| ==> |cols[s]| == n
    ensures |t.prefix| == n && |t.divergence| == n
    ensures IsPermutation(t.prefix, n)
  {
    if |cols| == 0 then Transition([], Identity(n), seq(n, _ => 0))
    else
      var prev := Sweep(cols[..|cols| - 1], n, minSize);
      var k := |cols| - 1;
      var next := Step(prev.prefix, prev.divergence, cols[k], k, minSize);
      StepPermutation(prev.prefix, prev.divergence, cols[k], k, minSize);
      Transition(prev.matches + next.matches, next.prefix, next.divergence)
  }

  /** Sweeping one more site of the matrix applies one more Step to the state. */
  lemma SweepSnoc(hap: seq<Allele>, n: nat, k: nat, minSize: nat)
    requires (k + 1) * n <= |hap|
    ensures var prev := Sweep(Columns(hap, n, k), n, minSize);
      var next := Step(prev.prefix, prev.divergence, Site(hap, n, k), k, minSize);
      Sweep(Columns(hap, n, k + 1), n, minSize) == Transition(prev.matches + next.matches, next.prefix, next.divergence)
  {
    MulMonotone(k, k + 1, n);
    var cols := Columns(hap, n, k + 1);
    assert cols[..k] == Columns(hap, n, k);
  }

  /**
   * find_all_long_matches: the state after sites 0 .. kSite-2. The source
   * computes k_site-1 in unsigned arithmetic and slices the matrix without a
   * check, so it needs k_site >= 1 and enough rows.
   */
  method FindAllLongMatches(haplotypes: seq<Allele>, nHaplo: nat, kSite: nat, minSize: nat)
    returns (allMatches: seq<Match>, prefix: seq<nat>, divergence: seq<nat>)
    requires kSite >= 1
    requires (kSite - 1) * nHaplo <= |haplotypes|
    ensures Transition(allMatches, prefix, divergence) == Sweep(Columns(haplotypes, nHaplo, kSite - 1), nHaplo, minSize)
  {
    prefix := seq(nHaplo, _ => 0);
    for i := 0 to nHaplo
      invariant |prefix| == nHaplo
      invariant forall j :: 0 <= j < i ==> prefix[j] == j
    {
      prefix := prefix[i := i];
    }
    assert prefix == Identity(nHaplo);
    divergence := seq(nHaplo, _ => 0);
    allMatches := [];

    for k := 0 to kSite - 1
      invariant Transition(allMatches, prefix, divergence) == Sweep(Columns(haplotypes, nHaplo, k), nHaplo, minSize)
    {
      MulMonotone(k + 1, kSite - 1, nHaplo);
      var column := Site(haplotypes, nHaplo, k);
      PermutationIndexes(prefix, nHaplo, column);
      var matches, nextPrefix, nextDivergence := FindLongMatches.FindLongMatches(prefix, divergence, column, k, minSize);
      SweepSnoc(haplotypes, nHaplo, k, minSize);
      prefix := nextPrefix;
      divergence := nextDivergence;
      allMatches := allMatches + matches;
    }
  }

  /** Every match of one step ends at that step's site. */
  lemma StepEnds(p: seq<nat>, d: seq<nat>, col: seq<Allele>, k: nat, minSize: nat)
    requires |d| == |p|
    ensures forall j :: 0 <= j < |Step(p, d, col, k, minSize).matches| ==> Step(p, d, col, k, minSize).matches[j].end == k
  {
    MatchesOfAt(Groups(p, d, k, minSize), col, k);
  }

  /** Appending matches that end at site k to ordered matches that end before k keeps the ends ordered. */
  lemma EndsAppend(ms: seq<Match>, added: seq<Match>, k: nat)
    requires forall i :: 0 <= i < |ms| ==> ms[i].end < k
    requires forall i, j :: 0 <= i <= j < |ms| ==> ms[i].end <= ms[j].end
    requires forall j :: 0 <= j < |added| ==> added[j].end == k
    ensures forall i :: 0 <= i < |ms + added| ==> (ms + added)[i].end < k + 1
    ensures forall i, j :: 0 <= i <= j < |ms + added| ==> (ms + added)[i].end <= (ms + added)[j].end
  {
    var all := ms + added;
    forall i | 0 <= i < |all| ensures all[i].end <= k {
      if i >= |ms| {
        assert all[i] == added[i - |ms|];
      }
    }
    forall i, j | 0 <= i <= j < |all| ensures all[i].end <= all[j].end {
      if j >= |ms| {
        assert all[j] == added[j - |ms|];
      }
    }
  }

  /**
   * Matches are reported site by site: every end lies before |cols| and the
   * ends never decrease along the sequence.
   */
  lemma {:induction false} SweepMatchEnds(cols: seq<seq<Allele>>, n: nat, minSize: nat)
    requires Width(cols, n)
    ensures forall i :: 0 <= i < |Sweep(cols, n, minSize).matches| ==> Sweep(cols, n, minSize).matches[i].end < |cols|
    ensures forall i, j :: 0 <= i <= j < |Sweep(cols, n, minSize).matches| ==>
      Sweep(cols, n, minSize).matches[i].end <= Sweep(cols, n, minSize).matches[j].end
  {
    if |cols| > 0 {
      var k := |cols| - 1;
      assert k + 1 == |cols|;
      SweepMatchEnds(cols[..k], n, minSize);
      var prev := Sweep(cols[..k], n, minSize);
      var added := Step(prev.prefix, prev.divergence, cols[k], k, minSize).matches;
      StepEnds(prev.prefix, prev.divergence, cols[k], k, minSize);
      EndsAppend(prev.matches, added, k);
      assert Sweep(cols, n, minSize).matches == prev.matches + added;
    }
  }

  /** After |cols| sites, no divergence value exceeds |cols|. */
  lemma {:induction false} SweepDivergenceBound(cols: seq<seq<Allele>>, n: nat, minSize: nat)
    requires Width(cols, n)
    ensures forall i :: 0 <= i < n ==> Sweep(cols, n, minSize).divergence[i] <= |cols|
  {
    if |cols| > 0 {
      var k := |cols| - 1;
      SweepDivergenceBound(cols[..k], n, minSize);
      var prev := Sweep(cols[..k], n, minSize);
      assert forall i :: 0 <= i < |prev.divergence| ==> prev.divergence[i] <= k + 1;
      StepDivergenceBound(prev.prefix, prev.divergence, cols[k], k, minSize);
    }
  }

  /**
   * After at least one site, the top of the divergence array holds the
   * sentinel |cols|: the first haplotype has no predecessor to match.
   */
  lemma SweepSentinel(cols: seq<seq<Allele>>, n: nat, minSize: nat)
    requires Width(cols, n)
    requires n > 0 && |cols| > 0
    ensures Sweep(cols, n, minSize).divergence[0] == |cols|
  {
    var k := |cols| - 1;
    var prev := Sweep(cols[..k], n, minSize);
    var next := Step(prev.prefix, prev.divergence, cols[k], k, minSize);
    assert Sweep(cols, n, minSize).divergence == next.divergence;
    SweepDivergenceBound(cols, n, minSize);
    StepSentinels(prev.prefix, prev.divergence, cols[k], k, minSize);
    SelectLength(prev.prefix, cols[k]);
    if |Zeros(prev.prefix, cols[k])| == 0 {
      assert next.divergence[|Zeros(prev.prefix, cols[k])|] == next.divergence[0];
    }
  }
}
