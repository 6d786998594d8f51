/**
 * The other direction of the match promise: every pair of haplotypes that
 * carries the same alleles over the min_size sites before a site k >= min_size
 * is reported together in a match ending at k. With LongMatches.SweepLongMatches
 * this pins down exactly which pairs the sweep reports.
 */
module CompleteMatches {
  import opened PbwtSpec
  import opened StepProperties
  import opened FindAllLongMatches
  import opened LongMatches
  import opened PrefixOrder
  import opened TightDivergence

  /** Haplotypes `a` and `b` appear together in a match of `ms` that ends at site `e`. */
  predicate ReportedAt(ms: seq<Match>, e: nat, a: nat, b: nat) {
    exists j :: 0 <= j < |ms| && ms[j].end == e && InMatch(ms[j], a) && InMatch(ms[j], b)
  }

  /** Every index below n occurs in a permutation of 0 .. n-1. */
  lemma PermutationMembers(p: seq<nat>, n: nat, a: nat)
    requires IsPermutation(p, n) && a < n
    ensures a in p
  {
    assert Identity(n)[a] == a;
    assert a in multiset(Identity(n));
  }

  /** Entries lo and hi of p fall in one group when no entry in (lo, hi] breaks. */
  lemma {:induction false} LayoutSameGroup(gs: seq<seq<nat>>, p: seq<nat>, d: seq<nat>, k: nat, minSize: nat, lo: nat, hi: nat)
    requires |d| == |p| && Layout(gs, p, d, k, minSize)
    requires lo <= hi < |p|
    requires forall m :: lo < m <= hi ==> !Breaks(d[m], k, minSize)
    ensures exists j :: 0 <= j < |gs| && p[lo] in gs[j] && p[hi] in gs[j]
    decreases |gs|
  {
    var init, g := gs[..|gs| - 1], gs[|gs| - 1];
    var o := |p| - |g|;
    if hi < o {
      assert p[..o][lo] == p[lo] && p[..o][hi] == p[hi];
      LayoutSameGroup(init, p[..o], d[..o], k, minSize, lo, hi);
      var j :| 0 <= j < |init| && p[lo] in init[j] && p[hi] in init[j];
      assert gs[j] == init[j];
    } else {
      assert o <= lo;
      assert g[lo - o] == p[lo] && g[hi - o] == p[hi];
      assert p[lo] in gs[|gs| - 1] && p[hi] in gs[|gs| - 1];
    }
  }

  /**
   * In a sorted a_k with tight divergences, no entry between two haplotypes
   * that agree over the last min_size sites breaks: each neighbour pair in
   * between agrees there too, so its divergence is at most k - min_size.
   */
  lemma NoBreakBetween(cols: seq<seq<Allele>>, p: seq<nat>, d: seq<nat>, minSize: nat, lo: nat, hi: nat)
    requires |d| == |p| && Tight(cols, p, d) && Sorted(cols, p)
    requires lo <= hi < |p| && Present(cols, p[lo]) && minSize <= |cols|
    requires AgreeFrom(cols, p[lo], p[hi], |cols| - minSize)
    ensures forall m :: lo < m <= hi ==> !Breaks(d[m], |cols|, minSize)
  {
    var f := |cols| - minSize;
    RevLeRefl(cols, p[lo]);
    forall m | lo < m <= hi ensures !Breaks(d[m], |cols|, minSize) {
      Sandwich(cols, p[lo], p[m - 1], p[hi], f);
      if m < hi {
        Sandwich(cols, p[lo], p[m], p[hi], f);
      }
      AgreeSymmetric(cols, p[lo], p[m - 1], f);
      AgreeTrans(cols, p[m - 1], p[lo], p[m], f, f, f);
      assert Differ(cols, p[m - 1], p[m], d[m]);
    }
  }

  /** Two entries of a sorted a_k with tight divergences that agree over the last min_size sites share a group. */
  lemma PairSameGroup(cols: seq<seq<Allele>>, gs: seq<seq<nat>>, p: seq<nat>, d: seq<nat>, minSize: nat, ia: nat, ib: nat)
    requires |d| == |p| && Tight(cols, p, d) && Sorted(cols, p) && minSize <= |cols|
    requires Layout(gs, p, d, |cols|, minSize)
    requires ia < |p| && ib < |p| && Present(cols, p[ia]) && Present(cols, p[ib])
    requires AgreeFrom(cols, p[ia], p[ib], |cols| - minSize)
    ensures exists j :: 0 <= j < |gs| && p[ia] in gs[j] && p[ib] in gs[j]
  {
    var k := |cols|;
    if ia <= ib {
      NoBreakBetween(cols, p, d, minSize, ia, ib);
      LayoutSameGroup(gs, p, d, k, minSize, ia, ib);
    } else {
      AgreeSymmetric(cols, p[ia], p[ib], k - minSize);
      NoBreakBetween(cols, p, d, minSize, ib, ia);
      LayoutSameGroup(gs, p, d, k, minSize, ib, ia);
      var j :| 0 <= j < |gs| && p[ib] in gs[j] && p[ia] in gs[j];
      assert p[ia] in gs[j] && p[ib] in gs[j];
    }
  }

  /** The match emitted for a group reports every pair of its members. */
  lemma GroupReported(gs: seq<seq<nat>>, col: seq<Allele>, k: nat, j: nat, a: nat, b: nat)
    requires j < |gs| && a in gs[j] && b in gs[j]
    ensures ReportedAt(MatchesOf(gs, col, k), k, a, b)
  {
    MatchesOfAt(gs, col, k);
    SelectMembers(gs[j], col, true, a);
    SelectMembers(gs[j], col, false, a);
    SelectMembers(gs[j], col, true, b);
    SelectMembers(gs[j], col, false, b);
    assert InMatch(MatchesOf(gs, col, k)[j], a) && InMatch(MatchesOf(gs, col, k)[j], b);
  }

  /**
   * One step reports every long match ending at k = |cols| >= min_size: two
   * entries of a sorted a_k with tight divergences that agree over the sites
   * k - min_size .. k-1 land in one group, and so in one emitted match.
   */
  lemma StepComplete(cols: seq<seq<Allele>>, col: seq<Allele>, p: seq<nat>, d: seq<nat>, minSize: nat)
    requires |d| == |p| && Tight(cols, p, d) && Sorted(cols, p) && minSize <= |cols|
    requires forall i :: 0 <= i < |p| ==> Present(cols, p[i])
    ensures forall a: nat, b: nat :: a in p && b in p && AgreeFrom(cols, a, b, |cols| - minSize) ==>
      ReportedAt(Step(p, d, col, |cols|, minSize).matches, |cols|, a, b)
  {
    var k := |cols|;
    var gs := Groups(p, d, k, minSize);
    GroupsLayout(p, d, k, minSize);
    forall a: nat, b: nat | a in p && b in p && AgreeFrom(cols, a, b, k - minSize)
      ensures ReportedAt(Step(p, d, col, k, minSize).matches, k, a, b)
    {
      var ia :| 0 <= ia < |p| && p[ia] == a;
      var ib :| 0 <= ib < |p| && p[ib] == b;
      PairSameGroup(cols, gs, p, d, minSize, ia, ib);
      var j :| 0 <= j < |gs| && a in gs[j] && b in gs[j];
      GroupReported(gs, col, k, j, a, b);
    }
  }

  /** A pair reported in either part of a list of matches is reported in the whole. */
  lemma ReportedAppend(ms: seq<Match>, ms': seq<Match>, e: nat, a: nat, b: nat)
    requires ReportedAt(ms, e, a, b) || ReportedAt(ms', e, a, b)
    ensures ReportedAt(ms + ms', e, a, b)
  {
    if ReportedAt(ms, e, a, b) {
      var j :| 0 <= j < |ms| && ms[j].end == e && InMatch(ms[j], a) && InMatch(ms[j], b);
      assert (ms + ms')[j] == ms[j];
    } else {
      var j :| 0 <= j < |ms'| && ms'[j].end == e && InMatch(ms'[j], a) && InMatch(ms'[j], b);
      assert (ms + ms')[|ms| + j] == ms'[j];
    }
  }

  /** The matches of a sweep are those of the sweep one site shorter, then those of the last step. */
  lemma SweepMatchesSnoc(cols: seq<seq<Allele>>, n: nat, minSize: nat)
    requires Width(cols, n) && 0 < |cols|
    ensures var k := |cols| - 1;
      var prev := Sweep(cols[..k], n, minSize);
      Sweep(cols, n, minSize).matches == prev.matches + Step(prev.prefix, prev.divergence, cols[k], k, minSize).matches
  {
  }

  /** StepComplete for an a_k that is a permutation of all n haplotypes: every pair is covered. */
  lemma PermutationComplete(cols: seq<seq<Allele>>, col: seq<Allele>, p: seq<nat>, d: seq<nat>, n: nat, minSize: nat)
    requires |d| == |p| && Tight(cols, p, d) && Sorted(cols, p) && minSize <= |cols|
    requires Width(cols, n) && IsPermutation(p, n)
    ensures forall a: nat, b: nat :: a < n && b < n && AgreeFrom(cols, a, b, |cols| - minSize) ==>
      ReportedAt(Step(p, d, col, |cols|, minSize).matches, |cols|, a, b)
  {
    forall i | 0 <= i < |p| ensures Present(cols, p[i]) {
      assert p[i] in multiset(Identity(n));
    }
    StepComplete(cols, col, p, d, minSize);
    forall a: nat, b: nat | a < n && b < n && AgreeFrom(cols, a, b, |cols| - minSize)
      ensures ReportedAt(Step(p, d, col, |cols|, minSize).matches, |cols|, a, b)
    {
      PermutationMembers(p, n, a);
      PermutationMembers(p, n, b);
    }
  }

  /**
   * The step at the last site k of the sweep reports every pair that agrees
   * over the sites k - min_size .. k-1.
   */
  lemma LastStepComplete(cols: seq<seq<Allele>>, n: nat, minSize: nat)
    requires Width(cols, n) && Binary(cols) && minSize < |cols|
    ensures var k := |cols| - 1;
      var prev := Sweep(cols[..k], n, minSize);
      forall a: nat, b: nat :: a < n && b < n && AgreeFrom(cols[..k], a, b, k - minSize) ==>
        ReportedAt(Step(prev.prefix, prev.divergence, cols[k], k, minSize).matches, k, a, b)
  {
    var k := |cols| - 1;
    PrefixColumns(cols, n, k);
    SweepTight(cols[..k], n, minSize);
    SweepSorted(cols[..k], n, minSize);
    var prev := Sweep(cols[..k], n, minSize);
    PermutationComplete(cols[..k], cols[k], prev.prefix, prev.divergence, n, minSize);
  }

  /**
   * Completeness carries over one more site: the pairs the earlier sites
   * cover stay covered, and the last step covers the pairs of the last site.
   */
  lemma CompleteSnoc(cols: seq<seq<Allele>>, k: nat, ms: seq<Match>, last: seq<Match>, n: nat, minSize: nat)
    requires |cols| == k + 1
    requires forall e: nat, a: nat, b: nat ::
      (minSize <= e < k && a < n && b < n && AgreeFrom(cols[..k][..e], a, b, e - minSize)) ==> ReportedAt(ms, e, a, b)
    requires minSize <= k ==> forall a: nat, b: nat ::
      (a < n && b < n && AgreeFrom(cols[..k], a, b, k - minSize)) ==> ReportedAt(last, k, a, b)
    ensures forall e: nat, a: nat, b: nat ::
      (minSize <= e <= k && a < n && b < n && AgreeFrom(cols[..e], a, b, e - minSize)) ==> ReportedAt(ms + last, e, a, b)
  {
    forall e: nat, a: nat, b: nat | minSize <= e <= k && a < n && b < n && AgreeFrom(cols[..e], a, b, e - minSize)
      ensures ReportedAt(ms + last, e, a, b)
    {
      if e < k {
        assert cols[..k][..e] == cols[..e];
      }
      ReportedAppend(ms, last, e, a, b);
    }
  }

  /** One more site of the sweep keeps every long match reported. */
  lemma SweepCompleteStep(cols: seq<seq<Allele>>, k: nat, n: nat, minSize: nat)
    requires Width(cols, n) && Binary(cols) && |cols| == k + 1
    requires forall e: nat, a: nat, b: nat ::
      (minSize <= e < k && a < n && b < n && AgreeFrom(cols[..k][..e], a, b, e - minSize)) ==>
      ReportedAt(Sweep(cols[..k], n, minSize).matches, e, a, b)
    ensures forall e: nat, a: nat, b: nat ::
      (minSize <= e <= k && a < n && b < n && AgreeFrom(cols[..e], a, b, e - minSize)) ==>
      ReportedAt(Sweep(cols, n, minSize).matches, e, a, b)
  {
    SweepMatchesSnoc(cols, n, minSize);
    var prev := Sweep(cols[..k], n, minSize);
    if minSize <= k {
      LastStepComplete(cols, n, minSize);
    }
    CompleteSnoc(cols, k, prev.matches, Step(prev.prefix, prev.divergence, cols[k], k, minSize).matches, n, minSize);
  }

  /**
   * The converse of LongMatches.SweepLongMatches: for a binary matrix, any
   * two haplotypes that agree on the min_size sites before a stepped site
   * e >= min_size are reported together in a match ending at e.
   */
  lemma {:induction false} SweepComplete(cols: seq<seq<Allele>>, n: nat, minSize: nat)
    requires Width(cols, n) && Binary(cols)
    ensures forall e: nat, a: nat, b: nat :: minSize <= e < |cols| && a < n && b < n && AgreeFrom(cols[..e], a, b, e - minSize) ==>
      ReportedAt(Sweep(cols, n, minSize).matches, e, a, b)
  {
    if |cols| > 0 {
      var k := |cols| - 1;
      PrefixColumns(cols, n, k);
      SweepComplete(cols[..k], n, minSize);
      SweepCompleteStep(cols, k, n, minSize);
    }
  }

  /**
   * Exactly the long matches: for a binary matrix, at every stepped site
   * e >= min_size, two haplotypes are reported together in a match ending at
   * e if and only if they agree on the sites e - min_size .. e-1.
   */
  lemma SweepMatchesExactly(cols: seq<seq<Allele>>, n: nat, minSize: nat)
    requires Width(cols, n) && Binary(cols)
    ensures forall e: nat, a: nat, b: nat :: minSize <= e < |cols| && a < n && b < n ==>
      (ReportedAt(Sweep(cols, n, minSize).matches, e, a, b) <==> AgreeFrom(cols[..e], a, b, e - minSize))
  {
    SweepComplete(cols, n, minSize);
    SweepLongMatches(cols, n, minSize);
  }
}
