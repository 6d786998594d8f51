/**
 * What makes the reported matches long: Durbin's divergence invariant (in
 * its "agree from d[i] on" direction) holds after every step of the sweep,
 * and so the members of each reported match carry the same alleles over the
 * min_size sites before the match's end, while its two halves differ at the
 * end site itself.
 */
module LongMatches {
  import opened PbwtSpec
  import opened FindLongMatches
  import opened StepProperties
  import opened FindAllLongMatches

  /** Every allele of the column is 0 or 1. */
  predicate BinaryColumn(col: seq<Allele>) {
    forall h :: 0 <= h < |col| ==> col[h] <= 1
  }

  predicate Binary(cols: seq<seq<Allele>>) {
    forall s :: 0 <= s < |cols| ==> BinaryColumn(cols[s])
  }

  /** Haplotype `h` has an allele at every site of `cols`. */
  predicate Present(cols: seq<seq<Allele>>, h: nat) {
    forall s :: 0 <= s < |cols| ==> h < |cols[s]|
  }

  /** Haplotypes `a` and `b` carry the same allele at every site s of `cols` with from <= s. */
  predicate AgreeFrom(cols: seq<seq<Allele>>, a: nat, b: nat, from: int) {
    forall s :: 0 <= s < |cols| && from <= s ==> a < |cols[s]| && b < |cols[s]| && cols[s][a] == cols[s][b]
  }

  /**
   * Durbin's invariant on (a_k, d_k), in the direction the matches rely on:
   * every entry of the prefix array agrees with the entry above it from its
   * divergence value up to the last site.
   */
  predicate Adjacent(cols: seq<seq<Allele>>, p: seq<nat>, d: seq<nat>)
    requires |d| == |p|
  {
    forall i :: 0 < i < |p| ==> AgreeFrom(cols, p[i - 1], p[i], d[i])
  }

  /** Agreement chains: a and c agree from any site where both links already hold. */
  lemma AgreeTrans(cols: seq<seq<Allele>>, a: nat, b: nat, c: nat, f: int, g: int, e: int)
    requires AgreeFrom(cols, a, b, f) && AgreeFrom(cols, b, c, g)
    requires f <= e && g <= e
    ensures AgreeFrom(cols, a, c, e)
  {
  }

  lemma AgreeSymmetric(cols: seq<seq<Allele>>, a: nat, b: nat, f: int)
    requires AgreeFrom(cols, a, b, f)
    ensures AgreeFrom(cols, b, a, f)
  {
  }

  /** Agreement found on the earlier sites carries over to the new site when both carry the same allele there. */
  lemma AgreeExtend(cols: seq<seq<Allele>>, col: seq<Allele>, a: nat, b: nat, f: int)
    requires AgreeFrom(cols, a, b, f)
    requires f <= |cols| ==> a < |col| && b < |col| && col[a] == col[b]
    ensures AgreeFrom(cols + [col], a, b, f)
  {
    forall s | 0 <= s < |cols| + 1 && f <= s
      ensures a < |(cols + [col])[s]| && b < |(cols + [col])[s]| && (cols + [col])[s][a] == (cols + [col])[s][b]
    {
      if s < |cols| {
        assert (cols + [col])[s] == cols[s];
      }
    }
  }

  /** On a binary column, two haplotypes on the same side carry the same allele. */
  lemma SameSide(col: seq<Allele>, a: nat, b: nat)
    requires BinaryColumn(col) && a < |col| && b < |col|
    requires IsZero(col, a) == IsZero(col, b)
    ensures col[a] == col[b]
  {
  }

  /** Each side of the partition keeps the haplotypes addressable, and on their side. */
  lemma {:induction false} SelectSide(p: seq<nat>, col: seq<Allele>, zero: bool)
    requires Indexes(p, col)
    ensures Indexes(Select(p, col, zero), col)
    ensures forall i :: 0 <= i < |Select(p, col, zero)| ==> IsZero(col, Select(p, col, zero)[i]) == zero
  {
    if |p| > 0 {
      SelectSide(p[..|p| - 1], col, zero);
    }
  }

  /**
   * The state of one side of the step, on plain values: the haplotypes `s`
   * pushed so far with their divergences `ds`, the tracker `t`, and the entry
   * `prev` visited last (when `started`). Neighbours in `s` agree, on the
   * sites before k and at site k, from their pushed divergence on; the last
   * one pushed agrees with `prev` from the tracker on; and while nothing is
   * pushed the tracker keeps the sentinel k+1.
   */
  ghost predicate SideOK(cols: seq<seq<Allele>>, col: seq<Allele>, s: seq<nat>, ds: seq<nat>, t: nat, prev: nat, started: bool) {
    |ds| == |s| &&
    (forall i :: 0 < i < |s| ==> AgreeFrom(cols + [col], s[i - 1], s[i], ds[i])) &&
    (|s| > 0 ==> started && AgreeFrom(cols, s[|s| - 1], prev, t)) &&
    (|s| == 0 ==> t >= |cols| + 1)
  }

  /** Visiting `h` on this side: it is pushed with the raised tracker, which then restarts at 0. */
  lemma SideOKPush(cols: seq<seq<Allele>>, col: seq<Allele>, s: seq<nat>, ds: seq<nat>, t: nat, prev: nat, started: bool,
                   h: nat, dh: nat, zero: bool)
    requires SideOK(cols, col, s, ds, t, prev, started)
    requires started ==> AgreeFrom(cols, prev, h, dh)
    requires BinaryColumn(col) && Present(cols, h) && h < |col| && IsZero(col, h) == zero
    requires |s| > 0 ==> s[|s| - 1] < |col| && IsZero(col, s[|s| - 1]) == zero
    ensures SideOK(cols, col, s + [h], ds + [Max(t, dh)], 0, h, true)
  {
    var s', ds' := s + [h], ds + [Max(t, dh)];
    if |s| > 0 {
      AgreeTrans(cols, s[|s| - 1], prev, h, t, dh, Max(t, dh));
      SameSide(col, s[|s| - 1], h);
      AgreeExtend(cols, col, s[|s| - 1], h, Max(t, dh));
    }
    forall i | 0 < i < |s'| ensures AgreeFrom(cols + [col], s'[i - 1], s'[i], ds'[i]) {
      if i < |s| {
        assert s'[i - 1] == s[i - 1] && s'[i] == s[i] && ds'[i] == ds[i];
      }
    }
    assert AgreeFrom(cols, h, h, 0);
  }

  /** Visiting `h` on the other side: nothing is pushed and the tracker is raised to `dh`. */
  lemma SideOKSkip(cols: seq<seq<Allele>>, col: seq<Allele>, s: seq<nat>, ds: seq<nat>, t: nat, prev: nat, started: bool,
                   h: nat, dh: nat)
    requires SideOK(cols, col, s, ds, t, prev, started)
    requires started ==> AgreeFrom(cols, prev, h, dh)
    ensures SideOK(cols, col, s, ds, Max(t, dh), h, true)
  {
    if |s| > 0 {
      AgreeTrans(cols, s[|s| - 1], prev, h, t, dh, Max(t, dh));
    }
  }

  /** SideOK for side `zero` after the first `n` entries of a_k. */
  ghost predicate SideInv(cols: seq<seq<Allele>>, col: seq<Allele>, p: seq<nat>, d: seq<nat>, zero: bool, n: nat)
    requires |d| == |p| && n <= |p|
  {
    SideOK(cols, col, Select(p[..n], col, zero), Divergences(p, d, col, |cols|, zero, n),
           Tracker(p, d, col, |cols|, zero, n), if n > 0 then p[n - 1] else 0, n > 0)
  }

  /** SideInv after entry `n`, with its last-visited entry spelled out. */
  lemma SideInvAfter(cols: seq<seq<Allele>>, col: seq<Allele>, p: seq<nat>, d: seq<nat>, zero: bool, n: nat)
    requires |d| == |p| && n < |p|
    ensures SideInv(cols, col, p, d, zero, n + 1) <==>
      SideOK(cols, col, Select(p[..n + 1], col, zero), Divergences(p, d, col, |cols|, zero, n + 1),
             Tracker(p, d, col, |cols|, zero, n + 1), p[n], true)
  {
    assert n + 1 - 1 == n;
  }

  /** Visiting `h` on either side, as one update of the plain values. */
  lemma SideOKVisit(cols: seq<seq<Allele>>, col: seq<Allele>, s: seq<nat>, ds: seq<nat>, t: nat, prev: nat, started: bool,
                    h: nat, dh: nat, zero: bool)
    requires SideOK(cols, col, s, ds, t, prev, started)
    requires started ==> AgreeFrom(cols, prev, h, dh)
    requires BinaryColumn(col) && Present(cols, h) && h < |col|
    requires |s| > 0 ==> s[|s| - 1] < |col| && IsZero(col, s[|s| - 1]) == zero
    ensures var on := IsZero(col, h) == zero;
      SideOK(cols, col, s + (if on then [h] else []), ds + (if on then [Max(t, dh)] else []),
             if on then 0 else Max(t, dh), h, true)
  {
    if IsZero(col, h) == zero {
      SideOKPush(cols, col, s, ds, t, prev, started, h, dh, zero);
    } else {
      SideOKSkip(cols, col, s, ds, t, prev, started, h, dh);
      assert s + [] == s && ds + [] == ds;
    }
  }

  /** Entry `n` joins side `zero` exactly when it carries that side's allele; the side's last entry so far is on it. */
  lemma SelectStep(p: seq<nat>, col: seq<Allele>, zero: bool, n: nat)
    requires n < |p| && Indexes(p, col)
    ensures Select(p[..n + 1], col, zero) == Select(p[..n], col, zero) + (if IsZero(col, p[n]) == zero then [p[n]] else [])
    ensures var s := Select(p[..n], col, zero);
      |s| > 0 ==> s[|s| - 1] < |col| && IsZero(col, s[|s| - 1]) == zero
  {
    assert p[..n + 1] == p[..n] + [p[n]];
    SelectSnoc(p[..n], p[n], col, zero);
    assert Indexes(p[..n], col);
    SelectSide(p[..n], col, zero);
  }

  lemma SideInvStep(cols: seq<seq<Allele>>, col: seq<Allele>, p: seq<nat>, d: seq<nat>, zero: bool, n: nat)
    requires |d| == |p| && n < |p|
    requires Adjacent(cols, p, d) && Indexes(p, col) && BinaryColumn(col)
    requires forall i :: 0 <= i < |p| ==> Present(cols, p[i])
    requires SideInv(cols, col, p, d, zero, n)
    ensures SideInv(cols, col, p, d, zero, n + 1)
  {
    SideInvAfter(cols, col, p, d, zero, n);
    SelectStep(p, col, zero, n);
    SideStep(p, d, col, |cols|, zero, n);
    var prev := if n > 0 then p[n - 1] else 0;
    if n > 0 {
      assert AgreeFrom(cols, p[n - 1], p[n], d[n]);
    }
    SideOKVisit(cols, col, Select(p[..n], col, zero), Divergences(p, d, col, |cols|, zero, n),
                Tracker(p, d, col, |cols|, zero, n), prev, n > 0, p[n], d[n], zero);
  }

  lemma {:induction false} SideInvAll(cols: seq<seq<Allele>>, col: seq<Allele>, p: seq<nat>, d: seq<nat>, zero: bool, n: nat)
    requires |d| == |p| && n <= |p|
    requires Adjacent(cols, p, d) && Indexes(p, col) && BinaryColumn(col)
    requires forall i :: 0 <= i < |p| ==> Present(cols, p[i])
    ensures SideInv(cols, col, p, d, zero, n)
  {
    if n == 0 {
      assert p[..0] == [];
    } else {
      var m := n - 1;
      assert m + 1 == n;
      SideInvAll(cols, col, p, d, zero, m);
      SideInvStep(cols, col, p, d, zero, m);
    }
  }

  /**
   * One step keeps Durbin's invariant: if neighbours of a_k agree from d_k
   * on over sites 0 .. k-1, then neighbours of a_{k+1} agree from d_{k+1} on
   * over sites 0 .. k, for a binary column at site k.
   */
  lemma StepAdjacent(cols: seq<seq<Allele>>, col: seq<Allele>, p: seq<nat>, d: seq<nat>, minSize: nat)
    requires |d| == |p|
    requires Adjacent(cols, p, d) && Indexes(p, col) && BinaryColumn(col)
    requires forall i :: 0 <= i < |p| ==> Present(cols, p[i])
    ensures |Step(p, d, col, |cols|, minSize).divergence| == |Step(p, d, col, |cols|, minSize).prefix|
    ensures Adjacent(cols + [col], Step(p, d, col, |cols|, minSize).prefix, Step(p, d, col, |cols|, minSize).divergence)
  {
    var k := |cols|;
    SideInvAll(cols, col, p, d, true, |p|);
    SideInvAll(cols, col, p, d, false, |p|);
    assert p[..|p|] == p;
    var s0, s1 := Zeros(p, col), Ones(p, col);
    var d0, d1 := Divergences(p, d, col, k, true, |p|), Divergences(p, d, col, k, false, |p|);
    var q, e := s0 + s1, d0 + d1;
    forall i | 0 < i < |q| ensures AgreeFrom(cols + [col], q[i - 1], q[i], e[i]) {
      if i < |s0| {
        assert q[i - 1] == s0[i - 1] && q[i] == s0[i] && e[i] == d0[i];
      } else if i == |s0| {
        DivergencesFirst(p, d, col, k, false, |p|);
        assert e[i] == d1[0];
      } else {
        var j := i - |s0|;
        assert q[i - 1] == s1[j - 1] && q[i] == s1[j] && e[i] == d1[j];
      }
    }
  }

  /** Neighbour links that are all at most `f` chain into agreement from `f` on. */
  lemma {:induction false} ChainAgree(cols: seq<seq<Allele>>, p: seq<nat>, d: seq<nat>, lo: nat, hi: nat, f: int)
    requires |d| == |p| && Adjacent(cols, p, d)
    requires lo <= hi < |p| && Present(cols, p[lo])
    requires forall m :: lo < m <= hi ==> d[m] <= f
    ensures AgreeFrom(cols, p[lo], p[hi], f)
  {
    if lo < hi {
      ChainAgree(cols, p, d, lo, hi - 1, f);
      AgreeTrans(cols, p[lo], p[hi - 1], p[hi], f, d[hi], f);
    }
  }

  /** Members of a run of a_k whose inner links are all at most `f` agree from `f` on. */
  lemma RunAgree(cols: seq<seq<Allele>>, p: seq<nat>, d: seq<nat>, o: nat, f: int)
    requires |d| == |p| && Adjacent(cols, p, d) && o <= |p|
    requires forall i :: 0 <= i < |p| ==> Present(cols, p[i])
    requires forall m :: o < m < |p| ==> d[m] <= f
    ensures forall a, b :: a in p[o..] && b in p[o..] ==> AgreeFrom(cols, a, b, f)
  {
    var g := p[o..];
    forall a, b | a in g && b in g ensures AgreeFrom(cols, a, b, f) {
      var ia :| 0 <= ia < |g| && g[ia] == a;
      var ib :| 0 <= ib < |g| && g[ib] == b;
      assert p[o + ia] == a && p[o + ib] == b;
      if ia <= ib {
        ChainAgree(cols, p, d, o + ia, o + ib, f);
      } else {
        ChainAgree(cols, p, d, o + ib, o + ia, f);
        AgreeSymmetric(cols, b, a, f);
      }
    }
  }

  /**
   * Under Durbin's invariant, any two members of one match group agree on
   * every site from k - min_size on: each link inside a group is at most
   * k - min_size.
   */
  lemma {:induction false} GroupsAgree(cols: seq<seq<Allele>>, gs: seq<seq<nat>>, p: seq<nat>, d: seq<nat>, minSize: nat)
    requires |d| == |p| && Layout(gs, p, d, |cols|, minSize) && Adjacent(cols, p, d)
    requires forall i :: 0 <= i < |p| ==> Present(cols, p[i])
    ensures forall j, a, b :: 0 <= j < |gs| && a in gs[j] && b in gs[j] ==> AgreeFrom(cols, a, b, |cols| - minSize)
    decreases |gs|
  {
    if |gs| > 0 {
      var k := |cols|;
      var init, g := gs[..|gs| - 1], gs[|gs| - 1];
      var o := |p| - |g|;
      assert Adjacent(cols, p[..o], d[..o]) by {
        forall i | 0 < i < o ensures AgreeFrom(cols, p[..o][i - 1], p[..o][i], d[..o][i]) {
          assert p[..o][i - 1] == p[i - 1] && p[..o][i] == p[i] && d[..o][i] == d[i];
        }
      }
      assert forall i :: 0 <= i < o ==> p[..o][i] == p[i];
      GroupsAgree(cols, init, p[..o], d[..o], minSize);
      RunAgree(cols, p, d, o, k - minSize);
      forall j, a, b | 0 <= j < |gs| && a in gs[j] && b in gs[j] ensures AgreeFrom(cols, a, b, k - minSize) {
        if j < |gs| - 1 {
          assert gs[j] == init[j];
        }
      }
    }
  }

  /** `h` is one of the haplotypes a match reports. */
  predicate InMatch(m: Match, h: nat) {
    h in m.haploA || h in m.haploB
  }

  /**
   * Under Durbin's invariant, every match emitted at site k = |cols| is long:
   * any two of its members agree on every site from k - min_size up to k-1.
   */
  lemma StepLongMatches(cols: seq<seq<Allele>>, col: seq<Allele>, p: seq<nat>, d: seq<nat>, minSize: nat)
    requires |d| == |p| && Adjacent(cols, p, d)
    requires forall i :: 0 <= i < |p| ==> Present(cols, p[i])
    ensures forall j, a, b ::
      (0 <= j < |Step(p, d, col, |cols|, minSize).matches| &&
       InMatch(Step(p, d, col, |cols|, minSize).matches[j], a) &&
       InMatch(Step(p, d, col, |cols|, minSize).matches[j], b)) ==>
      AgreeFrom(cols, a, b, |cols| - minSize)
  {
    var k := |cols|;
    var gs := Groups(p, d, k, minSize);
    var ms := Step(p, d, col, k, minSize).matches;
    MatchesOfAt(gs, col, k);
    GroupsLayout(p, d, k, minSize);
    GroupsAgree(cols, gs, p, d, minSize);
    forall j, a, b | 0 <= j < |ms| && InMatch(ms[j], a) && InMatch(ms[j], b)
      ensures AgreeFrom(cols, a, b, k - minSize)
    {
      SelectMembers(gs[j], col, true, a);
      SelectMembers(gs[j], col, false, a);
      SelectMembers(gs[j], col, true, b);
      SelectMembers(gs[j], col, false, b);
    }
  }

  lemma SnocLast<T>(s: seq<T>)
    requires |s| > 0
    ensures s[..|s| - 1] + [s[|s| - 1]] == s
  {
  }

  lemma PrefixColumns(cols: seq<seq<Allele>>, n: nat, k: nat)
    requires Width(cols, n) && Binary(cols) && k <= |cols|
    ensures Width(cols[..k], n) && Binary(cols[..k])
  {
    assert forall s :: 0 <= s < k ==> cols[..k][s] == cols[s];
  }

  /** Durbin's invariant holds after every prefix of the sweep over binary columns. */
  lemma {:induction false} SweepAdjacent(cols: seq<seq<Allele>>, n: nat, minSize: nat)
    requires Width(cols, n) && Binary(cols)
    ensures Adjacent(cols, Sweep(cols, n, minSize).prefix, Sweep(cols, n, minSize).divergence)
  {
    if |cols| > 0 {
      var k := |cols| - 1;
      PrefixColumns(cols, n, k);
      SweepAdjacent(cols[..k], n, minSize);
      var prev := Sweep(cols[..k], n, minSize);
      PermutationIndexes(prev.prefix, n, cols[k]);
      forall i | 0 <= i < n ensures Present(cols[..k], prev.prefix[i]) {
      }
      StepAdjacent(cols[..k], cols[k], prev.prefix, prev.divergence, minSize);
      SnocLast(cols);
    }
  }

  /**
   * Every match of `ms` ends at a site of `cols`, and any two of its members
   * carry the same alleles at every site from end - min_size up to end - 1.
   */
  ghost predicate LongMatchesIn(cols: seq<seq<Allele>>, ms: seq<Match>, minSize: nat) {
    forall i, a, b :: 0 <= i < |ms| && InMatch(ms[i], a) && InMatch(ms[i], b) ==>
      ms[i].end < |cols| && AgreeFrom(cols[..ms[i].end], a, b, ms[i].end - minSize)
  }

  /** The matches found at site k = |cols| - 1 are long matches of `cols`. */
  lemma LastSiteLong(cols: seq<seq<Allele>>, ms: seq<Match>, minSize: nat)
    requires |cols| > 0
    requires forall j :: 0 <= j < |ms| ==> ms[j].end == |cols| - 1
    requires forall j, a, b :: 0 <= j < |ms| && InMatch(ms[j], a) && InMatch(ms[j], b) ==>
      AgreeFrom(cols[..|cols| - 1], a, b, |cols| - 1 - minSize)
    ensures LongMatchesIn(cols, ms, minSize)
  {
  }

  /** Long matches of the earlier sites stay long matches when a site is added. */
  lemma EarlierSitesLong(cols: seq<seq<Allele>>, ms: seq<Match>, minSize: nat)
    requires |cols| > 0 && LongMatchesIn(cols[..|cols| - 1], ms, minSize)
    ensures LongMatchesIn(cols, ms, minSize)
  {
    forall i, a, b | 0 <= i < |ms| && InMatch(ms[i], a) && InMatch(ms[i], b)
      ensures ms[i].end < |cols| && AgreeFrom(cols[..ms[i].end], a, b, ms[i].end - minSize)
    {
      assert cols[..|cols| - 1][..ms[i].end] == cols[..ms[i].end];
    }
  }

  lemma LongMatchesAppend(cols: seq<seq<Allele>>, ms: seq<Match>, ms': seq<Match>, minSize: nat)
    requires LongMatchesIn(cols, ms, minSize) && LongMatchesIn(cols, ms', minSize)
    ensures LongMatchesIn(cols, ms + ms', minSize)
  {
    forall i, a, b | 0 <= i < |ms + ms'| && InMatch((ms + ms')[i], a) && InMatch((ms + ms')[i], b)
      ensures (ms + ms')[i].end < |cols| && AgreeFrom(cols[..(ms + ms')[i].end], a, b, (ms + ms')[i].end - minSize)
    {
      if i >= |ms| {
        assert (ms + ms')[i] == ms'[i - |ms|];
      }
    }
  }

  /**
   * The promise of find_all_long_matches: every reported match ends at a
   * site before the last one swept, and any two of its members carry the
   * same alleles at every site from end - min_size up to end - 1.
   */
  lemma {:induction false} SweepLongMatches(cols: seq<seq<Allele>>, n: nat, minSize: nat)
    requires Width(cols, n) && Binary(cols)
    ensures LongMatchesIn(cols, Sweep(cols, n, minSize).matches, minSize)
  {
    if |cols| > 0 {
      var k := |cols| - 1;
      PrefixColumns(cols, n, k);
      SweepLongMatches(cols[..k], n, minSize);
      EarlierSitesLong(cols, Sweep(cols[..k], n, minSize).matches, minSize);
      SweepAdjacent(cols[..k], n, minSize);
      var prev := Sweep(cols[..k], n, minSize);
      PermutationIndexes(prev.prefix, n, cols[k]);
      forall i | 0 <= i < n ensures Present(cols[..k], prev.prefix[i]) {
      }
      StepLongMatches(cols[..k], cols[k], prev.prefix, prev.divergence, minSize);
      StepMatchShape(prev.prefix, prev.divergence, cols[k], k, minSize);
      LastSiteLong(cols, Step(prev.prefix, prev.divergence, cols[k], k, minSize).matches, minSize);
      LongMatchesAppend(cols, prev.matches, Step(prev.prefix, prev.divergence, cols[k], k, minSize).matches, minSize);
    }
  }

  /**
   * The other half of a match's promise, for every match of `ms`: at its end
   * site, every haploA member carries allele 0 and every haploB member
   * allele 1.
   */
  ghost predicate SplitAtEnd(cols: seq<seq<Allele>>, ms: seq<Match>) {
    (forall i, h :: 0 <= i < |ms| && h in ms[i].haploA ==>
       ms[i].end < |cols| && h < |cols[ms[i].end]| && cols[ms[i].end][h] == 0) &&
    (forall i, h :: 0 <= i < |ms| && h in ms[i].haploB ==>
       ms[i].end < |cols| && h < |cols[ms[i].end]| && cols[ms[i].end][h] == 1)
  }

  lemma SplitAppend(cols: seq<seq<Allele>>, ms: seq<Match>, ms': seq<Match>)
    requires SplitAtEnd(cols, ms) && SplitAtEnd(cols, ms')
    ensures SplitAtEnd(cols, ms + ms')
  {
    forall i | |ms| <= i < |ms + ms'| ensures (ms + ms')[i] == ms'[i - |ms|] {
    }
  }

  lemma SplitEarlier(cols: seq<seq<Allele>>, ms: seq<Match>)
    requires |cols| > 0 && SplitAtEnd(cols[..|cols| - 1], ms)
    ensures SplitAtEnd(cols, ms)
  {
    forall i | 0 <= i < |ms| && ms[i].end < |cols| - 1 ensures cols[..|cols| - 1][ms[i].end] == cols[ms[i].end] {
    }
  }

  /** The matches of the step at the last site of `cols` split as promised there. */
  lemma SplitLast(cols: seq<seq<Allele>>, p: seq<nat>, d: seq<nat>, minSize: nat)
    requires |cols| > 0 && |d| == |p|
    requires BinaryColumn(cols[|cols| - 1]) && Indexes(p, cols[|cols| - 1])
    ensures SplitAtEnd(cols, Step(p, d, cols[|cols| - 1], |cols| - 1, minSize).matches)
  {
    var k := |cols| - 1;
    var ms := Step(p, d, cols[k], k, minSize).matches;
    StepMatchShape(p, d, cols[k], k, minSize);
    forall i, h | 0 <= i < |ms| && h in ms[i].haploB ensures h < |cols[k]| {
      var j :| 0 <= j < |p| && p[j] == h;
    }
  }

  /**
   * The other half of a match's promise: at its end site, every haploA member
   * carries allele 0 and every haploB member allele 1.
   */
  lemma {:induction false} SweepMatchesSplit(cols: seq<seq<Allele>>, n: nat, minSize: nat)
    requires Width(cols, n) && Binary(cols)
    ensures SplitAtEnd(cols, Sweep(cols, n, minSize).matches)
  {
    if |cols| > 0 {
      var k := |cols| - 1;
      PrefixColumns(cols, n, k);
      SweepMatchesSplit(cols[..k], n, minSize);
      SplitEarlier(cols, Sweep(cols[..k], n, minSize).matches);
      var prev := Sweep(cols[..k], n, minSize);
      PermutationIndexes(prev.prefix, n, cols[k]);
      SplitLast(cols, prev.prefix, prev.divergence, minSize);
      SplitAppend(cols, prev.matches, Step(prev.prefix, prev.divergence, cols[k], k, minSize).matches);
    }
  }
}
