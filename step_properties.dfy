/**
 * Properties of one PBWT step (PbwtSpec.Step): the prefix array stays a
 * permutation, the divergence array keeps its sentinels and bounds, and the
 * emitted matches partition a_k into the groups that Breaks delimits.
 */
module StepProperties {
  import opened PbwtSpec

  /** A haplotype lands on a side exactly when it is in the input and carries that side's allele. */
  lemma {:induction false} SelectMembers(p: seq<nat>, col: seq<Allele>, zero: bool, h: nat)
    ensures h in Select(p, col, zero) <==> h in p && IsZero(col, h) == zero
  {
    if |p| > 0 {
      SelectMembers(p[..|p| - 1], col, zero, h);
      assert p == p[..|p| - 1] + [p[|p| - 1]];
    }
  }

  /** The two sides together hold every entry of the input, with multiplicity. */
  lemma {:induction false} SelectMultiset(p: seq<nat>, col: seq<Allele>)
    ensures multiset(Select(p, col, true)) + multiset(Select(p, col, false)) == multiset(p)
  {
    if |p| > 0 {
      var q, last := p[..|p| - 1], p[|p| - 1];
      SelectMultiset(q, col);
      assert p == q + [last];
      var z, o := Select(q, col, true), Select(q, col, false);
      if IsZero(col, last) {
        assert Select(p, col, true) == z + [last] && Select(p, col, false) == o;
        assert multiset(z + [last]) + multiset(o) == multiset(z) + multiset(o) + multiset([last]);
      } else {
        assert Select(p, col, true) == z && Select(p, col, false) == o + [last];
        assert multiset(z) + multiset(o + [last]) == multiset(z) + multiset(o) + multiset([last]);
      }
    }
  }

  /** One divergence value is pushed for every entry pushed on the same side. */
  lemma {:induction false} DivergencesLength(p: seq<nat>, d: seq<nat>, col: seq<Allele>, k: nat, zero: bool, n: nat)
    requires |d| == |p| && n <= |p|
    ensures |Divergences(p, d, col, k, zero, n)| == |Select(p[..n], col, zero)|
  {
    if n > 0 {
      DivergencesLength(p, d, col, k, zero, n - 1);
      assert p[..n] == p[..n - 1] + [p[n - 1]];
      SelectSnoc(p[..n - 1], p[n - 1], col, zero);
    }
  }

  /**
   * The next prefix array is a rearrangement of the current one, and the
   * next divergence array is as long as both, so a permutation of
   * [0, n_haplo) stays one.
   */
  lemma StepPermutation(p: seq<nat>, d: seq<nat>, col: seq<Allele>, k: nat, minSize: nat)
    requires |d| == |p|
    ensures multiset(Step(p, d, col, k, minSize).prefix) == multiset(p)
    ensures |Step(p, d, col, k, minSize).prefix| == |p|
    ensures |Step(p, d, col, k, minSize).divergence| == |p|
  {
    SelectMultiset(p, col);
    SelectLength(p, col);
    DivergencesLength(p, d, col, k, true, |p|);
    DivergencesLength(p, d, col, k, false, |p|);
    assert p[..|p|] == p;
  }

  /**
   * The next prefix array is a stable partition: the allele-0 entries come
   * first, the others after them, each side in its input order (Select keeps
   * the order of `p`), and an entry is on a side exactly when it carries
   * that side's allele.
   */
  lemma StepPartition(p: seq<nat>, d: seq<nat>, col: seq<Allele>, k: nat, minSize: nat)
    requires |d| == |p|
    ensures var next := Step(p, d, col, k, minSize).prefix;
      var z := |Zeros(p, col)|;
      z <= |next| && next[..z] == Zeros(p, col) && next[z..] == Ones(p, col)
    ensures forall h :: h in Zeros(p, col) <==> h in p && IsZero(col, h)
    ensures forall h :: h in Ones(p, col) <==> h in p && !IsZero(col, h)
  {
    forall h ensures h in Zeros(p, col) <==> h in p && IsZero(col, h) {
      SelectMembers(p, col, true, h);
    }
    forall h ensures h in Ones(p, col) <==> h in p && !IsZero(col, h) {
      SelectMembers(p, col, false, h);
    }
    var next := Step(p, d, col, k, minSize).prefix;
    assert next == Zeros(p, col) + Ones(p, col);
  }

  /** Before the first entry on a side, the tracker was never reset. */
  lemma {:induction false} NoneBefore(p: seq<nat>, d: seq<nat>, col: seq<Allele>, k: nat, zero: bool, n: nat)
    requires |d| == |p| && n <= |p|
    requires |Divergences(p, d, col, k, zero, n)| == 0
    ensures LastBefore(p, col, zero, n) < 0
  {
    if n > 0 {
      NoneBefore(p, d, col, k, zero, n - 1);
    }
  }

  /** The first value pushed on a side is at least the sentinel k+1. */
  lemma {:induction false} DivergencesFirst(p: seq<nat>, d: seq<nat>, col: seq<Allele>, k: nat, zero: bool, n: nat)
    requires |d| == |p| && n <= |p|
    requires |Divergences(p, d, col, k, zero, n)| > 0
    ensures Divergences(p, d, col, k, zero, n)[0] >= k + 1
  {
    var prev := Divergences(p, d, col, k, zero, n - 1);
    if |prev| > 0 {
      DivergencesFirst(p, d, col, k, zero, n - 1);
    } else {
      NoneBefore(p, d, col, k, zero, n - 1);
    }
  }

  /**
   * The sentinel: the first entry of each allele group in d_{k+1} is at
   * least k+1, since its tracker started at k+1 and only grew.
   */
  lemma StepSentinels(p: seq<nat>, d: seq<nat>, col: seq<Allele>, k: nat, minSize: nat)
    requires |d| == |p|
    ensures var t := Step(p, d, col, k, minSize);
      |t.divergence| == |Zeros(p, col)| + |Ones(p, col)| &&
      (|Zeros(p, col)| > 0 ==> t.divergence[0] >= k + 1) &&
      (|Ones(p, col)| > 0 ==> t.divergence[|Zeros(p, col)|] >= k + 1)
  {
    assert p[..|p|] == p;
    DivergencesLength(p, d, col, k, true, |p|);
    DivergencesLength(p, d, col, k, false, |p|);
    SelectLength(p, col);
    if |Zeros(p, col)| > 0 {
      DivergencesFirst(p, d, col, k, true, |p|);
    }
    if |Ones(p, col)| > 0 {
      DivergencesFirst(p, d, col, k, false, |p|);
    }
  }

  lemma {:induction false} MaxOfBound(s: seq<nat>, b: nat)
    requires forall i :: 0 <= i < |s| ==> s[i] <= b
    ensures MaxOf(s) <= b
  {
    if |s| > 0 {
      MaxOfBound(s[..|s| - 1], b);
    }
  }

  lemma {:induction false} DivergencesBound(p: seq<nat>, d: seq<nat>, col: seq<Allele>, k: nat, zero: bool, n: nat)
    requires |d| == |p| && n <= |p|
    requires forall i :: 0 <= i < |d| ==> d[i] <= k + 1
    ensures forall t :: 0 <= t < |Divergences(p, d, col, k, zero, n)| ==> Divergences(p, d, col, k, zero, n)[t] <= k + 1
  {
    if n > 0 {
      DivergencesBound(p, d, col, k, zero, n - 1);
      var i := n - 1;
      var j := LastBefore(p, col, IsZero(col, p[i]), i);
      if j < 0 {
        MaxOfBound(d[..i + 1], k + 1);
      } else {
        MaxOfBound(d[j + 1..i + 1], k + 1);
      }
    }
  }

  /**
   * If no divergence value of d_k exceeds k+1 then none of d_{k+1} does:
   * each pushed value is k+1 or the largest of some incoming values.
   */
  lemma StepDivergenceBound(p: seq<nat>, d: seq<nat>, col: seq<Allele>, k: nat, minSize: nat)
    requires |d| == |p|
    requires forall i :: 0 <= i < |d| ==> d[i] <= k + 1
    ensures forall i :: 0 <= i < |Step(p, d, col, k, minSize).divergence| ==>
      Step(p, d, col, k, minSize).divergence[i] <= k + 1
  {
    DivergencesBound(p, d, col, k, true, |p|);
    DivergencesBound(p, d, col, k, false, |p|);
  }

  /**
   * How groups `gs` lie in `p`: the last group is a non-empty suffix of `p`
   * none of whose entries after the first Breaks, whose first entry Breaks
   * unless it is the only group, and the groups before it lie in the rest of
   * `p` in the same way.
   */
  ghost predicate Layout(gs: seq<seq<nat>>, p: seq<nat>, d: seq<nat>, k: nat, minSize: nat)
    requires |d| == |p|
    decreases |gs|
  {
    if |gs| == 0 then p == []
    else
      var g := gs[|gs| - 1];
      var o := |p| - |g|;
      0 < |g| && 0 <= o && p[o..] == g &&
      (forall i :: o < i < |p| ==> !Breaks(d[i], k, minSize)) &&
      (|gs| > 1 ==> Breaks(d[o], k, minSize)) &&
      Layout(gs[..|gs| - 1], p[..o], d[..o], k, minSize)
  }

  lemma FlattenSnoc(gs: seq<seq<nat>>, g: seq<nat>)
    ensures Flatten(gs + [g]) == Flatten(gs) + g
  {
    assert (gs + [g])[..|gs|] == gs;
  }

  /** Opening a new group for an entry that Breaks (or for the very first entry) keeps the layout. */
  lemma LayoutOpen(gs: seq<seq<nat>>, p: seq<nat>, d: seq<nat>, k: nat, minSize: nat, h: nat, start: nat)
    requires |d| == |p| && Layout(gs, p, d, k, minSize)
    requires |gs| == 0 || Breaks(start, k, minSize)
    ensures Layout(gs + [[h]], p + [h], d + [start], k, minSize)
  {
    assert (gs + [[h]])[..|gs|] == gs;
    assert (p + [h])[..|p|] == p && (d + [start])[..|p|] == d;
  }

  /** Adding an entry that does not Break to the last group keeps the layout. */
  lemma LayoutExtend(gs: seq<seq<nat>>, p: seq<nat>, d: seq<nat>, k: nat, minSize: nat, h: nat, start: nat)
    requires |d| == |p| && Layout(gs, p, d, k, minSize)
    requires |gs| > 0 && !Breaks(start, k, minSize)
    ensures Layout(gs[..|gs| - 1] + [gs[|gs| - 1] + [h]], p + [h], d + [start], k, minSize)
  {
    var init, last := gs[..|gs| - 1], gs[|gs| - 1];
    var gs', p', d' := init + [last + [h]], p + [h], d + [start];
    var o := |p| - |last|;
    assert |gs'| - 1 == |init| && |p'| - |last + [h]| == o;
    assert gs'[..|gs'| - 1] == init;
    assert p'[..o] == p[..o] && d'[..o] == d[..o];
    assert p'[o..] == p[o..] + [h];
    forall i | o < i < |p'| ensures !Breaks(d'[i], k, minSize) {
      if i < |p| {
        assert d'[i] == d[i];
      }
    }
  }

  /** Adding one entry to the groups, as a new group or to the last one, appends it to the concatenation. */
  lemma FlattenVisit(gs: seq<seq<nat>>, h: nat, brk: bool)
    ensures Flatten(if |gs| == 0 || brk then gs + [[h]] else gs[..|gs| - 1] + [gs[|gs| - 1] + [h]]) == Flatten(gs) + [h]
  {
    if |gs| == 0 || brk {
      FlattenSnoc(gs, [h]);
    } else {
      var init, last := gs[..|gs| - 1], gs[|gs| - 1];
      assert gs == init + [last];
      FlattenSnoc(init, last);
      FlattenSnoc(init, last + [h]);
    }
  }

  /**
   * The groups lie in a_k as Layout says: every group after the first opens
   * at an entry whose run is too short (d_k[i] + min_size > k), and no other
   * entry of a group is one.
   */
  lemma {:induction false} GroupsLayout(p: seq<nat>, d: seq<nat>, k: nat, minSize: nat)
    requires |d| == |p|
    ensures Layout(Groups(p, d, k, minSize), p, d, k, minSize)
  {
    if |p| > 0 {
      var n := |p|;
      GroupsLayout(p[..n - 1], d[..n - 1], k, minSize);
      var gs := Groups(p[..n - 1], d[..n - 1], k, minSize);
      assert p == p[..n - 1] + [p[n - 1]] && d == d[..n - 1] + [d[n - 1]];
      if |gs| == 0 || Breaks(d[n - 1], k, minSize) {
        LayoutOpen(gs, p[..n - 1], d[..n - 1], k, minSize, p[n - 1], d[n - 1]);
      } else {
        LayoutExtend(gs, p[..n - 1], d[..n - 1], k, minSize, p[n - 1], d[n - 1]);
      }
    }
  }

  /** The groups, concatenated in order, give back a_k. */
  lemma {:induction false} GroupsFlatten(p: seq<nat>, d: seq<nat>, k: nat, minSize: nat)
    requires |d| == |p|
    ensures Flatten(Groups(p, d, k, minSize)) == p
  {
    GroupsFlattenPrefix(p, d, k, minSize, |p|);
    assert p[..|p|] == p && d[..|p|] == d;
  }

  /** GroupsFlatten for the first i entries, by induction on i. */
  lemma {:induction false} GroupsFlattenPrefix(p: seq<nat>, d: seq<nat>, k: nat, minSize: nat, i: nat)
    requires |d| == |p| && i <= |p|
    ensures Flatten(Groups(p[..i], d[..i], k, minSize)) == p[..i]
  {
    if i > 0 {
      var m := i - 1;
      assert m + 1 == i;
      GroupsFlattenPrefix(p, d, k, minSize, m);
      GroupsAt(p, d, k, minSize, m);
      FlattenVisit(Groups(p[..m], d[..m], k, minSize), p[m], Breaks(d[m], k, minSize));
      assert p[..m + 1] == p[..m] + [p[m]];
    }
  }

  lemma {:induction false} MatchesOfAt(gs: seq<seq<nat>>, col: seq<Allele>, k: nat)
    ensures |MatchesOf(gs, col, k)| == |gs|
    ensures forall j :: 0 <= j < |gs| ==>
      MatchesOf(gs, col, k)[j] == Match(Zeros(gs[j], col), Ones(gs[j], col), k)
  {
    if |gs| > 0 {
      MatchesOfAt(gs[..|gs| - 1], col, k);
    }
  }

  /** A member of any group is an element of the concatenation. */
  lemma {:induction false} FlattenMember(gs: seq<seq<nat>>, j: nat, h: nat)
    requires j < |gs| && h in gs[j]
    ensures h in Flatten(gs)
  {
    if j < |gs| - 1 {
      FlattenMember(gs[..|gs| - 1], j, h);
    }
  }

  /**
   * Every emitted match ends at site k, has at least one non-empty side, and
   * holds the allele-0 members of its group in haploA and the others in haploB.
   */
  lemma StepMatchShape(p: seq<nat>, d: seq<nat>, col: seq<Allele>, k: nat, minSize: nat)
    requires |d| == |p|
    ensures forall j :: 0 <= j < |Step(p, d, col, k, minSize).matches| ==>
      var m := Step(p, d, col, k, minSize).matches[j];
      m.end == k && (|m.haploA| > 0 || |m.haploB| > 0) &&
      (forall h :: h in m.haploA ==> h in p && IsZero(col, h)) &&
      (forall h :: h in m.haploB ==> h in p && !IsZero(col, h))
  {
    var gs := Groups(p, d, k, minSize);
    var ms := Step(p, d, col, k, minSize).matches;
    MatchesOfAt(gs, col, k);
    GroupsFlatten(p, d, k, minSize);
    forall j | 0 <= j < |ms|
      ensures ms[j].end == k && (|ms[j].haploA| > 0 || |ms[j].haploB| > 0)
      ensures forall h :: h in ms[j].haploA ==> h in p && IsZero(col, h)
      ensures forall h :: h in ms[j].haploB ==> h in p && !IsZero(col, h)
    {
      SelectLength(gs[j], col);
      forall h ensures h in ms[j].haploA ==> h in p && IsZero(col, h)
                   ensures h in ms[j].haploB ==> h in p && !IsZero(col, h) {
        SelectMembers(gs[j], col, true, h);
        SelectMembers(gs[j], col, false, h);
        if h in gs[j] {
          FlattenMember(gs, j, h);
        }
      }
    }
  }

  lemma {:induction false} MembersOfGroups(gs: seq<seq<nat>>, col: seq<Allele>, k: nat)
    ensures multiset(Members(MatchesOf(gs, col, k))) == multiset(Flatten(gs))
  {
    if |gs| > 0 {
      var init := gs[..|gs| - 1];
      MembersOfGroups(init, col, k);
      var ms := MatchesOf(gs, col, k);
      assert ms[..|ms| - 1] == MatchesOf(init, col, k);
      SelectMultiset(gs[|gs| - 1], col);
    }
  }

  /**
   * The emitted matches name every entry of a_k exactly as often as a_k
   * does: each haplotype of a permutation lands in exactly one match.
   */
  lemma StepMatchesCover(p: seq<nat>, d: seq<nat>, col: seq<Allele>, k: nat, minSize: nat)
    requires |d| == |p|
    ensures multiset(Members(Step(p, d, col, k, minSize).matches)) == multiset(p)
  {
    MembersOfGroups(Groups(p, d, k, minSize), col, k);
    GroupsFlatten(p, d, k, minSize);
  }

  /** When min_size exceeds k, every entry of a_k is a group of its own. */
  lemma {:induction false} SingletonGroups(p: seq<nat>, d: seq<nat>, k: nat, minSize: nat)
    requires |d| == |p| && minSize > k
    ensures |Groups(p, d, k, minSize)| == |p|
    ensures forall j :: 0 <= j < |p| ==> Groups(p, d, k, minSize)[j] == [p[j]]
  {
    if |p| > 0 {
      var n := |p| - 1;
      var gs, init := Groups(p, d, k, minSize), Groups(p[..n], d[..n], k, minSize);
      SingletonGroups(p[..n], d[..n], k, minSize);
      assert gs == init + [[p[n]]];
      forall j | 0 <= j < |p| ensures gs[j] == [p[j]] {
        if j < n {
          assert gs[j] == init[j] && p[..n][j] == p[j];
        }
      }
    }
  }

  /** The match of a one-member group holds that member on the side of its allele. */
  lemma SingletonMatch(h: nat, col: seq<Allele>)
    ensures Zeros([h], col) == (if IsZero(col, h) then [h] else [])
    ensures Ones([h], col) == (if IsZero(col, h) then [] else [h])
  {
    SelectSnoc([], h, col, true);
    SelectSnoc([], h, col, false);
    assert [] + [h] == [h];
  }

  /**
   * When min_size exceeds k no run is long enough: every entry breaks, so
   * each entry of a_k is emitted as a match of its own, in a_k order.
   */
  lemma ShortHistorySingletons(p: seq<nat>, d: seq<nat>, col: seq<Allele>, k: nat, minSize: nat)
    requires |d| == |p| && minSize > k
    ensures |Step(p, d, col, k, minSize).matches| == |p|
    ensures forall j :: 0 <= j < |p| ==>
      Step(p, d, col, k, minSize).matches[j] == Match(if IsZero(col, p[j]) then [p[j]] else [], if IsZero(col, p[j]) then [] else [p[j]], k)
  {
    var gs := Groups(p, d, k, minSize);
    SingletonGroups(p, d, k, minSize);
    MatchesOfAt(gs, col, k);
    forall j | 0 <= j < |p|
      ensures Step(p, d, col, k, minSize).matches[j] ==
        Match(if IsZero(col, p[j]) then [p[j]] else [], if IsZero(col, p[j]) then [] else [p[j]], k)
    {
      SingletonMatch(p[j], col);
    }
  }
}
