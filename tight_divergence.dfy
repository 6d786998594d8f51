/**
 * The other direction of Durbin's invariant: d_k[i] is not only a site from
 * which a_k[i-1] and a_k[i] agree, it is the earliest one. Either it is 0,
 * or the two haplotypes differ at site d_k[i] - 1. Together with
 * LongMatches.SweepAdjacent, this makes d_k[i] the smallest m such that the
 * two neighbours agree on the sites m .. k-1.
 */
module TightDivergence {
  import opened PbwtSpec
  import opened FindLongMatches
  import opened StepProperties
  import opened FindAllLongMatches
  import opened LongMatches
  import opened PrefixOrder

  /** No start earlier than m works for a and b: m is 0, or they differ at site m - 1. */
  predicate Differ(cols: seq<seq<Allele>>, a: nat, b: nat, m: nat) {
    m == 0 || (m - 1 < |cols| && a < |cols[m - 1]| && b < |cols[m - 1]| && cols[m - 1][a] != cols[m - 1][b])
  }

  /** Every divergence value of (p, d) is tight for its pair of neighbours. */
  predicate Tight(cols: seq<seq<Allele>>, p: seq<nat>, d: seq<nat>)
    requires |d| == |p|
  {
    forall i :: 0 < i < |p| ==> Differ(cols, p[i - 1], p[i], d[i])
  }

  lemma DifferExtend(cols: seq<seq<Allele>>, col: seq<Allele>, a: nat, b: nat, m: nat)
    requires Differ(cols, a, b, m) && m <= |cols|
    ensures Differ(cols + [col], a, b, m)
  {
    if m > 0 {
      assert (cols + [col])[m - 1] == cols[m - 1];
    }
  }

  /**
   * Chaining two tight links a-b (from f) and b-c (from g), with b sorted
   * between a and c, gives a tight link a-c from the larger of the two.
   */
  lemma TightTrans(cols: seq<seq<Allele>>, a: nat, b: nat, c: nat, f: nat, g: nat)
    requires Present(cols, a)
    requires AgreeFrom(cols, a, b, f) && AgreeFrom(cols, b, c, g)
    requires RevLe(cols, a, b) && RevLe(cols, b, c)
    requires Differ(cols, a, b, f) && Differ(cols, b, c, g)
    ensures Differ(cols, a, c, Max(f, g))
  {
    if f == g && g > 0 {
      if cols[g - 1][a] == cols[g - 1][c] {
        AgreeTrans(cols, a, b, c, f, g, g);
        assert AgreeFrom(cols, a, c, g - 1);
        Sandwich(cols, a, b, c, g - 1);
        assert false;
      }
    }
  }

  /**
   * The tight half of one side's state during the pass: consecutive pushed
   * entries differ just before their pushed divergence (over sites 0 .. k),
   * and the last one pushed differs from the entry visited last just before
   * the tracker, and sorts no later than it.
   */
  ghost predicate SideTight(cols: seq<seq<Allele>>, col: seq<Allele>, s: seq<nat>, ds: seq<nat>, t: nat, prev: nat) {
    |ds| == |s| &&
    (forall i :: 0 < i < |s| ==> Differ(cols + [col], s[i - 1], s[i], ds[i])) &&
    (|s| > 0 ==> t <= |cols| && Differ(cols, s[|s| - 1], prev, t) && RevLe(cols, s[|s| - 1], prev))
  }

  /** Visiting `h`, which follows `prev` in a_k, keeps SideTight on either side. */
  lemma SideTightVisit(cols: seq<seq<Allele>>, col: seq<Allele>, s: seq<nat>, ds: seq<nat>, t: nat, prev: nat, started: bool,
                       h: nat, dh: nat, zero: bool)
    requires SideOK(cols, col, s, ds, t, prev, started) && SideTight(cols, col, s, ds, t, prev)
    requires started ==> AgreeFrom(cols, prev, h, dh) && Differ(cols, prev, h, dh) && RevLe(cols, prev, h)
    requires dh <= |cols| && Present(cols, h)
    requires |s| > 0 ==> Present(cols, s[|s| - 1])
    ensures var on := IsZero(col, h) == zero;
      SideTight(cols, col, s + (if on then [h] else []), ds + (if on then [Max(t, dh)] else []),
                if on then 0 else Max(t, dh), h)
  {
    if |s| > 0 {
      TightTrans(cols, s[|s| - 1], prev, h, t, dh);
      RevLeTrans(cols, s[|s| - 1], prev, h);
    }
    if IsZero(col, h) == zero {
      var s', ds' := s + [h], ds + [Max(t, dh)];
      RevLeRefl(cols, h);
      if |s| > 0 {
        DifferExtend(cols, col, s[|s| - 1], h, Max(t, dh));
      }
      forall i | 0 < i < |s'| ensures Differ(cols + [col], s'[i - 1], s'[i], ds'[i]) {
        if i < |s| {
          assert s'[i - 1] == s[i - 1] && s'[i] == s[i] && ds'[i] == ds[i];
        }
      }
    } else {
      assert s + [] == s && ds + [] == ds;
    }
  }

  /** SideTight for side `zero` after the first `n` entries of a_k. */
  ghost predicate TightInv(cols: seq<seq<Allele>>, col: seq<Allele>, p: seq<nat>, d: seq<nat>, zero: bool, n: nat)
    requires |d| == |p| && n <= |p|
  {
    SideTight(cols, col, Select(p[..n], col, zero), Divergences(p, d, col, |cols|, zero, n),
              Tracker(p, d, col, |cols|, zero, n), if n > 0 then p[n - 1] else 0)
  }

  lemma TightInvAfter(cols: seq<seq<Allele>>, col: seq<Allele>, p: seq<nat>, d: seq<nat>, zero: bool, n: nat)
    requires |d| == |p| && n < |p|
    ensures TightInv(cols, col, p, d, zero, n + 1) <==>
      SideTight(cols, col, Select(p[..n + 1], col, zero), Divergences(p, d, col, |cols|, zero, n + 1),
                Tracker(p, d, col, |cols|, zero, n + 1), p[n])
  {
    assert n + 1 - 1 == n;
  }

  /** The last entry pushed on a side so far is an entry of a_k, so it has every allele. */
  lemma SelectLastPresent(cols: seq<seq<Allele>>, p: seq<nat>, col: seq<Allele>, zero: bool, n: nat)
    requires n <= |p| && forall i :: 0 <= i < |p| ==> Present(cols, p[i])
    ensures var s := Select(p[..n], col, zero);
      |s| > 0 ==> Present(cols, s[|s| - 1])
  {
    var s := Select(p[..n], col, zero);
    if |s| > 0 {
      assert s[|s| - 1] in s;
      SelectMembers(p[..n], col, zero, s[|s| - 1]);
      var i :| 0 <= i < n && p[..n][i] == s[|s| - 1];
      assert p[i] == s[|s| - 1];
    }
  }

  /** The conditions on a_k and d_k under which the pass keeps SideTight. */
  ghost predicate TightPre(cols: seq<seq<Allele>>, col: seq<Allele>, p: seq<nat>, d: seq<nat>)
  {
    |d| == |p| && Adjacent(cols, p, d) && Tight(cols, p, d) && Sorted(cols, p) &&
    Indexes(p, col) && BinaryColumn(col) &&
    (forall i :: 0 <= i < |p| ==> Present(cols, p[i]) && d[i] <= |cols|)
  }

  /**
   * Visiting entry n keeps TightInv. Besides the conditions SideInv needs,
   * it uses only the link between p[n-1] and p[n]: tight and in order.
   */
  lemma TightInvStep(cols: seq<seq<Allele>>, col: seq<Allele>, p: seq<nat>, d: seq<nat>, zero: bool, n: nat)
    requires |d| == |p| && n < |p| && Adjacent(cols, p, d) && Indexes(p, col) && BinaryColumn(col)
    requires forall i :: 0 <= i < |p| ==> Present(cols, p[i]) && d[i] <= |cols|
    requires n > 0 ==> Differ(cols, p[n - 1], p[n], d[n]) && RevLe(cols, p[n - 1], p[n])
    requires TightInv(cols, col, p, d, zero, n)
    ensures TightInv(cols, col, p, d, zero, n + 1)
  {
    SideInvAll(cols, col, p, d, zero, n);
    TightInvAfter(cols, col, p, d, zero, n);
    SelectStep(p, col, zero, n);
    SideStep(p, d, col, |cols|, zero, n);
    SelectLastPresent(cols, p, col, zero, n);
    var prev := if n > 0 then p[n - 1] else 0;
    if n > 0 {
      assert AgreeFrom(cols, p[n - 1], p[n], d[n]);
    }
    SideTightVisit(cols, col, Select(p[..n], col, zero), Divergences(p, d, col, |cols|, zero, n),
                   Tracker(p, d, col, |cols|, zero, n), prev, n > 0, p[n], d[n], zero);
  }

  lemma {:induction false} TightInvAll(cols: seq<seq<Allele>>, col: seq<Allele>, p: seq<nat>, d: seq<nat>, zero: bool, n: nat)
    requires TightPre(cols, col, p, d) && n <= |p|
    ensures TightInv(cols, col, p, d, zero, n)
  {
    if n == 0 {
      assert p[..0] == [];
    } else {
      var m := n - 1;
      assert m + 1 == n;
      TightInvAll(cols, col, p, d, zero, m);
      if m > 0 {
        assert Differ(cols, p[m - 1], p[m], d[m]) && RevLe(cols, p[m - 1], p[m]);
      }
      TightInvStep(cols, col, p, d, zero, m);
    }
  }

  /** The first entry of the other side follows the last allele-0 entry; they differ at site k itself. */
  lemma BoundaryTight(cols: seq<seq<Allele>>, col: seq<Allele>, p: seq<nat>, d: seq<nat>)
    requires |d| == |p| && Indexes(p, col)
    requires forall i :: 0 <= i < |p| ==> d[i] <= |cols|
    requires |Zeros(p, col)| > 0 && |Ones(p, col)| > 0
    ensures |Divergences(p, d, col, |cols|, false, |p|)| > 0
    ensures Differ(cols + [col], Zeros(p, col)[|Zeros(p, col)| - 1], Ones(p, col)[0], Divergences(p, d, col, |cols|, false, |p|)[0])
  {
    var k := |cols|;
    var s0, s1 := Zeros(p, col), Ones(p, col);
    assert p[..|p|] == p;
    DivergencesLength(p, d, col, k, false, |p|);
    DivergencesFirst(p, d, col, k, false, |p|);
    DivergencesBound(p, d, col, k, false, |p|);
    SelectSide(p, col, true);
    SelectSide(p, col, false);
    assert (cols + [col])[k] == col;
  }

  /** Two tight runs put one after the other stay tight if the link where they meet is tight. */
  lemma ConcatTight(cols: seq<seq<Allele>>, s0: seq<nat>, d0: seq<nat>, s1: seq<nat>, d1: seq<nat>)
    requires |d0| == |s0| && |d1| == |s1|
    requires Tight(cols, s0, d0) && Tight(cols, s1, d1)
    requires |s0| > 0 && |s1| > 0 ==> Differ(cols, s0[|s0| - 1], s1[0], d1[0])
    ensures |d0 + d1| == |s0 + s1| && Tight(cols, s0 + s1, d0 + d1)
  {
    var q, e := s0 + s1, d0 + d1;
    forall i | 0 < i < |q| ensures Differ(cols, q[i - 1], q[i], e[i]) {
      if i < |s0| {
        assert q[i - 1] == s0[i - 1] && q[i] == s0[i] && e[i] == d0[i];
      } else if i == |s0| {
        assert q[i - 1] == s0[|s0| - 1] && q[i] == s1[0] && e[i] == d1[0];
      } else {
        var j := i - |s0|;
        assert q[i - 1] == s1[j - 1] && q[i] == s1[j] && e[i] == d1[j];
      }
    }
  }

  /** A full side of the partition is tight when the pass keeps SideTight to the end. */
  lemma SideTightAll(cols: seq<seq<Allele>>, col: seq<Allele>, p: seq<nat>, d: seq<nat>, zero: bool)
    requires TightPre(cols, col, p, d)
    ensures |Divergences(p, d, col, |cols|, zero, |p|)| == |Select(p, col, zero)|
    ensures Tight(cols + [col], Select(p, col, zero), Divergences(p, d, col, |cols|, zero, |p|))
  {
    TightInvAll(cols, col, p, d, zero, |p|);
    assert p[..|p|] == p;
  }

  /**
   * One step keeps the divergences tight: if every d_k[i] is tight for its
   * neighbours in a sorted a_k, every d_{k+1}[i] is tight for its neighbours
   * in a_{k+1}, over sites 0 .. k.
   */
  lemma StepTight(cols: seq<seq<Allele>>, col: seq<Allele>, p: seq<nat>, d: seq<nat>, minSize: nat)
    requires TightPre(cols, col, p, d)
    ensures |Step(p, d, col, |cols|, minSize).divergence| == |Step(p, d, col, |cols|, minSize).prefix|
    ensures Tight(cols + [col], Step(p, d, col, |cols|, minSize).prefix, Step(p, d, col, |cols|, minSize).divergence)
  {
    var k := |cols|;
    SideTightAll(cols, col, p, d, true);
    SideTightAll(cols, col, p, d, false);
    if |Zeros(p, col)| > 0 && |Ones(p, col)| > 0 {
      BoundaryTight(cols, col, p, d);
    }
    ConcatTight(cols + [col], Zeros(p, col), Divergences(p, d, col, k, true, |p|),
                Ones(p, col), Divergences(p, d, col, k, false, |p|));
  }

  /** After the sweep over a binary matrix, every divergence value is tight. */
  lemma {:induction false} SweepTight(cols: seq<seq<Allele>>, n: nat, minSize: nat)
    requires Width(cols, n) && Binary(cols)
    ensures Tight(cols, Sweep(cols, n, minSize).prefix, Sweep(cols, n, minSize).divergence)
  {
    if |cols| > 0 {
      var k := |cols| - 1;
      PrefixColumns(cols, n, k);
      SweepTight(cols[..k], n, minSize);
      SweepSorted(cols[..k], n, minSize);
      SweepAdjacent(cols[..k], n, minSize);
      SweepDivergenceBound(cols[..k], n, minSize);
      var prev := Sweep(cols[..k], n, minSize);
      PermutationIndexes(prev.prefix, n, cols[k]);
      forall i | 0 <= i < n ensures Present(cols[..k], prev.prefix[i]) {
      }
      StepTight(cols[..k], cols[k], prev.prefix, prev.divergence, minSize);
      SnocLast(cols);
    }
  }

  /**
   * Durbin's d_k[i], in both directions: after the sweep over a binary
   * matrix, neighbours a_k[i-1] and a_k[i] agree on every site from d_k[i]
   * on, and on no longer stretch of sites ending at k-1.
   */
  lemma SweepDivergenceMinimal(cols: seq<seq<Allele>>, n: nat, minSize: nat)
    requires Width(cols, n) && Binary(cols)
    ensures var t := Sweep(cols, n, minSize);
      forall i :: 0 < i < n ==>
        AgreeFrom(cols, t.prefix[i - 1], t.prefix[i], t.divergence[i]) &&
        (t.divergence[i] > 0 ==> !AgreeFrom(cols, t.prefix[i - 1], t.prefix[i], t.divergence[i] - 1))
  {
    var t := Sweep(cols, n, minSize);
    SweepAdjacent(cols, n, minSize);
    SweepTight(cols, n, minSize);
    forall i | 0 < i < n && t.divergence[i] > 0 ensures !AgreeFrom(cols, t.prefix[i - 1], t.prefix[i], t.divergence[i] - 1) {
      assert Differ(cols, t.prefix[i - 1], t.prefix[i], t.divergence[i]);
    }
  }
}
