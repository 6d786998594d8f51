/**
 * The per-site PBWT step of src/main.rs, `find_long_matches`, as an
 * imperative method: one pass over a_k and d_k that pushes onto six local
 * sequences and two running "start" trackers, proved equal to PbwtSpec.Step.
 */
module FindLongMatches {
  import opened PbwtSpec

  /** The local state of find_long_matches: the six pushed-to sequences, the two trackers and the matches. */
  datatype ScanState = ScanState(
    pos0: seq<nat>, div0: seq<nat>, match0: seq<nat>,
    pos1: seq<nat>, div1: seq<nat>, match1: seq<nat>,
    start0: nat, start1: nat, matches: seq<Match>)

  /** One iteration of the loop body on entry `h` with divergence `start`. */
  ghost function Visit(s: ScanState, col: seq<Allele>, k: nat, minSize: nat, h: nat, start: nat): ScanState {
    var brk := Breaks(start, k, minSize);
    var matches := if brk && (s.match0 != [] || s.match1 != []) then s.matches + [Match(s.match0, s.match1, k)] else s.matches;
    var m0 := if brk then [] else s.match0;
    var m1 := if brk then [] else s.match1;
    var t0 := Max(s.start0, start);
    var t1 := Max(s.start1, start);
    if IsZero(col, h) then ScanState(s.pos0 + [h], s.div0 + [t0], m0 + [h], s.pos1, s.div1, m1, 0, t1, matches)
    else ScanState(s.pos0, s.div0, m0, s.pos1 + [h], s.div1 + [t1], m1 + [h], t0, 0, matches)
  }

  /** The loop state after the first `i` entries of a_k. */
  ghost function Scan(p: seq<nat>, d: seq<nat>, col: seq<Allele>, k: nat, minSize: nat, i: nat): ScanState
    requires |d| == |p| && i <= |p|
  {
    if i == 0 then ScanState([], [], [], [], [], [], k + 1, k + 1, [])
    else Visit(Scan(p, d, col, k, minSize, i - 1), col, k, minSize, p[i - 1], d[i - 1])
  }

  /** The value of the side-`zero` tracker when entry `i` is reached, before it is compared with d_k[i]. */
  ghost function Tracker(p: seq<nat>, d: seq<nat>, col: seq<Allele>, k: nat, zero: bool, i: nat): nat
    requires |d| == |p| && i <= |p|
  {
    var j := LastBefore(p, col, zero, i);
    if j < 0 then Max(k + 1, MaxOf(d[..i])) else MaxOf(d[j + 1..i])
  }

  lemma MaxOfSnoc(s: seq<nat>, lo: nat, hi: nat)
    requires lo <= hi < |s|
    ensures MaxOf(s[lo..hi + 1]) == Max(MaxOf(s[lo..hi]), s[hi])
  {
    assert s[lo..hi + 1][..hi - lo] == s[lo..hi];
  }

  /**
   * Raising the tracker to d_k[i] gives the value pushed for entry `i` on its
   * own side, after which that tracker restarts at 0; the other side's
   * tracker keeps the raised value.
   */
  lemma TrackerStep(p: seq<nat>, d: seq<nat>, col: seq<Allele>, k: nat, zero: bool, i: nat)
    requires |d| == |p| && i < |p|
    ensures IsZero(col, p[i]) == zero ==>
      RunStart(p, d, col, k, i) == Max(Tracker(p, d, col, k, zero, i), d[i]) &&
      Tracker(p, d, col, k, zero, i + 1) == 0
    ensures IsZero(col, p[i]) != zero ==>
      Tracker(p, d, col, k, zero, i + 1) == Max(Tracker(p, d, col, k, zero, i), d[i])
  {
    var j := LastBefore(p, col, zero, i);
    var m := if j < 0 then 0 else j + 1;
    MaxOfSnoc(d, m, i);
    assert d[..i + 1] == d[0..i + 1] && d[..i] == d[0..i];
    var raised := Max(Tracker(p, d, col, k, zero, i), d[i]);
    assert raised == (if j < 0 then Max(k + 1, MaxOf(d[m..i + 1])) else MaxOf(d[m..i + 1]));
    if IsZero(col, p[i]) == zero {
      assert LastBefore(p, col, zero, i + 1) == i;
      assert d[i + 1..i + 1] == [];
    } else {
      assert LastBefore(p, col, zero, i + 1) == j;
    }
  }

  /** One entry's effect on side `zero`: the value it pushes, if it is on that side, and the tracker after it. */
  lemma SideStep(p: seq<nat>, d: seq<nat>, col: seq<Allele>, k: nat, zero: bool, i: nat)
    requires |d| == |p| && i < |p|
    ensures Divergences(p, d, col, k, zero, i + 1) == Divergences(p, d, col, k, zero, i) +
      (if IsZero(col, p[i]) == zero then [Max(Tracker(p, d, col, k, zero, i), d[i])] else [])
    ensures Tracker(p, d, col, k, zero, i + 1) ==
      if IsZero(col, p[i]) == zero then 0 else Max(Tracker(p, d, col, k, zero, i), d[i])
  {
    TrackerStep(p, d, col, k, zero, i);
  }

  /**
   * The match bookkeeping after the first entries whose groups are `gs`:
   * every group but the last has been emitted, and the last one is still
   * open in the two accumulators.
   */
  ghost predicate Pending(gs: seq<seq<nat>>, col: seq<Allele>, k: nat,
                          matches: seq<Match>, acc0: seq<nat>, acc1: seq<nat>)
  {
    if |gs| == 0 then matches == [] && acc0 == [] && acc1 == []
    else
      matches == MatchesOf(gs[..|gs| - 1], col, k) &&
      acc0 == Zeros(gs[|gs| - 1], col) && acc1 == Ones(gs[|gs| - 1], col)
  }

  /** Closing the open group (if any) and opening a new one holding `h`. */
  lemma PendingOpen(gs: seq<seq<nat>>, h: nat, col: seq<Allele>, k: nat,
                    matches: seq<Match>, acc0: seq<nat>, acc1: seq<nat>)
    requires forall j :: 0 <= j < |gs| ==> |gs[j]| > 0
    requires Pending(gs, col, k, matches, acc0, acc1)
    ensures
      var emitted := if acc0 != [] || acc1 != [] then matches + [Match(acc0, acc1, k)] else matches;
      Pending(gs + [[h]], col, k, emitted,
              if IsZero(col, h) then [h] else [],
              if IsZero(col, h) then [] else [h])
  {
    var gs' := gs + [[h]];
    assert gs'[..|gs'| - 1] == gs;
    SelectSnoc([], h, col, true);
    SelectSnoc([], h, col, false);
    if |gs| > 0 {
      SelectLength(gs[|gs| - 1], col);
      assert gs == gs[..|gs| - 1] + [gs[|gs| - 1]];
    }
  }

  /** Adding `h` to the open group. */
  lemma PendingExtend(gs: seq<seq<nat>>, h: nat, col: seq<Allele>, k: nat,
                      matches: seq<Match>, acc0: seq<nat>, acc1: seq<nat>)
    requires |gs| > 0
    requires Pending(gs, col, k, matches, acc0, acc1)
    ensures Pending(gs[..|gs| - 1] + [gs[|gs| - 1] + [h]], col, k, matches,
                    if IsZero(col, h) then acc0 + [h] else acc0,
                    if IsZero(col, h) then acc1 else acc1 + [h])
  {
    var gs' := gs[..|gs| - 1] + [gs[|gs| - 1] + [h]];
    assert gs'[..|gs'| - 1] == gs[..|gs| - 1];
    SelectSnoc(gs[|gs| - 1], h, col, true);
    SelectSnoc(gs[|gs| - 1], h, col, false);
  }

  /** What one iteration does to the match bookkeeping. */
  lemma VisitMatches(s: ScanState, col: seq<Allele>, k: nat, minSize: nat, h: nat, start: nat)
    ensures var s' := Visit(s, col, k, minSize, h, start);
      var brk := Breaks(start, k, minSize);
      s'.matches == (if brk && (s.match0 != [] || s.match1 != []) then s.matches + [Match(s.match0, s.match1, k)] else s.matches) &&
      s'.match0 == (if brk then [] else s.match0) + (if IsZero(col, h) then [h] else []) &&
      s'.match1 == (if brk then [] else s.match1) + (if IsZero(col, h) then [] else [h])
  {
  }

  /** What one iteration does to the pushed divergence values and the trackers. */
  lemma VisitTrackers(s: ScanState, col: seq<Allele>, k: nat, minSize: nat, h: nat, start: nat)
    ensures var s' := Visit(s, col, k, minSize, h, start);
      s'.div0 == s.div0 + (if IsZero(col, h) then [Max(s.start0, start)] else []) &&
      s'.start0 == (if IsZero(col, h) then 0 else Max(s.start0, start)) &&
      s'.div1 == s.div1 + (if IsZero(col, h) then [] else [Max(s.start1, start)]) &&
      s'.start1 == (if IsZero(col, h) then Max(s.start1, start) else 0)
  {
  }

  /** Visiting `h` moves the match bookkeeping from groups `gs` to the groups with `h` added. */
  lemma PendingVisit(gs: seq<seq<nat>>, s: ScanState, col: seq<Allele>, k: nat, minSize: nat, h: nat, start: nat)
    requires forall j :: 0 <= j < |gs| ==> |gs[j]| > 0
    requires Pending(gs, col, k, s.matches, s.match0, s.match1)
    ensures var s' := Visit(s, col, k, minSize, h, start);
      Pending(if |gs| == 0 || Breaks(start, k, minSize) then gs + [[h]] else gs[..|gs| - 1] + [gs[|gs| - 1] + [h]],
              col, k, s'.matches, s'.match0, s'.match1)
  {
    VisitMatches(s, col, k, minSize, h, start);
    if |gs| == 0 || Breaks(start, k, minSize) {
      if |gs| == 0 {
        assert s.match0 == [] && s.match1 == [];
      }
      PendingOpen(gs, h, col, k, s.matches, s.match0, s.match1);
    } else {
      PendingExtend(gs, h, col, k, s.matches, s.match0, s.match1);
    }
  }

  /** One loop iteration keeps the match bookkeeping in step with Groups. */
  lemma PendingStep(p: seq<nat>, d: seq<nat>, col: seq<Allele>, k: nat, minSize: nat, i: nat, s: ScanState)
    requires |d| == |p| && i < |p|
    requires Pending(Groups(p[..i], d[..i], k, minSize), col, k, s.matches, s.match0, s.match1)
    ensures var s' := Visit(s, col, k, minSize, p[i], d[i]);
      Pending(Groups(p[..i + 1], d[..i + 1], k, minSize), col, k, s'.matches, s'.match0, s'.match1)
  {
    GroupsAt(p, d, k, minSize, i);
    PendingVisit(Groups(p[..i], d[..i], k, minSize), s, col, k, minSize, p[i], d[i]);
  }

  /** The pushed positions are the two sides of the partition of the entries seen so far. */
  lemma {:induction false} ScanPositions(p: seq<nat>, d: seq<nat>, col: seq<Allele>, k: nat, minSize: nat, i: nat)
    requires |d| == |p| && i <= |p|
    ensures Scan(p, d, col, k, minSize, i).pos0 == Zeros(p[..i], col)
    ensures Scan(p, d, col, k, minSize, i).pos1 == Ones(p[..i], col)
  {
    if i > 0 {
      ScanPositions(p, d, col, k, minSize, i - 1);
      assert p[..i] == p[..i - 1] + [p[i - 1]];
      SelectSnoc(p[..i - 1], p[i - 1], col, true);
      SelectSnoc(p[..i - 1], p[i - 1], col, false);
    }
  }

  /** The pushed divergence values are Durbin's, and the trackers hold Tracker. */
  lemma {:induction false} ScanDivergences(p: seq<nat>, d: seq<nat>, col: seq<Allele>, k: nat, minSize: nat, i: nat)
    requires |d| == |p| && i <= |p|
    ensures Scan(p, d, col, k, minSize, i).div0 == Divergences(p, d, col, k, true, i)
    ensures Scan(p, d, col, k, minSize, i).div1 == Divergences(p, d, col, k, false, i)
    ensures Scan(p, d, col, k, minSize, i).start0 == Tracker(p, d, col, k, true, i)
    ensures Scan(p, d, col, k, minSize, i).start1 == Tracker(p, d, col, k, false, i)
  {
    if i > 0 {
      var j := i - 1;
      assert j + 1 == i;
      ScanDivergences(p, d, col, k, minSize, j);
      VisitTrackers(Scan(p, d, col, k, minSize, j), col, k, minSize, p[j], d[j]);
      SideStep(p, d, col, k, true, j);
      SideStep(p, d, col, k, false, j);
    }
  }

  /** The emitted matches and the accumulators follow Groups. */
  lemma {:induction false} ScanGroups(p: seq<nat>, d: seq<nat>, col: seq<Allele>, k: nat, minSize: nat, i: nat)
    requires |d| == |p| && i <= |p|
    ensures var s := Scan(p, d, col, k, minSize, i);
      Pending(Groups(p[..i], d[..i], k, minSize), col, k, s.matches, s.match0, s.match1)
  {
    if i > 0 {
      var j := i - 1;
      assert j + 1 == i;
      ScanGroups(p, d, col, k, minSize, j);
      PendingStep(p, d, col, k, minSize, j, Scan(p, d, col, k, minSize, j));
    }
  }

  /** Flushing the open group after the pass completes the list of matches. */
  lemma PendingFlush(gs: seq<seq<nat>>, col: seq<Allele>, k: nat,
                     matches: seq<Match>, acc0: seq<nat>, acc1: seq<nat>)
    requires forall j :: 0 <= j < |gs| ==> |gs[j]| > 0
    requires Pending(gs, col, k, matches, acc0, acc1)
    ensures MatchesOf(gs, col, k) == if acc0 != [] || acc1 != [] then matches + [Match(acc0, acc1, k)] else matches
  {
    if |gs| > 0 {
      SelectLength(gs[|gs| - 1], col);
      assert gs == gs[..|gs| - 1] + [gs[|gs| - 1]];
    }
  }

  /**
   * The reference step is what one pass of the loop body followed by the
   * final flush computes.
   */
  lemma StepByScan(p: seq<nat>, d: seq<nat>, col: seq<Allele>, k: nat, minSize: nat)
    requires |d| == |p|
    ensures var s := Scan(p, d, col, k, minSize, |p|);
      Step(p, d, col, k, minSize) ==
        Transition(if s.match0 != [] || s.match1 != [] then s.matches + [Match(s.match0, s.match1, k)] else s.matches,
                   s.pos0 + s.pos1, s.div0 + s.div1)
  {
    ScanPositions(p, d, col, k, minSize, |p|);
    ScanDivergences(p, d, col, k, minSize, |p|);
    ScanGroups(p, d, col, k, minSize, |p|);
    assert p[..|p|] == p && d[..|d|] == d;
    var s := Scan(p, d, col, k, minSize, |p|);
    PendingFlush(Groups(p, d, k, minSize), col, k, s.matches, s.match0, s.match1);
  }

  method FindLongMatches(prefix: seq<nat>, divergence: seq<nat>, haplotypes: seq<Allele>, k: nat, minSize: nat)
    returns (matches: seq<Match>, nextPrefix: seq<nat>, nextDivergence: seq<nat>)
    requires |divergence| == |prefix|
    requires Indexes(prefix, haplotypes)
    ensures nextPrefix == Zeros(prefix, haplotypes) + Ones(prefix, haplotypes)
    ensures nextDivergence == Divergences(prefix, divergence, haplotypes, k, true, |prefix|) +
                              Divergences(prefix, divergence, haplotypes, k, false, |prefix|)
    ensures matches == MatchesOf(Groups(prefix, divergence, k, minSize), haplotypes, k)
  {
    var allele0Pos, allele0Div, allele0Match: seq<nat> := [], [], [];
    var allele1Pos, allele1Div, allele1Match: seq<nat> := [], [], [];
    var match0Start: nat, match1Start: nat := k + 1, k + 1;
    matches := [];
    for i := 0 to |prefix|
      invariant ScanState(allele0Pos, allele0Div, allele0Match, allele1Pos, allele1Div, allele1Match,
                          match0Start, match1Start, matches) == Scan(prefix, divergence, haplotypes, k, minSize, i)
    {
      var haploIndex, startOfMatch := prefix[i], divergence[i];
      if startOfMatch + minSize > k {
        if allele0Match != [] || allele1Match != [] {
          matches := matches + [Match(allele0Match, allele1Match, k)];
        }
        allele0Match, allele1Match := [], [];
      }
      if startOfMatch > match0Start {
        match0Start := startOfMatch;
      }
      if startOfMatch > match1Start {
        match1Start := startOfMatch;
      }
      if haplotypes[haploIndex] == 0 {
        allele0Pos := allele0Pos + [haploIndex];
        allele0Div := allele0Div + [match0Start];
        allele0Match := allele0Match + [haploIndex];
        match0Start := 0;
      } else {
        allele1Pos := allele1Pos + [haploIndex];
        allele1Div := allele1Div + [match1Start];
        allele1Match := allele1Match + [haploIndex];
        match1Start := 0;
      }
    }
    StepByScan(prefix, divergence, haplotypes, k, minSize);
    if allele0Match != [] || allele1Match != [] {
      matches := matches + [Match(allele0Match, allele1Match, k)];
    }
    nextPrefix := allele0Pos + allele1Pos;
    nextDivergence := allele0Div + allele1Div;
  }
}
