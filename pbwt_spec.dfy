/**
 * Reference definitions for one step of the positional Burrows-Wheeler
 * Transform (Durbin 2014): the stable partition that gives a_{k+1}, the
 * closed form of d_{k+1}, and the segmentation of a_k into match groups.
 * The imperative step in module FindLongMatches is proved equal to these.
 */
module PbwtSpec {

  /** An allele as stored in the haplotype matrix: an unsigned byte. */
  type Allele = x: int | 0 <= x < 256

  /** A completed match group: its members split by allele at site `end`. */
  datatype Match = Match(haploA: seq<nat>, haploB: seq<nat>, end: nat)

  /** What a step or a sweep returns: the emitted matches, the prefix array and the divergence array. */
  datatype Transition = Transition(matches: seq<Match>, prefix: seq<nat>, divergence: seq<nat>)

  function Max(a: nat, b: nat): nat { if a < b then b else a }

  /** Every column has one allele per haplotype. */
  predicate Width(cols: seq<seq<Allele>>, n: nat) {
    forall s :: 0 <= s < |cols| ==> |cols[s]| == n
  }

  /** Every haplotype index in `p` addresses an entry of the column `col`. */
  predicate Indexes(p: seq<nat>, col: seq<Allele>) {
    forall i :: 0 <= i < |p| ==> p[i] < |col|
  }

  /**
   * The branch taken on haplotype `h`: allele 0, or any other value. The
   * step only asks this of haplotypes that address the column (Indexes);
   * an index outside it is counted on the nonzero side.
   */
  predicate IsZero(col: seq<Allele>, h: nat) {
    h < |col| && col[h] == 0
  }

  /** The entries of `p` on the allele-0 side (`zero`) or the other side, in the order of `p`. */
  function Select(p: seq<nat>, col: seq<Allele>, zero: bool): (r: seq<nat>)
    ensures |r| <= |p|
  {
    if |p| == 0 then []
    else
      var last := p[|p| - 1];
      Select(p[..|p| - 1], col, zero) + (if IsZero(col, last) == zero then [last] else [])
  }

  lemma SelectSnoc(p: seq<nat>, h: nat, col: seq<Allele>, zero: bool)
    ensures Select(p + [h], col, zero) == Select(p, col, zero) + (if IsZero(col, h) == zero then [h] else [])
  {
    assert (p + [h])[..|p|] == p;
  }

  /** The two sides of the partition together are exactly as long as the input. */
  lemma {:induction false} SelectLength(p: seq<nat>, col: seq<Allele>)
    ensures |Select(p, col, true)| + |Select(p, col, false)| == |p|
  {
    if |p| > 0 {
      SelectLength(p[..|p| - 1], col);
    }
  }

  function Zeros(p: seq<nat>, col: seq<Allele>): seq<nat>
  {
    Select(p, col, true)
  }

  function Ones(p: seq<nat>, col: seq<Allele>): seq<nat>
  {
    Select(p, col, false)
  }

  /** The position of the last entry before `i` on side `zero`, or -1 when there is none. */
  function LastBefore(p: seq<nat>, col: seq<Allele>, zero: bool, i: nat): (j: int)
    requires i <= |p|
    ensures -1 <= j < i
    ensures j >= 0 ==> IsZero(col, p[j]) == zero
  {
    if i == 0 then -1
    else if IsZero(col, p[i - 1]) == zero then i - 1
    else LastBefore(p, col, zero, i - 1)
  }

  /** The largest element of `s`, 0 for the empty sequence. */
  function MaxOf(s: seq<nat>): nat {
    if |s| == 0 then 0 else Max(MaxOf(s[..|s| - 1]), s[|s| - 1])
  }

  /**
   * Durbin's d_{k+1} value for entry `i` of a_k: the latest divergence among
   * the entries since the previous entry on the same side, or the "no
   * predecessor" sentinel k+1 when `i` is the first entry on its side.
   */
  function RunStart(p: seq<nat>, d: seq<nat>, col: seq<Allele>, k: nat, i: nat): nat
    requires |d| == |p| && i < |p|
  {
    var j := LastBefore(p, col, IsZero(col, p[i]), i);
    if j < 0 then Max(k + 1, MaxOf(d[..i + 1])) else MaxOf(d[j + 1..i + 1])
  }

  /** The divergence values of the entries among the first `n` of `p` on side `zero`. */
  function Divergences(p: seq<nat>, d: seq<nat>, col: seq<Allele>, k: nat, zero: bool, n: nat): seq<nat>
    requires |d| == |p| && n <= |p|
  {
    if n == 0 then []
    else
      Divergences(p, d, col, k, zero, n - 1) +
        (if IsZero(col, p[n - 1]) == zero then [RunStart(p, d, col, k, n - 1)] else [])
  }

  /** Entry with divergence `start` is too short a run to continue a match ending at site `k`. */
  predicate Breaks(start: nat, k: nat, minSize: nat) {
    start + minSize > k
  }

  /** The concatenation of a sequence of groups. */
  function Flatten(gs: seq<seq<nat>>): seq<nat> {
    if |gs| == 0 then [] else Flatten(gs[..|gs| - 1]) + gs[|gs| - 1]
  }

  /**
   * The maximal runs of `p` (in order) that contain no breaking entry after
   * their first: a new group opens at position 0 and at every position whose
   * divergence Breaks.
   */
  function Groups(p: seq<nat>, d: seq<nat>, k: nat, minSize: nat): (gs: seq<seq<nat>>)
    requires |d| == |p|
    ensures |gs| == 0 <==> |p| == 0
    ensures forall j :: 0 <= j < |gs| ==> |gs[j]| > 0
  {
    if |p| == 0 then []
    else
      var n := |p|;
      var gs := Groups(p[..n - 1], d[..n - 1], k, minSize);
      if |gs| == 0 || Breaks(d[n - 1], k, minSize) then gs + [[p[n - 1]]]
      else gs[..|gs| - 1] + [gs[|gs| - 1] + [p[n - 1]]]
  }

  /** Groups of one more entry: a new group when the entry breaks (or is the first), else the open group grows. */
  lemma GroupsAt(p: seq<nat>, d: seq<nat>, k: nat, minSize: nat, i: nat)
    requires |d| == |p| && i < |p|
    ensures var gs := Groups(p[..i], d[..i], k, minSize);
      Groups(p[..i + 1], d[..i + 1], k, minSize) ==
        if |gs| == 0 || Breaks(d[i], k, minSize) then gs + [[p[i]]]
        else gs[..|gs| - 1] + [gs[|gs| - 1] + [p[i]]]
  {
    assert p[..i + 1][..i] == p[..i] && d[..i + 1][..i] == d[..i];
  }

  /** The match emitted for each group: its allele-0 members, its other members, and the site. */
  function MatchesOf(gs: seq<seq<nat>>, col: seq<Allele>, k: nat): seq<Match>
  {
    if |gs| == 0 then []
    else
      var g := gs[|gs| - 1];
      MatchesOf(gs[..|gs| - 1], col, k) + [Match(Zeros(g, col), Ones(g, col), k)]
  }

  /** All haplotypes named by a sequence of matches, each match's haploA before its haploB. */
  function Members(ms: seq<Match>): seq<nat> {
    if |ms| == 0 then []
    else Members(ms[..|ms| - 1]) + ms[|ms| - 1].haploA + ms[|ms| - 1].haploB
  }

  /** One PBWT step at site `k`: the reference for find_long_matches. */
  function Step(p: seq<nat>, d: seq<nat>, col: seq<Allele>, k: nat, minSize: nat): Transition
    requires |d| == |p|
  {
    var gs := Groups(p, d, k, minSize);
    Transition(MatchesOf(gs, col, k),
               Zeros(p, col) + Ones(p, col),
               Divergences(p, d, col, k, true, |p|) + Divergences(p, d, col, k, false, |p|))
  }
}
