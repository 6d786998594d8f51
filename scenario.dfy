/**
 * The scenario of the unit test in src/main.rs: eight haplotypes over six
 * sites with min_size 3. With k_site = 1 nothing is stepped; with k_site = 6
 * sites 0 .. 4 are stepped, and the prefix and divergence arrays the test
 * expects come out. Each site is read off one pass of find_long_matches
 * (Scan), which StepByScan equates with the reference Step.
 */
module Scenario {
  import opened PbwtSpec
  import opened FindLongMatches
  import opened FindAllLongMatches

  const Site0Alleles: seq<Allele> := [0, 1, 1, 0, 0, 1, 1, 0]
  const Site1Alleles: seq<Allele> := [1, 1, 1, 1, 0, 0, 1, 1]
  const Site2Alleles: seq<Allele> := [0, 0, 1, 1, 0, 0, 0, 0]
  const Site3Alleles: seq<Allele> := [1, 0, 1, 1, 0, 0, 0, 1]
  const Site4Alleles: seq<Allele> := [0, 0, 1, 1, 0, 1, 0, 1]
  const Site5Alleles: seq<Allele> := [1, 1, 1, 0, 0, 0, 1, 0]

  /** The test matrix, site-major: the alleles of the eight haplotypes at site 0, then at site 1, and so on. */
  const Matrix: seq<Allele> := Site0Alleles + Site1Alleles + Site2Alleles + Site3Alleles + Site4Alleles + Site5Alleles

  /** The columns stepped for k_site = 6. */
  const Stepped: seq<seq<Allele>> := [Site0Alleles, Site1Alleles, Site2Alleles, Site3Alleles, Site4Alleles]

  /** The arrays `s` and `t` hold the same entries in the same positions. */
  predicate SameEntries(s: seq<nat>, t: seq<nat>) {
    |s| == |t| && forall i :: 0 <= i < |s| ==> s[i] == t[i]
  }

  lemma MatrixColumns()
    ensures Columns(Matrix, 8, 5) == Stepped
  {
    var m := Matrix;
    assert m[0..8] == Site0Alleles;
    assert m[8..16] == Site1Alleles;
    assert m[16..24] == Site2Alleles;
    assert m[24..32] == Site3Alleles;
    assert m[32..40] == Site4Alleles;
    assert Columns(m, 8, 1) == [Site0Alleles];
    assert Columns(m, 8, 2) == [Site0Alleles, Site1Alleles];
    assert Columns(m, 8, 3) == [Site0Alleles, Site1Alleles, Site2Alleles];
    assert Columns(m, 8, 4) == [Site0Alleles, Site1Alleles, Site2Alleles, Site3Alleles];
  }

  /** k_site = 1: the identity prefix array, an all-zero divergence array, and no matches. */
  lemma FirstSite()
    ensures Sweep(Columns(Matrix, 8, 0), 8, 3) ==
      Transition([], [0, 1, 2, 3, 4, 5, 6, 7], [0, 0, 0, 0, 0, 0, 0, 0])
  {
    assert Identity(8) == [0, 1, 2, 3, 4, 5, 6, 7];
    assert seq(8, _ => 0) == [0, 0, 0, 0, 0, 0, 0, 0];
  }

  /** The state before any site, in entrywise form. */
  lemma NoSite(cols: seq<seq<Allele>>)
    requires cols == []
    ensures SameEntries(Sweep(cols, 8, 3).prefix, [0, 1, 2, 3, 4, 5, 6, 7])
    ensures SameEntries(Sweep(cols, 8, 3).divergence, [0, 0, 0, 0, 0, 0, 0, 0])
  {
    assert cols == Columns(Matrix, 8, 0);
    FirstSite();
  }

  /** The first k sites stepped in the unit test each hold eight alleles. */
  lemma SteppedWidth(k: nat)
    requires k <= |Stepped|
    ensures Width(Stepped[..k], 8)
  {
    assert Width(Stepped, 8);
  }

  /** One more site of the sweep: the new arrays are what the pass over the last column, site k, pushes. */
  lemma SweepByScan(cols: seq<seq<Allele>>, k: nat, n: nat, minSize: nat)
    requires |cols| == k + 1 && Width(cols, n)
    ensures var prev := Sweep(cols[..k], n, minSize);
      var s := Scan(prev.prefix, prev.divergence, cols[k], k, minSize, n);
      Sweep(cols, n, minSize).prefix == s.pos0 + s.pos1 &&
      Sweep(cols, n, minSize).divergence == s.div0 + s.div1
  {
    var prev := Sweep(cols[..k], n, minSize);
    StepByScan(prev.prefix, prev.divergence, cols[k], k, minSize);
  }

  /** The pass over site 0, halfway: the state after the first four entries of a_k. */
  lemma Pass0Midway(p: seq<nat>, d: seq<nat>, col: seq<Allele>)
    requires SameEntries(p, [0, 1, 2, 3, 4, 5, 6, 7])
    requires SameEntries(d, [0, 0, 0, 0, 0, 0, 0, 0])
    requires col == Site0Alleles
    ensures var s := Scan(p, d, col, 0, 3, 4);
      s.pos0 == [0, 3] && s.div0 == [1, 0] && s.pos1 == [1, 2] && s.div1 == [1, 0] &&
      s.start0 == 0 && s.start1 == 0
  {
    assert p == [0, 1, 2, 3, 4, 5, 6, 7];
    assert d == [0, 0, 0, 0, 0, 0, 0, 0];
  }

  /** The pass over site 0: the entries pushed on the allele-0 side, then those on the other side. */
  lemma Pass0Positions(p: seq<nat>, d: seq<nat>, col: seq<Allele>)
    requires SameEntries(p, [0, 1, 2, 3, 4, 5, 6, 7])
    requires SameEntries(d, [0, 0, 0, 0, 0, 0, 0, 0])
    requires col == Site0Alleles
    ensures Scan(p, d, col, 0, 3, 8).pos0 + Scan(p, d, col, 0, 3, 8).pos1 == [0, 3, 4, 7, 1, 2, 5, 6]
  {
    assert p == [0, 1, 2, 3, 4, 5, 6, 7];
    assert d == [0, 0, 0, 0, 0, 0, 0, 0];
    Pass0Midway(p, d, col);
  }

  /** The pass over site 0: the divergence values pushed on the allele-0 side, then those on the other side. */
  lemma Pass0Divergences(p: seq<nat>, d: seq<nat>, col: seq<Allele>)
    requires SameEntries(p, [0, 1, 2, 3, 4, 5, 6, 7])
    requires SameEntries(d, [0, 0, 0, 0, 0, 0, 0, 0])
    requires col == Site0Alleles
    ensures Scan(p, d, col, 0, 3, 8).div0 + Scan(p, d, col, 0, 3, 8).div1 == [1, 0, 0, 0, 1, 0, 0, 0]
  {
    assert p == [0, 1, 2, 3, 4, 5, 6, 7];
    assert d == [0, 0, 0, 0, 0, 0, 0, 0];
    Pass0Midway(p, d, col);
  }

  /** The pass over site 1, halfway: the state after the first four entries of a_k. */
  lemma Pass1Midway(p: seq<nat>, d: seq<nat>, col: seq<Allele>)
    requires SameEntries(p, [0, 3, 4, 7, 1, 2, 5, 6])
    requires SameEntries(d, [1, 0, 0, 0, 1, 0, 0, 0])
    requires col == Site1Alleles
    ensures var s := Scan(p, d, col, 1, 3, 4);
      s.pos0 == [4] && s.div0 == [2] && s.pos1 == [0, 3, 7] && s.div1 == [2, 0, 0] &&
      s.start0 == 0 && s.start1 == 0
  {
    assert p == [0, 3, 4, 7, 1, 2, 5, 6];
    assert d == [1, 0, 0, 0, 1, 0, 0, 0];
  }

  /** The pass over site 1: the entries pushed on the allele-0 side, then those on the other side. */
  lemma Pass1Positions(p: seq<nat>, d: seq<nat>, col: seq<Allele>)
    requires SameEntries(p, [0, 3, 4, 7, 1, 2, 5, 6])
    requires SameEntries(d, [1, 0, 0, 0, 1, 0, 0, 0])
    requires col == Site1Alleles
    ensures Scan(p, d, col, 1, 3, 8).pos0 + Scan(p, d, col, 1, 3, 8).pos1 == [4, 5, 0, 3, 7, 1, 2, 6]
  {
    assert p == [0, 3, 4, 7, 1, 2, 5, 6];
    assert d == [1, 0, 0, 0, 1, 0, 0, 0];
    Pass1Midway(p, d, col);
  }

  /** The pass over site 1: the divergence values pushed on the allele-0 side, then those on the other side. */
  lemma Pass1Divergences(p: seq<nat>, d: seq<nat>, col: seq<Allele>)
    requires SameEntries(p, [0, 3, 4, 7, 1, 2, 5, 6])
    requires SameEntries(d, [1, 0, 0, 0, 1, 0, 0, 0])
    requires col == Site1Alleles
    ensures Scan(p, d, col, 1, 3, 8).div0 + Scan(p, d, col, 1, 3, 8).div1 == [2, 1, 2, 0, 0, 1, 0, 0]
  {
    assert p == [0, 3, 4, 7, 1, 2, 5, 6];
    assert d == [1, 0, 0, 0, 1, 0, 0, 0];
    Pass1Midway(p, d, col);
  }

  /** The pass over site 2, halfway: the state after the first four entries of a_k. */
  lemma Pass2Midway(p: seq<nat>, d: seq<nat>, col: seq<Allele>)
    requires SameEntries(p, [4, 5, 0, 3, 7, 1, 2, 6])
    requires SameEntries(d, [2, 1, 2, 0, 0, 1, 0, 0])
    requires col == Site2Alleles
    ensures var s := Scan(p, d, col, 2, 3, 4);
      s.pos0 == [4, 5, 0] && s.div0 == [3, 1, 2] && s.pos1 == [3] && s.div1 == [3] &&
      s.start0 == 0 && s.start1 == 0
  {
    assert p == [4, 5, 0, 3, 7, 1, 2, 6];
    assert d == [2, 1, 2, 0, 0, 1, 0, 0];
  }

  /** The pass over site 2: the entries pushed on the allele-0 side, then those on the other side. */
  lemma Pass2Positions(p: seq<nat>, d: seq<nat>, col: seq<Allele>)
    requires SameEntries(p, [4, 5, 0, 3, 7, 1, 2, 6])
    requires SameEntries(d, [2, 1, 2, 0, 0, 1, 0, 0])
    requires col == Site2Alleles
    ensures Scan(p, d, col, 2, 3, 8).pos0 + Scan(p, d, col, 2, 3, 8).pos1 == [4, 5, 0, 7, 1, 6, 3, 2]
  {
    assert p == [4, 5, 0, 3, 7, 1, 2, 6];
    assert d == [2, 1, 2, 0, 0, 1, 0, 0];
    Pass2Midway(p, d, col);
  }

  /** The pass over site 2: the divergence values pushed on the allele-0 side, then those on the other side. */
  lemma Pass2Divergences(p: seq<nat>, d: seq<nat>, col: seq<Allele>)
    requires SameEntries(p, [4, 5, 0, 3, 7, 1, 2, 6])
    requires SameEntries(d, [2, 1, 2, 0, 0, 1, 0, 0])
    requires col == Site2Alleles
    ensures Scan(p, d, col, 2, 3, 8).div0 + Scan(p, d, col, 2, 3, 8).div1 == [3, 1, 2, 0, 1, 0, 3, 1]
  {
    assert p == [4, 5, 0, 3, 7, 1, 2, 6];
    assert d == [2, 1, 2, 0, 0, 1, 0, 0];
    Pass2Midway(p, d, col);
  }

  /** The pass over site 3, halfway: the state after the first four entries of a_k. */
  lemma Pass3Midway(p: seq<nat>, d: seq<nat>, col: seq<Allele>)
    requires SameEntries(p, [4, 5, 0, 7, 1, 6, 3, 2])
    requires SameEntries(d, [3, 1, 2, 0, 1, 0, 3, 1])
    requires col == Site3Alleles
    ensures var s := Scan(p, d, col, 3, 3, 4);
      s.pos0 == [4, 5] && s.div0 == [4, 1] && s.pos1 == [0, 7] && s.div1 == [4, 0] &&
      s.start0 == 2 && s.start1 == 0
  {
    assert p == [4, 5, 0, 7, 1, 6, 3, 2];
    assert d == [3, 1, 2, 0, 1, 0, 3, 1];
  }

  /** The pass over site 3: the entries pushed on the allele-0 side, then those on the other side. */
  lemma Pass3Positions(p: seq<nat>, d: seq<nat>, col: seq<Allele>)
    requires SameEntries(p, [4, 5, 0, 7, 1, 6, 3, 2])
    requires SameEntries(d, [3, 1, 2, 0, 1, 0, 3, 1])
    requires col == Site3Alleles
    ensures Scan(p, d, col, 3, 3, 8).pos0 + Scan(p, d, col, 3, 3, 8).pos1 == [4, 5, 1, 6, 0, 7, 3, 2]
  {
    assert p == [4, 5, 0, 7, 1, 6, 3, 2];
    assert d == [3, 1, 2, 0, 1, 0, 3, 1];
    Pass3Midway(p, d, col);
  }

  /** The pass over site 3: the divergence values pushed on the allele-0 side, then those on the other side. */
  lemma Pass3Divergences(p: seq<nat>, d: seq<nat>, col: seq<Allele>)
    requires SameEntries(p, [4, 5, 0, 7, 1, 6, 3, 2])
    requires SameEntries(d, [3, 1, 2, 0, 1, 0, 3, 1])
    requires col == Site3Alleles
    ensures Scan(p, d, col, 3, 3, 8).div0 + Scan(p, d, col, 3, 3, 8).div1 == [4, 1, 2, 0, 4, 0, 3, 1]
  {
    assert p == [4, 5, 0, 7, 1, 6, 3, 2];
    assert d == [3, 1, 2, 0, 1, 0, 3, 1];
    Pass3Midway(p, d, col);
  }

  /** The pass over site 4, halfway: the state after the first four entries of a_k. */
  lemma Pass4Midway(p: seq<nat>, d: seq<nat>, col: seq<Allele>)
    requires SameEntries(p, [4, 5, 1, 6, 0, 7, 3, 2])
    requires SameEntries(d, [4, 1, 2, 0, 4, 0, 3, 1])
    requires col == Site4Alleles
    ensures var s := Scan(p, d, col, 4, 3, 4);
      s.pos0 == [4, 1, 6] && s.div0 == [5, 2, 0] && s.pos1 == [5] && s.div1 == [5] &&
      s.start0 == 0 && s.start1 == 2
  {
    assert p == [4, 5, 1, 6, 0, 7, 3, 2];
    assert d == [4, 1, 2, 0, 4, 0, 3, 1];
  }

  /** The pass over site 4: the entries pushed on the allele-0 side, then those on the other side. */
  lemma Pass4Positions(p: seq<nat>, d: seq<nat>, col: seq<Allele>)
    requires SameEntries(p, [4, 5, 1, 6, 0, 7, 3, 2])
    requires SameEntries(d, [4, 1, 2, 0, 4, 0, 3, 1])
    requires col == Site4Alleles
    ensures Scan(p, d, col, 4, 3, 8).pos0 + Scan(p, d, col, 4, 3, 8).pos1 == [4, 1, 6, 0, 5, 7, 3, 2]
  {
    assert p == [4, 5, 1, 6, 0, 7, 3, 2];
    assert d == [4, 1, 2, 0, 4, 0, 3, 1];
    Pass4Midway(p, d, col);
  }

  /** The pass over site 4: the divergence values pushed on the allele-0 side, then those on the other side. */
  lemma Pass4Divergences(p: seq<nat>, d: seq<nat>, col: seq<Allele>)
    requires SameEntries(p, [4, 5, 1, 6, 0, 7, 3, 2])
    requires SameEntries(d, [4, 1, 2, 0, 4, 0, 3, 1])
    requires col == Site4Alleles
    ensures Scan(p, d, col, 4, 3, 8).div0 + Scan(p, d, col, 4, 3, 8).div1 == [5, 2, 0, 4, 5, 4, 3, 1]
  {
    assert p == [4, 5, 1, 6, 0, 7, 3, 2];
    assert d == [4, 1, 2, 0, 4, 0, 3, 1];
    Pass4Midway(p, d, col);
  }

  /** The state after stepping sites 0 .. 0. */
  lemma SweptSite0(cols: seq<seq<Allele>>)
    requires cols == Stepped[..1]
    ensures SameEntries(Sweep(cols, 8, 3).prefix, [0, 3, 4, 7, 1, 2, 5, 6])
    ensures SameEntries(Sweep(cols, 8, 3).divergence, [1, 0, 0, 0, 1, 0, 0, 0])
  {
    var prev := Sweep(cols[..0], 8, 3);
    NoSite(cols[..0]);
    Pass0Positions(prev.prefix, prev.divergence, cols[0]);
    Pass0Divergences(prev.prefix, prev.divergence, cols[0]);
    SteppedWidth(1);
    SweepByScan(cols, 0, 8, 3);
  }

  /** The state after stepping sites 0 .. 1. */
  lemma SweptSite1(cols: seq<seq<Allele>>)
    requires cols == Stepped[..2]
    ensures SameEntries(Sweep(cols, 8, 3).prefix, [4, 5, 0, 3, 7, 1, 2, 6])
    ensures SameEntries(Sweep(cols, 8, 3).divergence, [2, 1, 2, 0, 0, 1, 0, 0])
  {
    var prev := Sweep(cols[..1], 8, 3);
    SweptSite0(cols[..1]);
    Pass1Positions(prev.prefix, prev.divergence, cols[1]);
    Pass1Divergences(prev.prefix, prev.divergence, cols[1]);
    SteppedWidth(2);
    SweepByScan(cols, 1, 8, 3);
  }

  /** The state after stepping sites 0 .. 2. */
  lemma SweptSite2(cols: seq<seq<Allele>>)
    requires cols == Stepped[..3]
    ensures SameEntries(Sweep(cols, 8, 3).prefix, [4, 5, 0, 7, 1, 6, 3, 2])
    ensures SameEntries(Sweep(cols, 8, 3).divergence, [3, 1, 2, 0, 1, 0, 3, 1])
  {
    var prev := Sweep(cols[..2], 8, 3);
    SweptSite1(cols[..2]);
    Pass2Positions(prev.prefix, prev.divergence, cols[2]);
    Pass2Divergences(prev.prefix, prev.divergence, cols[2]);
    SteppedWidth(3);
    SweepByScan(cols, 2, 8, 3);
  }

  /** The state after stepping sites 0 .. 3. */
  lemma SweptSite3(cols: seq<seq<Allele>>)
    requires cols == Stepped[..4]
    ensures SameEntries(Sweep(cols, 8, 3).prefix, [4, 5, 1, 6, 0, 7, 3, 2])
    ensures SameEntries(Sweep(cols, 8, 3).divergence, [4, 1, 2, 0, 4, 0, 3, 1])
  {
    var prev := Sweep(cols[..3], 8, 3);
    SweptSite2(cols[..3]);
    Pass3Positions(prev.prefix, prev.divergence, cols[3]);
    Pass3Divergences(prev.prefix, prev.divergence, cols[3]);
    SteppedWidth(4);
    SweepByScan(cols, 3, 8, 3);
  }

  /** The state after stepping sites 0 .. 4. */
  lemma SweptSite4(cols: seq<seq<Allele>>)
    requires cols == Stepped[..5]
    ensures SameEntries(Sweep(cols, 8, 3).prefix, [4, 1, 6, 0, 5, 7, 3, 2])
    ensures SameEntries(Sweep(cols, 8, 3).divergence, [5, 2, 0, 4, 5, 4, 3, 1])
  {
    var prev := Sweep(cols[..4], 8, 3);
    SweptSite3(cols[..4]);
    Pass4Positions(prev.prefix, prev.divergence, cols[4]);
    Pass4Divergences(prev.prefix, prev.divergence, cols[4]);
    SteppedWidth(5);
    SweepByScan(cols, 4, 8, 3);
  }

  /** k_site = 6: the prefix and divergence arrays the unit test expects. */
  lemma SixthSite()
    ensures Sweep(Columns(Matrix, 8, 5), 8, 3).prefix == [4, 1, 6, 0, 5, 7, 3, 2]
    ensures Sweep(Columns(Matrix, 8, 5), 8, 3).divergence == [5, 2, 0, 4, 5, 4, 3, 1]
  {
    MatrixColumns();
    assert Stepped[..5] == Stepped;
    SweptSite4(Columns(Matrix, 8, 5));
  }

  /** The unit test of src/main.rs: both calls of find_all_long_matches and the arrays they must return. */
  method PpAndDivArrays() returns (pp1: seq<nat>, div1: seq<nat>, pp6: seq<nat>, div6: seq<nat>)
    ensures pp1 == [0, 1, 2, 3, 4, 5, 6, 7] && div1 == [0, 0, 0, 0, 0, 0, 0, 0]
    ensures pp6 == [4, 1, 6, 0, 5, 7, 3, 2] && div6 == [5, 2, 0, 4, 5, 4, 3, 1]
  {
    FirstSite();
    SixthSite();
    var matches1, matches6;
    matches1, pp1, div1 := FindAllLongMatches.FindAllLongMatches(Matrix, 8, 1, 3);
    matches6, pp6, div6 := FindAllLongMatches.FindAllLongMatches(Matrix, 8, 6, 3);
  }
}
