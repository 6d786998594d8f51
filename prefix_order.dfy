/**
 * What the order of the prefix array means: after k sites, a_k lists the
 * haplotypes sorted by their allele histories read backwards from site k-1
 * to site 0, and haplotypes with the same history keep the order of their
 * indices (the identity start and the stable partition settle ties).
 */
module PrefixOrder {
  import opened PbwtSpec
  import opened StepProperties
  import opened FindAllLongMatches
  import opened LongMatches

  /**
   * Haplotype `a` sorts no later than `b` by reversed history over `cols`:
   * the last site decides first, then the one before it, and so on; equal
   * histories fall back to the haplotype index.
   */
  predicate RevLe(cols: seq<seq<Allele>>, a: nat, b: nat)
  {
    if |cols| == 0 then a <= b
    else
      var c := cols[|cols| - 1];
      a < |c| && b < |c| && (c[a] < c[b] || (c[a] == c[b] && RevLe(cols[..|cols| - 1], a, b)))
  }

  /** `p` lists its haplotypes in reversed-history order over `cols`. */
  predicate Sorted(cols: seq<seq<Allele>>, p: seq<nat>)
  {
    forall i, j :: 0 <= i < j < |p| ==> RevLe(cols, p[i], p[j])
  }

  /** The order over one more site: the new site decides, and a tie falls back to the earlier sites. */
  lemma RevLeExtend(cols: seq<seq<Allele>>, col: seq<Allele>, a: nat, b: nat)
    requires a < |col| && b < |col|
    requires col[a] < col[b] || (col[a] == col[b] && RevLe(cols, a, b))
    ensures RevLe(cols + [col], a, b)
  {
    assert (cols + [col])[..|cols|] == cols;
  }

  /** Every haplotype with an allele at each site sorts no later than itself. */
  lemma {:induction false} RevLeRefl(cols: seq<seq<Allele>>, x: nat)
    requires Present(cols, x)
    ensures RevLe(cols, x, x)
  {
    if |cols| > 0 {
      var k := |cols| - 1;
      assert Present(cols[..k], x) by {
        forall s | 0 <= s < k ensures x < |cols[..k][s]| {
          assert cols[..k][s] == cols[s];
        }
      }
      RevLeRefl(cols[..k], x);
    }
  }

  lemma {:induction false} RevLeTrans(cols: seq<seq<Allele>>, x: nat, y: nat, z: nat)
    requires RevLe(cols, x, y) && RevLe(cols, y, z)
    ensures RevLe(cols, x, z)
  {
    if |cols| > 0 {
      var k := |cols| - 1;
      var c := cols[k];
      if c[x] == c[y] && c[y] == c[z] {
        RevLeTrans(cols[..k], x, y, z);
      }
    }
  }

  /**
   * In reversed-history order, whatever sorts between two haplotypes that
   * agree on the sites from m on agrees with them there too.
   */
  lemma {:induction false} Sandwich(cols: seq<seq<Allele>>, x: nat, y: nat, z: nat, m: int)
    requires RevLe(cols, x, y) && RevLe(cols, y, z) && AgreeFrom(cols, x, z, m)
    ensures AgreeFrom(cols, x, y, m)
  {
    if |cols| > 0 && m < |cols| {
      var k := |cols| - 1;
      var c, pre := cols[k], cols[..k];
      assert c[x] == c[z] && c[y] == c[x];
      assert AgreeFrom(pre, x, z, m) by {
        forall s | 0 <= s < k && m <= s ensures x < |pre[s]| && z < |pre[s]| && pre[s][x] == pre[s][z] {
          assert pre[s] == cols[s];
        }
      }
      Sandwich(pre, x, y, z, m);
      forall s | 0 <= s < |cols| && m <= s ensures x < |cols[s]| && y < |cols[s]| && cols[s][x] == cols[s][y] {
        if s < k {
          assert pre[s] == cols[s];
        }
      }
    }
  }

  /** Taking one side of the partition keeps the order: Select is a subsequence. */
  lemma {:induction false} SelectSorted(cols: seq<seq<Allele>>, p: seq<nat>, col: seq<Allele>, zero: bool)
    requires Sorted(cols, p)
    ensures Sorted(cols, Select(p, col, zero))
  {
    if |p| > 0 {
      var m := |p| - 1;
      var q := p[..m];
      assert Sorted(cols, q) by {
        forall i, j | 0 <= i < j < |q| ensures RevLe(cols, q[i], q[j]) {
          assert q[i] == p[i] && q[j] == p[j];
        }
      }
      SelectSorted(cols, q, col, zero);
      var s := Select(q, col, zero);
      if IsZero(col, p[m]) == zero {
        var s' := s + [p[m]];
        forall i, j | 0 <= i < j < |s'| ensures RevLe(cols, s'[i], s'[j]) {
          if j == |s| {
            assert s[i] in s;
            SelectMembers(q, col, zero, s[i]);
            var i0 :| 0 <= i0 < m && q[i0] == s[i];
            assert p[i0] == s'[i] && p[m] == s'[j];
          } else {
            assert s'[i] == s[i] && s'[j] == s[j];
          }
        }
        assert Select(p, col, zero) == s';
      } else {
        assert Select(p, col, zero) == s + [];
      }
    }
  }

  /**
   * One step on a binary column refines the order by one site: the allele-0
   * side comes first, and each side keeps the order of a_k.
   */
  lemma StepSorted(cols: seq<seq<Allele>>, col: seq<Allele>, p: seq<nat>, d: seq<nat>, k: nat, minSize: nat)
    requires |d| == |p| && Sorted(cols, p)
    requires BinaryColumn(col) && Indexes(p, col)
    ensures Sorted(cols + [col], Step(p, d, col, k, minSize).prefix)
  {
    var z, o := Zeros(p, col), Ones(p, col);
    SelectSorted(cols, p, col, true);
    SelectSorted(cols, p, col, false);
    SelectSide(p, col, true);
    SelectSide(p, col, false);
    var q := z + o;
    forall i, j | 0 <= i < j < |q| ensures RevLe(cols + [col], q[i], q[j]) {
      if j < |z| {
        assert q[i] == z[i] && q[j] == z[j];
      } else if i >= |z| {
        assert q[i] == o[i - |z|] && q[j] == o[j - |z|];
      } else {
        assert q[i] == z[i] && q[j] == o[j - |z|];
      }
      RevLeExtend(cols, col, q[i], q[j]);
    }
  }

  /**
   * After the sweep over a binary matrix, the prefix array is sorted by
   * reversed allele history over every site stepped, ties by index.
   */
  lemma {:induction false} SweepSorted(cols: seq<seq<Allele>>, n: nat, minSize: nat)
    requires Width(cols, n) && Binary(cols)
    ensures Sorted(cols, Sweep(cols, n, minSize).prefix)
  {
    if |cols| > 0 {
      var k := |cols| - 1;
      PrefixColumns(cols, n, k);
      SweepSorted(cols[..k], n, minSize);
      var prev := Sweep(cols[..k], n, minSize);
      PermutationIndexes(prev.prefix, n, cols[k]);
      StepSorted(cols[..k], cols[k], prev.prefix, prev.divergence, k, minSize);
      SnocLast(cols);
    }
  }
}
