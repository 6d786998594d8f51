# PBWT long-match finder, modelled in Dafny

`src/main.rs` implements the positional Burrows-Wheeler Transform (Durbin
2014) over a binary haplotype matrix stored site-major (the `n_haplo` alleles
of site 0, then of site 1, and so on):

- `find_long_matches` takes the positional prefix array a_k, the divergence
  array d_k and the alleles at site k. In one pass it builds a_{k+1} (the
  allele-0 haplotypes, then the others, each side in a_k order) and d_{k+1}
  (per side, the largest divergence seen since that side's previous entry,
  starting from the sentinel k+1). It also cuts a_k into groups: a new group
  opens at every entry whose divergence `d` has `d + min_size > k`. Each
  non-empty group is reported as a `Match` whose `haplo_a` holds the group's
  allele-0 members, whose `haplo_b` holds the others, and whose `end` is k.
- `find_all_long_matches` starts from the identity prefix array and an
  all-zero divergence array. It applies the step to sites 0 .. k_site-2 and
  concatenates the matches.

The model has nine modules:

- `PbwtSpec` gives reference definitions of one step: `Step`, built from the
  stable partition `Select`, Durbin's closed form `RunStart`/`Divergences`,
  and the segmentation `Groups`.
- `FindLongMatches` is the imperative loop of `find_long_matches`, proved
  equal to `Step`.
- `FindAllLongMatches` is the imperative driver, proved equal to `Sweep`,
  which folds `Step` over the matrix's columns.
- `StepProperties` and `LongMatches` prove what the arrays and the matches
  mean. The prefix array stays a permutation, and the matches partition it.
  The divergence array keeps its sentinels and bounds. Durbin's invariant is
  preserved, in the direction "neighbours agree from d[i] on". As a result,
  the members of every match agree on the `min_size` sites before its end,
  and its two halves carry alleles 0 and 1 at the end site.
- `PrefixOrder` proves what the order of the prefix array means. After the
  sweep over a binary matrix, a_k is sorted by the haplotypes' allele
  histories read backwards from site k-1, with equal histories in index
  order.
- `TightDivergence` proves the other direction of Durbin's invariant. After
  the sweep over a binary matrix, d_k[i] is the earliest site from which
  a_k[i-1] and a_k[i] agree: they differ at site d_k[i] - 1.
- `CompleteMatches` proves that no long match is missed. At every stepped
  site e >= min_size, two haplotypes are reported together in a match
  ending at e exactly when they agree on the min_size sites before e.
- `Scenario` replays the unit test of `src/main.rs` and proves the arrays it
  expects.

Behaviour of the code worth knowing:

- The code validates none of its inputs. `min_size == 0` and `n_haplo == 0`
  go through, and so do allele values other than 0 and 1. Any nonzero allele
  goes to the `haplo_b` side.
- When `min_size` exceeds the number of sites, every entry breaks. Each step
  then reports one single-member match per haplotype, in prefix-array order
  (`StepProperties.ShortHistorySingletons`).
- Every group after the first is opened by a member whose divergence breaks,
  so that member's divergence `start` has `end - start < min_size`. What holds for every pair
  of members of a match is agreement over the `min_size` sites before `end`
  (`LongMatches.SweepLongMatches`).
- A match is reported even when one of its two sides is empty.

## Model

| member | source | states |
|---|---|---|
| FindLongMatches.FindLongMatches | src/main.rs:18-70 | The loop with its six pushed-to sequences and two trackers returns exactly the reference step: a_{k+1} is the allele-0 entries of a_k followed by the others, d_{k+1} is Durbin's closed form per side, and the matches are one per group of a_k. |
| FindLongMatches.StepByScan | src/main.rs:31-61 | The state the loop reaches after the last entry, with the final flush of the open group, is the reference `Step`: positions, divergences and emitted matches. |
| FindLongMatches.ScanPositions | src/main.rs:46-56 | After i entries, the two position accumulators are the allele-0 and the other entries among the first i, in a_k order. |
| FindLongMatches.ScanDivergences | src/main.rs:26-56 | After i entries, the two divergence accumulators are Durbin's d_{k+1} values of the entries pushed so far. Each tracker is the largest divergence seen since its side's last push, or, before the side's first push, k+1 raised by every divergence seen so far. |
| FindLongMatches.ScanGroups | src/main.rs:32-38 | After i entries, the matches emitted so far are those of all groups but the last, and the two match accumulators are the last group split by allele. |
| FindLongMatches.PendingFlush | src/main.rs:59-61 | Pushing the open group when it is non-empty completes the match sequence of all groups. |
| StepProperties.SelectMembers | src/main.rs:46-56 | A haplotype lands on a side exactly when it is in a_k and carries that side's allele (both directions). |
| StepProperties.StepPermutation | src/main.rs:63-68 | a_{k+1} is a permutation of a_k, and d_{k+1} has the same length. |
| StepProperties.StepPartition | src/main.rs:63-65 | a_{k+1} is the allele-0 side followed by the other side, and each side holds exactly the haplotypes of a_k with that allele. |
| StepProperties.StepSentinels | src/main.rs:26-27 | The first entry of each non-empty side of d_{k+1} is at least k+1: it has no predecessor on its side. |
| StepProperties.StepDivergenceBound | src/main.rs:40-55 | If every divergence of d_k is at most k+1, so is every divergence of d_{k+1}. |
| StepProperties.GroupsLayout | src/main.rs:32-38 | The groups tile a_k in order. Every group after the first starts at a breaking entry, and no later member of a group breaks. |
| StepProperties.GroupsFlatten | src/main.rs:31-38 | Concatenating the groups gives back a_k. |
| StepProperties.StepMatchShape | src/main.rs:32-61 | Every emitted match ends at k and has a non-empty side. Its `haplo_a` members are entries of a_k with allele 0, and its `haplo_b` members are entries with another allele. |
| StepProperties.StepMatchesCover | src/main.rs:31-61 | The members of the emitted matches, taken together, are a permutation of a_k: every haplotype is in exactly one match. |
| StepProperties.SingletonGroups | src/main.rs:32-38 | When min_size > k, every entry breaks, so group j is exactly [a_k[j]]. |
| StepProperties.ShortHistorySingletons | src/main.rs:32-61 | When min_size > k, the step reports one match per haplotype: match j holds a_k[j] alone, on the side of its allele, and ends at k. |
| FindAllLongMatches.PermutationIndexes | src/main.rs:84-87 | A permutation of 0 .. n_haplo-1 addresses every allele of a column, so the indexing at line 46 stays in bounds. |
| FindAllLongMatches.Site | src/main.rs:92 | The slice for site k has n_haplo alleles, and its h-th allele is the matrix entry at k*n_haplo + h. |
| FindAllLongMatches.Columns | src/main.rs:91-92 | The first `sites` columns of the site-major matrix, each of width n_haplo. |
| FindAllLongMatches.ColumnAt | src/main.rs:92 | Column s of `Columns` is the slice the driver takes at site s, and that slice lies inside the matrix. |
| FindAllLongMatches.ColumnsAt | src/main.rs:91-92 | Every column of `Columns` is the slice the driver takes at its site. |
| FindAllLongMatches.Sweep | src/main.rs:84-97 | The driver's state after stepping the given columns. Its prefix array is a permutation of 0 .. n_haplo-1, and both arrays have n_haplo entries. |
| FindAllLongMatches.SweepSnoc | src/main.rs:91-97 | One more iteration of the driver applies one more step to the state and appends that step's matches. |
| FindAllLongMatches.FindAllLongMatches | src/main.rs:83-99 | Starting from the identity prefix array and zero divergences, the driver returns the fold of `Step` over sites 0 .. k_site-2. |
| FindAllLongMatches.SweepMatchEnds | src/main.rs:91-97 | Every reported match ends at a site already stepped, and the ends never decrease along the result. |
| FindAllLongMatches.SweepDivergenceBound | src/main.rs:88-97 | After s sites, no divergence exceeds s. |
| FindAllLongMatches.SweepSentinel | src/main.rs:91-97 | After at least one site, the first entry of the divergence array is the sentinel: the number of sites stepped. |
| LongMatches.SideInvAll | src/main.rs:40-56 | Along one pass, each side's pushed entries agree pairwise from their new divergence values on, and the tracker bounds the agreement with the last entry seen. |
| LongMatches.StepAdjacent | src/main.rs:40-56 | For binary columns, Durbin's invariant carries over a step: if neighbours in a_k agree from d_k on, neighbours in a_{k+1} agree from d_{k+1} on, the new site included. The converse direction is TightDivergence.StepTight. |
| LongMatches.SweepAdjacent | src/main.rs:83-99 | For a binary matrix, the arrays the driver returns satisfy Durbin's invariant over all sites stepped. The converse direction is TightDivergence.SweepDivergenceMinimal. |
| LongMatches.RunAgree | src/main.rs:32-38 | Members of a run of a_k in which no inner link's divergence exceeds f agree pairwise from f on. |
| LongMatches.GroupsAgree | src/main.rs:32-38 | Any two members of one group agree on the last min_size sites before k. |
| LongMatches.StepLongMatches | src/main.rs:32-61 | Any two haplotypes of one emitted match agree on the last min_size sites before k. |
| LongMatches.SweepLongMatches | src/main.rs:83-99 | For a binary matrix, any two haplotypes of any reported match agree on every site from end - min_size up to end - 1. The converse is CompleteMatches.SweepComplete. |
| LongMatches.SplitLast | src/main.rs:46-56 | For a binary column, each match of the step has allele 0 at k for its `haplo_a` members and allele 1 for its `haplo_b` members. |
| LongMatches.SweepMatchesSplit | src/main.rs:83-99 | For a binary matrix, every reported match splits at its end site: allele 0 for `haplo_a`, allele 1 for `haplo_b`. |
| PrefixOrder.RevLeExtend | src/main.rs:46-56 | Comparing over one more site: the new site's alleles decide, and a tie falls back to the order over the earlier sites. |
| PrefixOrder.SelectSorted | src/main.rs:46-56 | Each side of the partition keeps the order of a_k, because it is a subsequence of a_k. |
| PrefixOrder.StepSorted | src/main.rs:46-68 | On a binary column, if a_k is sorted by reversed history over sites before k, then a_{k+1} is sorted over sites up to k. |
| PrefixOrder.SweepSorted | src/main.rs:83-99 | For a binary matrix, the returned prefix array is sorted by reversed allele history over all sites stepped, ties by haplotype index. |
| TightDivergence.TightTrans | src/main.rs:40-45 | If a and b agree from f and differ just before it, b and c likewise from g, and b sorts between a and c, then a and c differ just before the larger of f and g: the tracker's maximum is tight. |
| TightDivergence.SideTightVisit | src/main.rs:40-56 | Visiting one entry of a_k keeps each side tight: consecutive pushed entries differ just before their pushed divergence, and the tracker stays tight against the entry visited last. |
| TightDivergence.TightInvStep | src/main.rs:31-56 | One iteration of the pass keeps the tight invariant of a side, given that the link from the previous entry of a_k is tight and in order. |
| TightDivergence.TightInvAll | src/main.rs:31-57 | The tight invariant of a side holds after every prefix of the pass. |
| TightDivergence.BoundaryTight | src/main.rs:63-68 | Where the allele-0 side meets the other side in a_{k+1}, the two neighbours differ just before the other side's first divergence, at site k. |
| TightDivergence.ConcatTight | src/main.rs:63-68 | Two tight runs placed one after the other stay tight when the link where they meet is tight. |
| TightDivergence.SideTightAll | src/main.rs:31-57 | Each full side of the partition, with its pushed divergences, is tight over sites 0 .. k. |
| TightDivergence.StepTight | src/main.rs:18-70 | If a_k is sorted and every d_k[i] is tight for its neighbours, every d_{k+1}[i] is tight for its neighbours in a_{k+1}. |
| TightDivergence.SweepTight | src/main.rs:83-99 | For a binary matrix, every divergence value the driver returns is tight: the neighbours differ at the site just before it. |
| TightDivergence.SweepDivergenceMinimal | src/main.rs:83-99 | Durbin's d_k[i] in both directions: neighbours a_k[i-1] and a_k[i] agree on every site from d_k[i] on and on no earlier start. |
| CompleteMatches.PermutationMembers | src/main.rs:84-87 | Every haplotype index below n_haplo occurs in a permutation of 0 .. n_haplo-1. |
| CompleteMatches.LayoutSameGroup | src/main.rs:32-38 | Two entries of a_k with no breaking entry between them fall in the same group. |
| CompleteMatches.NoBreakBetween | src/main.rs:32 | In a sorted a_k with tight divergences, no entry between two haplotypes that agree on the last min_size sites breaks. |
| CompleteMatches.PairSameGroup | src/main.rs:31-38 | Two entries of a sorted a_k with tight divergences that agree on the last min_size sites share a group. |
| CompleteMatches.GroupReported | src/main.rs:33-34 | The match emitted for a group reports every pair of its members together, at end k. |
| CompleteMatches.StepComplete | src/main.rs:18-70 | With min_size <= k, one step reports together every two entries of a sorted a_k with tight divergences that agree on sites k - min_size .. k-1. |
| CompleteMatches.ReportedAppend | src/main.rs:96 | Appending matches keeps every pair reported in either part. |
| CompleteMatches.SweepMatchesSnoc | src/main.rs:91-97 | The matches of the sweep are those of the sweep one site shorter followed by those of the last step. |
| CompleteMatches.PermutationComplete | src/main.rs:93 | StepComplete for a prefix array that is a permutation of all haplotypes: every pair of haplotypes is covered. |
| CompleteMatches.LastStepComplete | src/main.rs:91-97 | The step at the last stepped site k reports every pair that agrees on sites k - min_size .. k-1. |
| CompleteMatches.CompleteSnoc | src/main.rs:96 | Completeness over the earlier sites and at the last site gives completeness over all sites stepped. |
| CompleteMatches.SweepCompleteStep | src/main.rs:91-97 | One more driver iteration keeps every long match reported. |
| CompleteMatches.SweepComplete | src/main.rs:83-99 | The converse of SweepLongMatches: for a binary matrix, two haplotypes that agree on the min_size sites before a stepped site e >= min_size are reported together in a match ending at e. |
| CompleteMatches.SweepMatchesExactly | src/main.rs:83-99 | For a binary matrix and a stepped site e >= min_size, two haplotypes are reported together at e if and only if they agree on sites e - min_size .. e-1. |
| Scenario.MatrixColumns | src/main.rs:125-130 | The test matrix read site by site gives the five columns that k_site = 6 steps. |
| Scenario.FirstSite | src/main.rs:131-135 | With k_site = 1, the result is the identity prefix array, all-zero divergences and no matches. |
| Scenario.NoSite | src/main.rs:84-88 | Before any site, the prefix array holds 0 .. 7 and the divergence array is all zero, entry by entry. |
| Scenario.SweepByScan | src/main.rs:91-97 | The arrays after one more site are the allele-0 and the other accumulators at the end of the pass over that site. |
| Scenario.SweptSite4 | src/main.rs:136-138 | After sites 0 .. 4 of the test matrix, the prefix array is [4,1,6,0,5,7,3,2] and the divergence array is [5,2,0,4,5,4,3,1]. |
| Scenario.SixthSite | src/main.rs:136-140 | With k_site = 6 and min_size = 3, find_all_long_matches returns the prefix and divergence arrays the test expects. |
| Scenario.PpAndDivArrays | src/main.rs:121-141 | Calling the driver with k_site = 1 and with k_site = 6 on the test matrix returns the prefix and divergence arrays the unit test asserts. |

## Left out

- `main` (lines 101-115) and the `Debug` formatting of `Match`: printing only.
- Ownership, cloning and vector growth: the model uses values (`seq`), which matches the code, since nothing is shared.
- PbwtSpec.Breaks: `start_of_match + min_size` (line 32) is a `usize` sum. It overflows when min_size is within k+1 of `usize::MAX`, for example with `min_size = usize::MAX` as a "no limit" value. The source then panics in a debug build. In a release build the sum wraps, so such entries stop breaking. The model's unbounded sum breaks them.
- Fixed-width arithmetic elsewhere: `k + 1` and `k * n_haplo` use unbounded integers. Overflow there would need inputs of astronomical size.
- FindLongMatches.FindLongMatches: requires `|divergence| == |prefix|`. The source zips the two slices and silently stops at the shorter one; the callers always pass equal lengths.
- FindLongMatches.FindLongMatches: requires every prefix entry to index the column. Out of range, the source panics.
- FindAllLongMatches.FindAllLongMatches: requires `k_site >= 1` and `(k_site-1)*n_haplo <= |haplotypes|`. Otherwise the source's `k_site-1` underflows, or its slice panics.
- LongMatches.SweepLongMatches and the other LongMatches theorems: they assume 0/1 alleles, as the parameter comment at lines 77-79 says. The code itself sends every nonzero allele to the `haplo_b` side.
- TightDivergence.SweepDivergenceMinimal: assumes 0/1 alleles. With a third allele value, two neighbours on the `haplo_b` side can differ at site k while d_{k+1} says they agree there.
- CompleteMatches.SweepComplete: covers only match ends e >= min_size and assumes 0/1 alleles. At a site e < min_size every entry breaks, so the code reports each haplotype alone (StepProperties.ShortHistorySingletons).
- CompleteMatches.SweepMatchesExactly: covers the same ends and alleles as SweepComplete.
- Scenario: the matches of the unit test's scenario are not stated, as the unit test does not check them either.
