# pkg-testing-tools: USE-flag combinations and job list

pkg-testing-tools builds and tests one Gentoo package under several USE-flag
settings. It starts from the IUSE tokens of the package. It strips each token's
default marker (`+` or `-`), drops the flags it never toggles, and sorts what is
left. It then chooses USE-flag assignments that satisfy the package's
REQUIRED_USE constraint. An assignment is the list of flags in IUSE order, each
written as `flag` (enabled) or `-flag` (disabled). Finally it turns those
assignments into an ordered list of jobs. Each job has a `test_feature_toggle`
that depends on whether the package has tests and on `--test-feature-scope`.

The model, file by file:

- `toggles.dfy` (module `Toggles`): `get_use_flags_toggles`. Bit i of an index
  decides flag i. Decoding is a bijection between the indices `0 .. 2^n - 1`
  and the assignments of n flags.
- `sweep.dfy` (module `Sweep`): `yield_use_flags_toggles_sorted`, which lists every
  assignment grouped by how many flags it marks, in
  `itertools.combinations` order within a group; and
  `yield_use_flags_toggles_sorted_split`, the product of two such sweeps.
- `combinations.dfy` (module `UseCombinations`): `get_use_combinations`. First the
  optional sparse and dense searches, then one of two modes:
  - exhaustive mode, which decodes every index in order;
  - sampling mode, which draws indices without repetition until the budget or the
    index range runs out.
- `flags.dfy` (module `UseFlags`): `strip_use_flags`, `filter_out_use_flags` and the
  strip-filter-sort pipeline of `get_package_flags`.
- `jobs.dfy` (module `Jobs`): `define_jobs`.
- `doctests.dfy` (module `Doctests`): the examples documented in `use.py`, stated on
  the model.
- `wrappers.dfy` (module `Wrappers`): an `Option` type.

Generators are modelled as the full sequence they yield: `SortedSweep`,
`SplitSweep`. Methods that follow the source's loops are proved equal to those
sequences.

REQUIRED_USE evaluation (`portage.dep.check_required_use` with
`iuse_match_always_true`) is an `Evaluator` parameter. It is a total,
deterministic predicate on the joined constraint string and the flag list.

`random.randint` becomes an arbitrary choice among the indices not yet checked. In
the source, a draw that hits an index already checked changes nothing
(`continue`), so only fresh draws are modelled.

The sparse and dense searches walk the split sweep. That sweep lists flags without
"single_target" first, so their results are in that order rather than IUSE order.
Duplicates are detected by list equality. An assignment found by a sparse or dense
search can therefore be found again, in IUSE order, by the decoding loop, and both
copies are kept. `Doctests.SplitOrderKeptTwice` shows this for the flags
`a_single_target` and `b`. `define_jobs` never requests sparse or dense entries,
so the job list is not affected.

## Model

| member | source | states |
|---|---|---|
| Toggles.GetUseFlagsToggles | pkg_testing_tools/use.py:167-179 | the list has one entry per flag; entry i is the flag when bit i of the index is set and `-flag` otherwise, swapped when inverted; the result is the decoding `Toggle` |
| Toggles.Toggle | pkg_testing_tools/use.py:167-179 | the decoding of an index: bit i of the index decides flag i, marked as `flag` or `-flag`, swapped when inverted |
| Toggles.ToggleInverted | pkg_testing_tools/use.py:168-169 | with `inverted` every position takes the opposite polarity of the plain decoding |
| Toggles.ToggleIsAssignment | pkg_testing_tools/use.py:171-177 | every decoding decides each flag of iuse once, in iuse order |
| Toggles.ToggleInjective | pkg_testing_tools/use.py:171-177 | on `[0, 2^n)` distinct indices decode to distinct lists |
| Toggles.ToggleRoundTrip | pkg_testing_tools/use.py:171-177 | reading the index back from a decoding gives the index |
| Toggles.AssignmentRoundTrip | pkg_testing_tools/use.py:171-177 | every assignment is the decoding of an index below 2^n |
| Toggles.BitsAt | pkg_testing_tools/use.py:172 | position i of the bit list is bit i of the index |
| Toggles.FromBitsBits | pkg_testing_tools/use.py:172 | reading the low n bits of an index below 2^n as a number gives the index |
| Toggles.BitsFromBits | pkg_testing_tools/use.py:172 | the bits of the number a bit list encodes are that list |
| Toggles.RenderInjective | pkg_testing_tools/use.py:177 | gluing prefixes to flags loses nothing: distinct masks give distinct lists |
| Toggles.RenderIsAssignment | pkg_testing_tools/use.py:177 | every glued list is an assignment of iuse |
| Toggles.EnabledMaskRender | pkg_testing_tools/use.py:168-177 | a flag is enabled exactly when its mask bit differs from `inverted` |
| Toggles.RenderEnabledMask | pkg_testing_tools/use.py:168-177 | an assignment is rebuilt from the set of flags it enables |
| Toggles.ToggleExampleZero | pkg_testing_tools/use.py:150-151 | index 0 disables all three flags |
| Toggles.ToggleExampleOne | pkg_testing_tools/use.py:152-153 | index 1 enables flag1 only |
| Toggles.ToggleExampleTwo | pkg_testing_tools/use.py:154-155 | index 2 enables flag2 only |
| Toggles.ToggleExampleThree | pkg_testing_tools/use.py:156-157 | index 3 enables flag1 and flag2 |
| Toggles.ToggleExampleFour | pkg_testing_tools/use.py:158-159 | index 4 enables flag3 only |
| Toggles.ToggleExampleFive | pkg_testing_tools/use.py:171-177 | index 5 enables flag1 and flag3 |
| Toggles.ToggleExampleSeven | pkg_testing_tools/use.py:160-161 | index 7 enables all three flags |
| Toggles.ToggleExampleZeroInverted | pkg_testing_tools/use.py:162-163 | inverted, index 0 enables all three flags |
| Toggles.ToggleExampleFourInverted | pkg_testing_tools/use.py:164-165 | inverted, index 4 disables flag3 only |
| Sweep.SortedSweep | pkg_testing_tools/use.py:118-126 | everything the sorted generator yields: for k = 0 .. n, the renderings of the k-position tuples in `itertools.combinations` order |
| Sweep.YieldUseFlagsTogglesSorted | pkg_testing_tools/use.py:118-126 | the nested loops with in-place overwrites yield, in order, exactly the group-by-group sweep `SortedSweep`, whose size, completeness and order the Sweep lemmas below establish |
| Sweep.SortedGroupSnoc | pkg_testing_tools/use.py:122-126 | one more tuple of a group yields one more list, the rendering of that tuple's mask, at the end |
| Sweep.MarkPositions | pkg_testing_tools/use.py:123-126 | starting from all-unmarked and overwriting the tuple's positions gives the list in which exactly those positions are marked |
| Sweep.Combinations | pkg_testing_tools/use.py:122 | `itertools.combinations(range(lo, n), k)`: the k-tuples of increasing positions from lo to n, in lexicographic order |
| Sweep.CombinationShape | pkg_testing_tools/use.py:122 | each tuple from `itertools.combinations(range(n), k)` has k increasing positions below n |
| Sweep.CombinationMasks | pkg_testing_tools/use.py:122 | the tuples of one group are, as masks, exactly the masks marking k positions, in lexicographic order |
| Sweep.MasksCount | pkg_testing_tools/use.py:122 | there are C(n, k) tuples of size k |
| Sweep.MasksComplete | pkg_testing_tools/use.py:122 | every mask marking k positions is one of the tuples of size k |
| Sweep.MasksDistinct | pkg_testing_tools/use.py:122 | no tuple repeats within a group |
| Sweep.SumChooseAll | pkg_testing_tools/use.py:121-122 | the group sizes C(n, 0) ... C(n, n) add up to 2^n |
| Sweep.MaskPrefixShape | pkg_testing_tools/use.py:121-122 | the first groups hold the sum of their binomial counts, each mask of length n marking fewer than the bound |
| Sweep.MaskPrefixOrdered | pkg_testing_tools/use.py:121 | along the groups the number of marked positions never decreases |
| Sweep.MaskPrefixDistinct | pkg_testing_tools/use.py:121-122 | no mask repeats across groups |
| Sweep.MaskPrefixComplete | pkg_testing_tools/use.py:121-122 | every mask of length n occurs among the groups |
| Sweep.SortedPrefixMasks | pkg_testing_tools/use.py:121-126 | the yielded lists are the rendering of the mask groups in order |
| Sweep.EnabledCountRender | pkg_testing_tools/use.py:118-119 | a list marking k positions enables k flags, or n - k when inverted |
| Sweep.RenderMarkMask | pkg_testing_tools/use.py:123-126 | every assignment is the rendering of the mask of its marked flags |
| Sweep.SortedSweepFacts | pkg_testing_tools/use.py:120-126 | the sweep yields 2^n assignments of iuse, none twice |
| Sweep.SortedSweepGroup | pkg_testing_tools/use.py:121-126 | group k follows groups 0 .. k-1 and holds C(n, k) lists of length n, each enabling k flags (n - k when inverted) |
| Sweep.SortedPrefixIsPrefix | pkg_testing_tools/use.py:121 | later groups only extend what earlier groups yielded |
| Sweep.SortedSweepOrdered | pkg_testing_tools/use.py:121 | the number of enabled flags never decreases along the sweep, and never increases when inverted |
| Sweep.SortedSweepComplete | pkg_testing_tools/use.py:120-126 | every assignment of iuse is yielded |
| Sweep.SortedSweepMember | pkg_testing_tools/use.py:120-126 | everything yielded is an assignment of iuse |
| Sweep.Row | pkg_testing_tools/use.py:135-136 | one outer list glued in front of every inner list, in inner order |
| Sweep.Product | pkg_testing_tools/use.py:134-136 | the rows of the outer lists, in outer order |
| Sweep.SplitSweep | pkg_testing_tools/use.py:129-136 | everything the split generator yields: the product of the sorted sweeps of the two parts |
| Sweep.ProductAt | pkg_testing_tools/use.py:134-136 | element i * m + j of the split sweep, for m inner lists, is the i-th outer list followed by the j-th inner list |
| Sweep.ProductLength | pkg_testing_tools/use.py:134-136 | the split sweep yields as many lists as the product of the two sweep lengths |
| Sweep.ProductDecompose | pkg_testing_tools/use.py:134-136 | every position of the split sweep is some i * m + j with i an outer and j an inner position |
| Sweep.ProductOrder | pkg_testing_tools/use.py:134-135 | the outer sweep varies slowest: positions are ordered as (outer, inner) pairs |
| Sweep.SplitSweepShape | pkg_testing_tools/use.py:134-136 | the split sweep yields 2^a * 2^b lists for parts of a and b flags, each an assignment of the first part followed by one of the second |
| Sweep.YieldUseFlagsTogglesSortedSplit | pkg_testing_tools/use.py:129-136 | the outer loop over the first sweep, restarting the second sweep for each of its lists, yields exactly the product `SplitSweep`, outer list first |
| Sweep.ProductSnoc | pkg_testing_tools/use.py:134-136 | one more outer list appends its row: that list glued to every inner list in order |
| Sweep.SplitSweepComplete | pkg_testing_tools/use.py:134-136 | every assignment of the first part followed by any assignment of the second is yielded |
| UseCombinations.Contains | pkg_testing_tools/use.py:221-222 | Python's `sub in s` on strings: sub occurs at some offset of s |
| UseCombinations.NonSingleTarget | pkg_testing_tools/use.py:221 | the flags whose name does not contain "single_target", in iuse order |
| UseCombinations.SingleTarget | pkg_testing_tools/use.py:222 | the flags whose name contains "single_target", in iuse order |
| UseCombinations.Join | pkg_testing_tools/use.py:228 | `" ".join(ruse)`: the entries separated by single spaces |
| UseCombinations.Extremal | pkg_testing_tools/use.py:219-247 | the entries the sparse and dense searches leave: the first satisfying list of the split sweep, then the first new satisfying list of the inverted split sweep, each when requested |
| UseCombinations.Remaining | pkg_testing_tools/use.py:274-283 | the decodings of indices 0 to hi - 1, in index order, that satisfy the constraint and are not among the given entries |
| UseCombinations.ContainsOffset | pkg_testing_tools/use.py:221-222 | `sub in s` holds exactly when sub occurs at some offset of s |
| UseCombinations.SplitPartition | pkg_testing_tools/use.py:221-222 | the two comprehensions split iuse into the flags without and with "single_target", each in iuse order, together holding every flag once |
| UseCombinations.JoinAppend | pkg_testing_tools/use.py:228 | joining ruse with one more entry appends it after a space, or gives the entry alone when ruse is empty |
| UseCombinations.AddExtremal | pkg_testing_tools/use.py:219-247 | the sparse search over the split sweep and then the dense search over the inverted split sweep leave exactly the extremal entries `Extremal` |
| UseCombinations.FirstQualifying | pkg_testing_tools/use.py:220-232 | the search result is the first candidate that is new and satisfies the constraint; None when no candidate does |
| UseCombinations.AddFirstValid | pkg_testing_tools/use.py:220-232 | the early-exit loop appends the first new satisfying candidate, or nothing |
| UseCombinations.FirstFoundFacts | pkg_testing_tools/use.py:225-232 | an early-exit search appends at most one list, new and satisfying |
| UseCombinations.ExtremalFacts | pkg_testing_tools/use.py:219-247 | after the sparse and dense searches the list holds at most two entries, distinct and satisfying |
| UseCombinations.FirstQualifyingExtremal | pkg_testing_tools/use.py:219-247 | the first qualifying list of a split sweep enables no more first-part flags than any qualifying list (no fewer when inverted), and on equal first parts no more second-part flags |
| UseCombinations.SparseIsMinimal | pkg_testing_tools/use.py:219-232 | if some sparse candidate satisfies the constraint, the result starts with an entry that enables no more non-single_target flags than any satisfying candidate, and no more single_target flags than a satisfying candidate with the same non-single_target part |
| UseCombinations.DenseIsMaximal | pkg_testing_tools/use.py:234-247 | if some dense candidate other than the sparse entry satisfies the constraint, the dense entry follows the sparse one; it enables at least as many non-single_target flags as any such candidate, and at least as many single_target flags as one with the same non-single_target part |
| UseCombinations.EnumerateCombinations | pkg_testing_tools/use.py:273-283 | the exhaustive loop appends, in increasing index order, every decoded list that satisfies the constraint and is not already present |
| UseCombinations.RemainingLength | pkg_testing_tools/use.py:274-283 | indices below hi contribute at most hi lists |
| UseCombinations.RemainingIndicesOrdered | pkg_testing_tools/use.py:274 | the indices behind the appended lists are one per list, below hi, strictly increasing |
| UseCombinations.RemainingAt | pkg_testing_tools/use.py:274-283 | each appended list is the decoding of its index, which is below hi, is an assignment of iuse, satisfies the constraint and was not present before the loop |
| UseCombinations.RemainingOrdered | pkg_testing_tools/use.py:274 | of two appended lists the earlier one decodes the smaller index |
| UseCombinations.RemainingDistinct | pkg_testing_tools/use.py:277-283 | the exhaustive loop appends no list twice |
| UseCombinations.RemainingExcludes | pkg_testing_tools/use.py:274 | an index at or above hi is not decoded into the entries for indices below hi |
| UseCombinations.RemainingPrefix | pkg_testing_tools/use.py:274 | a higher index bound only extends the appended lists |
| UseCombinations.RemainingComplete | pkg_testing_tools/use.py:274-283 | every satisfying index below hi is already present or appended |
| UseCombinations.ExhaustiveFacts | pkg_testing_tools/use.py:277-283 | after the exhaustive loop the list still has no entry twice, every entry satisfies the constraint, and at most 2^n entries were added |
| UseCombinations.ExhaustiveComplete | pkg_testing_tools/use.py:273-283 | in exhaustive mode every satisfying decoding ends up in the result |
| UseCombinations.Exhaustive | pkg_testing_tools/use.py:249 | the exhaustive branch is taken when the budget is negative or at least 2^n |
| UseCombinations.RangeSetFacts | pkg_testing_tools/use.py:255 | the index range `0 .. total - 1` has total members |
| UseCombinations.UncheckedExists | pkg_testing_tools/use.py:255-262 | while fewer indices are checked than exist, some index is unchecked, so a fresh draw exists |
| UseCombinations.AllChecked | pkg_testing_tools/use.py:255 | once as many indices are checked as exist, every index has been checked |
| UseCombinations.Sampled | pkg_testing_tools/use.py:264-272 | the list after checking a given sequence of indices in order: each decoding is appended when it is not in the list yet and satisfies the constraint |
| UseCombinations.SampledFacts | pkg_testing_tools/use.py:266-272 | for any draw order the sample keeps its starting entries, has no entry twice, and appends only satisfying assignments of iuse |
| UseCombinations.SampledComplete | pkg_testing_tools/use.py:264-272 | every drawn index whose decoding satisfies the constraint has that decoding in the sample |
| UseCombinations.SampleCombinations | pkg_testing_tools/use.py:249-272 | the loop checks a sequence of distinct indices below 2^n (a ghost result) and returns exactly `Sampled` over that order; it keeps the entries it started with and appends only new satisfying assignments; it stops at the budget; if it stops before the budget, every satisfying assignment is in the result |
| UseCombinations.GetUseCombinations | pkg_testing_tools/use.py:182-285 | no list twice and every list satisfies the joined constraint; the sparse/dense entries come first; exhaustive when the budget is negative or at least 2^n, and then the result is those entries followed by every other satisfying decoding in index order; otherwise a sample within the budget; without sparse/dense and with a non-negative budget, at most the budget |
| UseFlags.Strip | pkg_testing_tools/use.py:30-31 | one token without a leading `+` or `-` |
| UseFlags.StripAll | pkg_testing_tools/use.py:29-33 | every token stripped, in order |
| UseFlags.StripUseFlags | pkg_testing_tools/use.py:17-35 | one entry per token, in order; a leading `+` or `-` is removed and any other token is kept unchanged |
| UseFlags.StripRestores | pkg_testing_tools/use.py:30-31 | the token is at most one marker followed by the stripped flag, and the marker is there exactly when the token starts with `+` or `-` |
| UseFlags.StripExample | pkg_testing_tools/use.py:24-25 | `["-flag1", "+flag2", "flag3"]` strips to `["flag1", "flag2", "flag3"]` |
| UseFlags.IsIgnored | pkg_testing_tools/use.py:50-69 | a flag starts with one of the ignored prefixes or is one of the ignored names |
| UseFlags.Filtered | pkg_testing_tools/use.py:68-70 | the flags that are not ignored, in order |
| UseFlags.FilterOutUseFlags | pkg_testing_tools/use.py:38-72 | the loop keeps, in order, the flags with none of the ignored prefixes that are not in the ignored set |
| UseFlags.FilteredConcat | pkg_testing_tools/use.py:68-70 | filtering distributes over concatenation, so the result is an order-preserving subsequence |
| UseFlags.FilteredMember | pkg_testing_tools/use.py:50-70 | a flag is kept exactly when it is in the input and not ignored |
| UseFlags.FilterExample | pkg_testing_tools/use.py:45-46 | `debug` is dropped from `["flag1", "flag2", "debug"]` |
| UseFlags.StrLeq | pkg_testing_tools/use.py:96 | Python's `<=` on strings: code-point lexicographic order, a prefix first |
| UseFlags.StrLeqTotal | pkg_testing_tools/use.py:96 | string order is total |
| UseFlags.StrLeqAntisymmetric | pkg_testing_tools/use.py:96 | string order is antisymmetric |
| UseFlags.StrLeqTransitive | pkg_testing_tools/use.py:96 | string order is transitive |
| UseFlags.InsertSorted | pkg_testing_tools/use.py:96 | inserting into a sorted list keeps it sorted |
| UseFlags.InsertMultiset | pkg_testing_tools/use.py:96 | inserting adds exactly the one entry |
| UseFlags.Sort | pkg_testing_tools/use.py:96 | `sorted`: insertion sort of the flags under string order |
| UseFlags.SortFacts | pkg_testing_tools/use.py:96 | sorting orders the flags and keeps each with its multiplicity |
| UseFlags.SortedUnique | pkg_testing_tools/use.py:96 | two sorted lists with the same entries are equal, so `sorted` has one possible result |
| UseFlags.GetPackageFlags | pkg_testing_tools/use.py:87-100 | the flags are sorted and hold, with multiplicity, the stripped tokens that are not ignored; the REQUIRED_USE tokens are returned unchanged |
| Jobs.ExtraEnvFilesOf | pkg_testing_tools/job.py:57-59 | the `--extra-env-file` values joined by spaces, or an empty list when none is given |
| Jobs.EffectiveRuse | pkg_testing_tools/job.py:65-66 | the package's REQUIRED_USE entries, followed by `--append-required-use` when it is given and not empty |
| Jobs.Requested | pkg_testing_tools/job.py:68 | combinations are computed exactly when the package has IUSE flags and the budget is not zero |
| Jobs.CombinationToggle | pkg_testing_tools/job.py:97-101 | the toggle of each combination job: `(has_tests and scope == "always") or scope == "force"` |
| Jobs.JobTable | pkg_testing_tools/job.py:79-148 | the job list as a decision table on the combinations, `has_tests` and the test-feature scope |
| Jobs.DefineJobs | pkg_testing_tools/job.py:49-149 | without flags or with a zero budget, the default-job table; otherwise the table over the combinations: the exhaustive decoding under the effective REQUIRED_USE, or a duplicate-free sample of satisfying assignments within the budget that either fills the budget or holds every satisfying decoding |
| Jobs.BuildJobs | pkg_testing_tools/job.py:79-148 | the appends produce exactly the job table for the given combinations |
| Jobs.AddCombinationJobs | pkg_testing_tools/job.py:92-106 | the loop over the combinations adds one job per combination, in order, each with those flags, the flag scope and the combination toggle |
| Jobs.CombinationJobsAppend | pkg_testing_tools/job.py:92-106 | one more combination adds one job for it at the end of the block |
| Jobs.JobTableCommon | pkg_testing_tools/job.py:54-60 | every job carries the atom as given as `cpv`, the package's `cp` and the shared env files |
| Jobs.JobTableCount | pkg_testing_tools/job.py:79-148 | with combinations, one job each plus one for a package with tests under "first" or "once"; without, one job, or two for a package with tests under a scope other than "never" |
| Jobs.JobTableCombinations | pkg_testing_tools/job.py:92-106 | the job for combination k sits at k, or k + 1 after a leading "first" job, with those flags, the flag scope and toggle `(has_tests and scope == "always") or scope == "force"` |
| Jobs.JobTableFrame | pkg_testing_tools/job.py:80-90 | with combinations and tests, "first" adds a leading and "once" a trailing default-flag job with tests on |
| Jobs.JobTableDefaults | pkg_testing_tools/job.py:119-148 | without combinations: one default job with toggle `scope == "force"` when there are no tests or the scope is "never"; otherwise two jobs without a flag scope, toggles off then on, or on then off under "first" |
| Jobs.EffectiveRuseConstraint | pkg_testing_tools/job.py:65-66 | a given `--append-required-use` becomes one more REQUIRED_USE entry, hence one more space-separated clause of the constraint |
| Doctests.SparseExample | pkg_testing_tools/use.py:209-210 | with `!flag1` the sparse entry is `["-flag1", "-flag2", "-flag3"]` |
| Doctests.DenseExample | pkg_testing_tools/use.py:211-212 | with `!flag1` the dense entry is `["-flag1", "flag2", "flag3"]` |
| Doctests.ExhaustiveExample | pkg_testing_tools/use.py:199-200 | with a REQUIRED_USE check that accepts exactly the lists enabling flag1, the exhaustive decoding of three flags keeps those four lists, in index order |
| Doctests.ExhaustiveRun | pkg_testing_tools/use.py:199-200 | the whole of get_use_combinations with budget 999 and no sparse or dense search returns exactly the four lists enabling flag1, in index order |
| Doctests.SparseDenseExample | pkg_testing_tools/use.py:207-208 | with `!flag1` the sparse then the dense search give `["-flag1", "-flag2", "-flag3"]` and `["-flag1", "flag2", "flag3"]` |
| Doctests.SparseDenseRun | pkg_testing_tools/use.py:207-208 | the whole of get_use_combinations with budget 3 and both searches returns three lists: those two, then an assignment with flag1 disabled |
| Doctests.FirstFlagEnabled | pkg_testing_tools/use.py:171-177 | a decoding of three flags enables flag1 exactly for an odd index |
| Doctests.DenseCandidates | pkg_testing_tools/use.py:234-239 | the dense search tries all-enabled first, then flag1 disabled |
| Doctests.SecondDense | pkg_testing_tools/use.py:121-126 | the second inverted list of three flags disables flag1 only |
| Doctests.SweepHead | pkg_testing_tools/use.py:121-126 | every sweep starts with the all-unmarked list |
| Doctests.EmptySweep | pkg_testing_tools/use.py:121-126 | with no flags the sweep yields one empty list |
| Doctests.NoSingleTarget | pkg_testing_tools/use.py:220-223 | without single_target flags the split sweep starts where the sorted sweep does |
| Doctests.WithoutSingleTarget | pkg_testing_tools/use.py:221-222 | without single_target flags the second part is empty |
| Doctests.SplitExampleCandidates | pkg_testing_tools/use.py:220-223 | with flags `a_single_target` and `b` the sparse search tries `["-b", "-a_single_target"]` first |
| Doctests.SplitExampleExtremal | pkg_testing_tools/use.py:219-232 | with a constraint every list meets, that list is the sparse entry |
| Doctests.SplitOrderKeptTwice | pkg_testing_tools/use.py:219-283 | in exhaustive mode the sparse entry `["-b", "-a_single_target"]` and the decoding `["-a_single_target", "-b"]` of index 0 are both kept, although they are the same assignment |

## Left out

- Portage lookups: `atom_to_cpv`, the `aux_get` reads of IUSE, REQUIRED_USE and DEFINED_PHASES, and `get_package_metadata`. The metadata `define_jobs` reads (cp, has_tests, iuse, ruse) is an input.
- `portage.dep.check_required_use` and REQUIRED_USE parsing: these are portage's, so the constraint check is a deterministic `Evaluator` parameter.
- Exceptions from `check_required_use`: it raises on a malformed REQUIRED_USE string and nothing in use.py catches that; the `Evaluator` is total, so this failure path is not modelled.
- UseFlags.GetPackageFlags: takes the IUSE and REQUIRED_USE tokens as input, so `str.split` on the metadata strings is not modelled.
- `random.seed` and `random.randint`: modelled as an arbitrary choice of an unchecked index. The distribution and repeated draws of checked indices are not modelled, since a repeated draw changes nothing.
- UseCombinations.SampleCombinations: says which lists a sample may hold for some order of distinct draws, not which order a given seed produces.
- Generators are modelled as the complete sequences they yield. Laziness and the early `break` out of a generator change nothing observable here.
- Logging (`logging.debug`) in `define_jobs`.
- Exceptions: an empty IUSE token would make `flag[0]` raise. `StripUseFlags` requires non-empty tokens instead, which `str.split` guarantees.
- Jobs.TestFeatureScope: includes "first", which `define_jobs` handles although the command-line parser (pkg_testing_tools/main.py) does not offer it.
- Jobs.Job: a job dict is a record. The missing `use_flags_scope` key of the two default jobs is `None`.
- pkg_testing_tools/main.py, test.py, tmp.py and log.py (argument parsing, emerge invocation, temporary files, reports, exit codes) are not part of this model. They are I/O and orchestration.
- tests/test_max_use_combinations_speed.py: a timing test against a real portage tree.
- Python list identity: `package_metadata["ruse"].append` mutates a dict that `define_jobs` creates itself, so it is modelled as a local sequence.
