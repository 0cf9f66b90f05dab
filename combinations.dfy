/**
 * `get_use_combinations` of pkg_testing_tools/use.py: the USE-flag
 * assignments of a package that satisfy its REQUIRED_USE constraint.
 *
 * The sparse and dense searches walk the split sweep (flags without
 * "single_target" first) and keep the first valid assignment. Then either
 * every index 0 .. 2^n - 1 is decoded in order (exhaustive mode) or indices
 * are drawn at random, each at most once, until the budget is reached or
 * every index has been tried (sampling mode).
 */
module UseCombinations {
  import opened Wrappers
  import opened Toggles
  import opened Sweep

  /**
   * `portage.dep.check_required_use(constraint, flags, iuse_match_always_true)`:
   * whether the flag list satisfies the REQUIRED_USE string. Portage parses and
   * evaluates the constraint; the model takes the evaluator as a parameter.
   */
  type Evaluator = (string, seq<string>) -> bool

  // ---------------------------------------------------------------------------
  // Splitting off the single_target flags

  const SingleTargetMarker := "single_target"

  /** Python's `sub in s` on strings. */
  predicate Contains(s: string, sub: string)
    decreases |s|
  {
    |sub| <= |s| && (s[..|sub|] == sub || Contains(s[1..], sub))
  }

  /** `[use for use in iuse if "single_target" not in use]` */
  function NonSingleTarget(iuse: seq<string>): seq<string>
  {
    if iuse == [] then []
    else (if Contains(iuse[0], SingleTargetMarker) then [] else [iuse[0]]) + NonSingleTarget(iuse[1..])
  }

  /** `[use for use in iuse if "single_target" in use]` */
  function SingleTarget(iuse: seq<string>): seq<string>
  {
    if iuse == [] then []
    else (if Contains(iuse[0], SingleTargetMarker) then [iuse[0]] else []) + SingleTarget(iuse[1..])
  }

  /** `" ".join(ruse)` */
  function Join(ruse: seq<string>): string
  {
    if ruse == [] then ""
    else if |ruse| == 1 then ruse[0]
    else ruse[0] + " " + Join(ruse[1..])
  }

  /** `sub` occurs in `s` at offset i. */
  predicate OccursAt(s: string, sub: string, i: nat)
  {
    i + |sub| <= |s| && s[i..i + |sub|] == sub
  }

  /** `sub in s` holds exactly when `sub` occurs at some offset of `s`. */
  lemma {:induction false} ContainsOffset(s: string, sub: string)
    ensures Contains(s, sub) <==> exists i: nat :: OccursAt(s, sub, i)
    decreases |s|
  {
    if |sub| <= |s| && s[..|sub|] != sub {
      ContainsOffset(s[1..], sub);
      if exists i: nat :: OccursAt(s, sub, i) {
        var i: nat :| OccursAt(s, sub, i);
        assert i > 0;
        assert s[1..][i - 1..i - 1 + |sub|] == sub;
        assert OccursAt(s[1..], sub, i - 1);
      }
      if Contains(s[1..], sub) {
        var i: nat :| OccursAt(s[1..], sub, i);
        assert s[i + 1..i + 1 + |sub|] == sub;
        assert OccursAt(s, sub, i + 1);
      }
    } else if |sub| <= |s| {
      assert OccursAt(s, sub, 0);
    }
  }

  /**
   * The two comprehensions split iuse: the first keeps the flags without
   * "single_target", the second those with it, each in iuse order, and
   * together they hold every flag of iuse exactly once.
   */
  lemma SplitPartition(iuse: seq<string>)
    ensures forall i :: 0 <= i < |NonSingleTarget(iuse)| ==> !Contains(NonSingleTarget(iuse)[i], SingleTargetMarker)
    ensures forall i :: 0 <= i < |SingleTarget(iuse)| ==> Contains(SingleTarget(iuse)[i], SingleTargetMarker)
    ensures multiset(NonSingleTarget(iuse)) + multiset(SingleTarget(iuse)) == multiset(iuse)
    ensures |NonSingleTarget(iuse)| + |SingleTarget(iuse)| == |iuse|
  {
    NonSingleTargetKept(iuse);
    SingleTargetKept(iuse);
    SplitCount(iuse);
  }

  lemma {:induction false} NonSingleTargetKept(iuse: seq<string>)
    ensures forall i :: 0 <= i < |NonSingleTarget(iuse)| ==> !Contains(NonSingleTarget(iuse)[i], SingleTargetMarker)
  {
    if iuse != [] {
      NonSingleTargetKept(iuse[1..]);
      var head := if Contains(iuse[0], SingleTargetMarker) then [] else [iuse[0]];
      var rest := NonSingleTarget(iuse[1..]);
      assert NonSingleTarget(iuse) == head + rest;
      forall i | 0 <= i < |head + rest| ensures !Contains((head + rest)[i], SingleTargetMarker) {
        if i >= |head| {
          assert (head + rest)[i] == rest[i - |head|];
        }
      }
    }
  }

  lemma {:induction false} SingleTargetKept(iuse: seq<string>)
    ensures forall i :: 0 <= i < |SingleTarget(iuse)| ==> Contains(SingleTarget(iuse)[i], SingleTargetMarker)
  {
    if iuse != [] {
      SingleTargetKept(iuse[1..]);
      var head := if Contains(iuse[0], SingleTargetMarker) then [iuse[0]] else [];
      var rest := SingleTarget(iuse[1..]);
      assert SingleTarget(iuse) == head + rest;
      forall i | 0 <= i < |head + rest| ensures Contains((head + rest)[i], SingleTargetMarker) {
        if i >= |head| {
          assert (head + rest)[i] == rest[i - |head|];
        }
      }
    }
  }

  lemma {:induction false} SplitCount(iuse: seq<string>)
    ensures multiset(NonSingleTarget(iuse)) + multiset(SingleTarget(iuse)) == multiset(iuse)
    ensures |NonSingleTarget(iuse)| + |SingleTarget(iuse)| == |iuse|
  {
    if iuse != [] {
      SplitCount(iuse[1..]);
      assert iuse == [iuse[0]] + iuse[1..];
    }
  }

  /** Appending one entry to ruse appends it, space separated, to the joined constraint. */
  lemma {:induction false} JoinAppend(ruse: seq<string>, extra: string)
    ensures Join(ruse + [extra]) == if ruse == [] then extra else Join(ruse) + " " + extra
  {
    if |ruse| > 1 {
      assert (ruse + [extra])[1..] == ruse[1..] + [extra];
      JoinAppend(ruse[1..], extra);
      var head, rest := ruse[0] + " ", Join(ruse[1..]);
      assert Join(ruse + [extra]) == head + (rest + " " + extra);
      assert head + (rest + " " + extra) == (head + rest) + " " + extra;
    } else if |ruse| == 1 {
      assert ruse + [extra] == [ruse[0], extra];
      assert [ruse[0], extra][1..] == [extra];
    }
  }

  // ---------------------------------------------------------------------------
  // The early-exit searches

  /** A candidate is kept when it is not in the list yet and satisfies the constraint. */
  predicate Qualifies(flags: seq<string>, found: seq<seq<string>>, constraint: string, satisfies: Evaluator)
  {
    flags !in found && satisfies(constraint, flags)
  }

  /** The position of the first qualifying candidate, if any. */
  function FirstQualifying(candidates: seq<seq<string>>, found: seq<seq<string>>, constraint: string,
                           satisfies: Evaluator): (r: Option<nat>)
    ensures r.Some? ==> r.value < |candidates| && Qualifies(candidates[r.value], found, constraint, satisfies)
    ensures r.Some? ==> forall j :: 0 <= j < r.value ==> !Qualifies(candidates[j], found, constraint, satisfies)
    ensures r.None? ==> forall j :: 0 <= j < |candidates| ==> !Qualifies(candidates[j], found, constraint, satisfies)
    decreases |candidates|
  {
    if candidates == [] then None
    else if Qualifies(candidates[0], found, constraint, satisfies) then Some(0)
    else match FirstQualifying(candidates[1..], found, constraint, satisfies)
      case None => None
      case Some(i) => Some(i + 1)
  }

  /** What one early-exit search appends: the first qualifying candidate, or nothing. */
  function FirstFound(candidates: seq<seq<string>>, found: seq<seq<string>>, constraint: string,
                      satisfies: Evaluator): seq<seq<string>>
  {
    match FirstQualifying(candidates, found, constraint, satisfies)
    case None => []
    case Some(i) => [candidates[i]]
  }

  /** The candidates of the sparse (`inverted` false) or dense (`inverted` true) search. */
  function ExtremalCandidates(iuse: seq<string>, inverted: bool): seq<seq<string>>
  {
    SplitSweep(NonSingleTarget(iuse), SingleTarget(iuse), inverted)
  }

  /** The sparse entry, if requested and found. */
  function SparseEntries(iuse: seq<string>, constraint: string, satisfies: Evaluator, addSparseUse: bool): seq<seq<string>>
  {
    if addSparseUse then FirstFound(ExtremalCandidates(iuse, false), [], constraint, satisfies) else []
  }

  /** The list after the sparse and dense searches. */
  function Extremal(iuse: seq<string>, constraint: string, satisfies: Evaluator,
                    addSparseUse: bool, addDenseUse: bool): seq<seq<string>>
  {
    var sparse := SparseEntries(iuse, constraint, satisfies, addSparseUse);
    if addDenseUse then sparse + FirstFound(ExtremalCandidates(iuse, true), sparse, constraint, satisfies)
    else sparse
  }

  /**
   * One early-exit search: append the first candidate that is not in `found`
   * and satisfies the constraint, then stop.
   */
  method AddFirstValid(candidates: seq<seq<string>>, found: seq<seq<string>>, constraint: string,
                       satisfies: Evaluator) returns (result: seq<seq<string>>)
    ensures result == found + FirstFound(candidates, found, constraint, satisfies)
  {
    result := found;
    for i := 0 to |candidates|
      invariant result == found
      invariant forall j :: 0 <= j < i ==> !Qualifies(candidates[j], found, constraint, satisfies)
    {
      var flags := candidates[i];
      if flags !in result && satisfies(constraint, flags) {
        result := result + [flags];
        return;
      }
    }
  }

  // ---------------------------------------------------------------------------
  // Exhaustive mode

  /**
   * The decoded indices 0 .. hi - 1, ascending, that satisfy the constraint
   * and are not among `found`.
   */
  function Remaining(iuse: seq<string>, found: seq<seq<string>>, constraint: string, satisfies: Evaluator,
                     hi: nat): seq<seq<string>>
  {
    if hi == 0 then []
    else
      var flags := Toggle(hi - 1, iuse, false);
      Remaining(iuse, found, constraint, satisfies, hi - 1) +
      (if flags !in found && satisfies(constraint, flags) then [flags] else [])
  }

  /** There are at most hi entries in Remaining(hi). */
  lemma {:induction false} RemainingLength(iuse: seq<string>, found: seq<seq<string>>, constraint: string,
                                           satisfies: Evaluator, hi: nat)
    ensures |Remaining(iuse, found, constraint, satisfies, hi)| <= hi
  {
    if hi > 0 {
      RemainingLength(iuse, found, constraint, satisfies, hi - 1);
    }
  }

  /** The indices whose decodings make up Remaining(hi), in the same order. */
  function RemainingIndices(iuse: seq<string>, found: seq<seq<string>>, constraint: string, satisfies: Evaluator,
                            hi: nat): seq<nat>
  {
    if hi == 0 then []
    else
      var flags := Toggle(hi - 1, iuse, false);
      RemainingIndices(iuse, found, constraint, satisfies, hi - 1) +
      (if flags !in found && satisfies(constraint, flags) then [hi - 1] else [])
  }

  /** The index list has one index per entry of Remaining. */
  lemma {:induction false} RemainingIndicesLength(iuse: seq<string>, found: seq<seq<string>>, constraint: string,
                                                  satisfies: Evaluator, hi: nat)
    ensures |RemainingIndices(iuse, found, constraint, satisfies, hi)| == |Remaining(iuse, found, constraint, satisfies, hi)|
  {
    if hi > 0 {
      RemainingIndicesLength(iuse, found, constraint, satisfies, hi - 1);
    }
  }

  /** The index list has one index per entry, each below hi, in strictly increasing order. */
  lemma {:induction false} RemainingIndicesOrdered(iuse: seq<string>, found: seq<seq<string>>, constraint: string,
                                                   satisfies: Evaluator, hi: nat)
    ensures |RemainingIndices(iuse, found, constraint, satisfies, hi)| == |Remaining(iuse, found, constraint, satisfies, hi)|
    ensures forall p :: 0 <= p < |RemainingIndices(iuse, found, constraint, satisfies, hi)| ==>
      RemainingIndices(iuse, found, constraint, satisfies, hi)[p] < hi
    ensures forall p, q :: 0 <= p < q < |RemainingIndices(iuse, found, constraint, satisfies, hi)| ==>
      RemainingIndices(iuse, found, constraint, satisfies, hi)[p] < RemainingIndices(iuse, found, constraint, satisfies, hi)[q]
  {
    if hi > 0 {
      RemainingIndicesOrdered(iuse, found, constraint, satisfies, hi - 1);
    }
  }

  /**
   * Each entry of Remaining(hi) is a satisfying assignment outside `found`:
   * the decoding of the matching entry of the index list, which is below hi.
   */
  lemma {:induction false} RemainingAt(iuse: seq<string>, found: seq<seq<string>>, constraint: string,
                                       satisfies: Evaluator, hi: nat, p: nat)
    requires p < |Remaining(iuse, found, constraint, satisfies, hi)|
    ensures |RemainingIndices(iuse, found, constraint, satisfies, hi)| == |Remaining(iuse, found, constraint, satisfies, hi)|
    ensures var flags := Remaining(iuse, found, constraint, satisfies, hi)[p];
      var index := RemainingIndices(iuse, found, constraint, satisfies, hi)[p];
      flags !in found && satisfies(constraint, flags) && IsAssignment(flags, iuse) &&
      index < hi && flags == Toggle(index, iuse, false)
  {
    RemainingIndicesLength(iuse, found, constraint, satisfies, hi);
    RemainingIndicesLength(iuse, found, constraint, satisfies, hi - 1);
    var prev := Remaining(iuse, found, constraint, satisfies, hi - 1);
    var r := Remaining(iuse, found, constraint, satisfies, hi);
    var ix := RemainingIndices(iuse, found, constraint, satisfies, hi);
    var prevIx := RemainingIndices(iuse, found, constraint, satisfies, hi - 1);
    if p < |prev| {
      assert r[p] == prev[p] && ix[p] == prevIx[p];
      RemainingAt(iuse, found, constraint, satisfies, hi - 1, p);
    } else {
      assert r[p] == Toggle(hi - 1, iuse, false) && ix[p] == hi - 1;
      ToggleIsAssignment(hi - 1, iuse, false);
    }
  }

  /**
   * Remaining lists its entries in strictly increasing index order: entries
   * p < q are the decodings of indices i < j, both below hi.
   */
  lemma RemainingOrdered(iuse: seq<string>, found: seq<seq<string>>, constraint: string,
                         satisfies: Evaluator, hi: nat, p: nat, q: nat)
    requires p < q < |Remaining(iuse, found, constraint, satisfies, hi)|
    ensures |RemainingIndices(iuse, found, constraint, satisfies, hi)| == |Remaining(iuse, found, constraint, satisfies, hi)|
    ensures var ix := RemainingIndices(iuse, found, constraint, satisfies, hi);
      var r := Remaining(iuse, found, constraint, satisfies, hi);
      ix[p] < ix[q] < hi && r[p] == Toggle(ix[p], iuse, false) && r[q] == Toggle(ix[q], iuse, false)
  {
    RemainingIndicesOrdered(iuse, found, constraint, satisfies, hi);
    RemainingAt(iuse, found, constraint, satisfies, hi, p);
    RemainingAt(iuse, found, constraint, satisfies, hi, q);
  }

  /** Remaining lists no assignment twice. */
  lemma RemainingDistinct(iuse: seq<string>, found: seq<seq<string>>, constraint: string,
                          satisfies: Evaluator, hi: nat)
    requires hi <= Pow2(|iuse|)
    ensures Distinct(Remaining(iuse, found, constraint, satisfies, hi))
  {
    var r := Remaining(iuse, found, constraint, satisfies, hi);
    var ix := RemainingIndices(iuse, found, constraint, satisfies, hi);
    forall p, q | 0 <= p < q < |r| ensures r[p] != r[q] {
      RemainingOrdered(iuse, found, constraint, satisfies, hi, p, q);
      if r[p] == r[q] {
        ToggleInjective(ix[p], ix[q], iuse, false);
      }
    }
  }

  /** An index at or above hi, within range, is not decoded into Remaining(hi). */
  lemma RemainingExcludes(iuse: seq<string>, found: seq<seq<string>>, constraint: string,
                          satisfies: Evaluator, hi: nat, index: nat)
    requires hi <= index < Pow2(|iuse|)
    ensures Toggle(index, iuse, false) !in Remaining(iuse, found, constraint, satisfies, hi)
  {
    var r := Remaining(iuse, found, constraint, satisfies, hi);
    var ix := RemainingIndices(iuse, found, constraint, satisfies, hi);
    forall p | 0 <= p < |r| ensures r[p] != Toggle(index, iuse, false) {
      RemainingAt(iuse, found, constraint, satisfies, hi, p);
      if r[p] == Toggle(index, iuse, false) {
        ToggleInjective(ix[p], index, iuse, false);
      }
    }
  }

  /** Raising the index bound only extends Remaining. */
  lemma {:induction false} RemainingPrefix(iuse: seq<string>, found: seq<seq<string>>, constraint: string,
                                           satisfies: Evaluator, lo: nat, hi: nat)
    requires lo <= hi
    ensures Remaining(iuse, found, constraint, satisfies, lo) <= Remaining(iuse, found, constraint, satisfies, hi)
    decreases hi
  {
    if lo < hi {
      RemainingPrefix(iuse, found, constraint, satisfies, lo, hi - 1);
    }
  }

  /** Every satisfying index below hi is either in `found` or in Remaining(hi). */
  lemma {:induction false} RemainingComplete(iuse: seq<string>, found: seq<seq<string>>, constraint: string,
                                             satisfies: Evaluator, hi: nat, index: nat)
    requires index < hi
    requires satisfies(constraint, Toggle(index, iuse, false))
    ensures Toggle(index, iuse, false) in found || Toggle(index, iuse, false) in Remaining(iuse, found, constraint, satisfies, hi)
  {
    if index == hi - 1 {
      if Toggle(index, iuse, false) !in found {
        RemainingLast(iuse, found, constraint, satisfies, hi);
      }
    } else {
      RemainingComplete(iuse, found, constraint, satisfies, hi - 1, index);
      if Toggle(index, iuse, false) !in found {
        RemainingPrefix(iuse, found, constraint, satisfies, hi - 1, hi);
        PrefixMember(Remaining(iuse, found, constraint, satisfies, hi - 1),
                     Remaining(iuse, found, constraint, satisfies, hi), Toggle(index, iuse, false));
      }
    }
  }

  /** The last index below hi, when it satisfies and is new, ends Remaining(hi). */
  lemma RemainingLast(iuse: seq<string>, found: seq<seq<string>>, constraint: string,
                      satisfies: Evaluator, hi: nat)
    requires hi > 0
    requires Toggle(hi - 1, iuse, false) !in found && satisfies(constraint, Toggle(hi - 1, iuse, false))
    ensures Toggle(hi - 1, iuse, false) in Remaining(iuse, found, constraint, satisfies, hi)
  {
    var before := Remaining(iuse, found, constraint, satisfies, hi - 1);
    assert Remaining(iuse, found, constraint, satisfies, hi) == before + [Toggle(hi - 1, iuse, false)];
    assert Remaining(iuse, found, constraint, satisfies, hi)[|before|] == Toggle(hi - 1, iuse, false);
  }

  /**
   * The exhaustive loop: decode every index in order and append the
   * satisfying lists that are not in the list yet.
   */
  method EnumerateCombinations(iuse: seq<string>, constraint: string, satisfies: Evaluator,
                               found: seq<seq<string>>) returns (valid: seq<seq<string>>)
    ensures valid == found + Remaining(iuse, found, constraint, satisfies, Pow2(|iuse|))
  {
    var allCombinationsCount := Pow2(|iuse|);
    valid := found;
    for index := 0 to allCombinationsCount
      invariant valid == found + Remaining(iuse, found, constraint, satisfies, index)
    {
      var flags := GetUseFlagsToggles(index, iuse, false);
      EnumerateStep(iuse, found, constraint, satisfies, index);
      if flags !in valid && satisfies(constraint, flags) {
        valid := valid + [flags];
      }
    }
  }

  /** One step of the exhaustive loop: the index's list is appended exactly when Remaining takes it. */
  lemma EnumerateStep(iuse: seq<string>, found: seq<seq<string>>, constraint: string, satisfies: Evaluator, index: nat)
    requires index < Pow2(|iuse|)
    ensures var flags := Toggle(index, iuse, false);
      var before := found + Remaining(iuse, found, constraint, satisfies, index);
      found + Remaining(iuse, found, constraint, satisfies, index + 1) ==
        if flags !in before && satisfies(constraint, flags) then before + [flags] else before
  {
    var flags := Toggle(index, iuse, false);
    var r := Remaining(iuse, found, constraint, satisfies, index);
    RemainingExcludes(iuse, found, constraint, satisfies, index, index);
    assert flags !in found + r <==> flags !in found;
  }

  // ---------------------------------------------------------------------------
  // Sampling mode

  /** The indices 0 .. n - 1 as a set. */
  function RangeSet(n: nat): set<nat>
  {
    if n == 0 then {} else RangeSet(n - 1) + {n - 1}
  }

  lemma {:induction false} RangeSetFacts(n: nat)
    ensures |RangeSet(n)| == n
    ensures forall i: nat :: i in RangeSet(n) <==> i < n
  {
    if n > 0 {
      RangeSetFacts(n - 1);
    }
  }

  lemma {:induction false} SubsetCard(a: set<nat>, b: set<nat>)
    requires a <= b
    ensures |a| <= |b|
    decreases |b|
  {
    if b != {} {
      var x :| x in b;
      SubsetCard(a - {x}, b - {x});
    }
  }

  /** Fewer checked indices than there are indices: some index is still unchecked. */
  lemma UncheckedExists(checked: set<nat>, total: nat)
    requires checked <= RangeSet(total) && |checked| < total
    ensures exists index: nat :: index < total && index !in checked
  {
    RangeSetFacts(total);
    if forall index: nat :: index < total ==> index in checked {
      SubsetCard(RangeSet(total), checked);
      assert false;
    }
  }

  /** As many checked indices as there are indices: every index is checked. */
  lemma AllChecked(checked: set<nat>, total: nat, index: nat)
    requires checked <= RangeSet(total) && |checked| >= total && index < total
    ensures index in checked
  {
    RangeSetFacts(total);
    if index !in checked {
      SubsetCard(checked, RangeSet(total) - {index});
      assert false;
    }
  }

  lemma DistinctAppend(s: seq<seq<string>>, x: seq<string>)
    requires Distinct(s) && x !in s
    ensures Distinct(s + [x])
  {
    var t := s + [x];
    forall i, j | 0 <= i < j < |t| ensures t[i] != t[j] {
      assert t[i] == s[i];
      if j < |s| {
        assert t[j] == s[j];
      }
    }
  }

  lemma PrefixMember(s: seq<seq<string>>, t: seq<seq<string>>, x: seq<string>)
    requires s <= t && x in s
    ensures x in t
  {
    var i :| 0 <= i < |s| && s[i] == x;
    assert t[i] == x;
  }

  function Max(a: int, b: int): int
  {
    if a < b then b else a
  }

  /**
   * The list the sampling loop holds after checking the indices `drawn` in
   * order, starting from `found`: each decoding is appended when it is new
   * and satisfies the constraint.
   */
  function Sampled(iuse: seq<string>, constraint: string, satisfies: Evaluator, found: seq<seq<string>>,
                   drawn: seq<nat>): seq<seq<string>>
    decreases |drawn|
  {
    if drawn == [] then found
    else
      var before := Sampled(iuse, constraint, satisfies, found, drawn[..|drawn| - 1]);
      var flags := Toggle(drawn[|drawn| - 1], iuse, false);
      if flags !in before && satisfies(constraint, flags) then before + [flags] else before
  }

  /** Checking one more index appends its decoding when it is new and satisfies. */
  lemma SampledStep(iuse: seq<string>, constraint: string, satisfies: Evaluator, found: seq<seq<string>>,
                    drawn: seq<nat>, index: nat)
    ensures var before := Sampled(iuse, constraint, satisfies, found, drawn);
      var flags := Toggle(index, iuse, false);
      Sampled(iuse, constraint, satisfies, found, drawn + [index]) ==
        if flags !in before && satisfies(constraint, flags) then before + [flags] else before
  {
    assert (drawn + [index])[..|drawn|] == drawn;
  }

  /**
   * A sample keeps the entries it started with, has no entry twice, and
   * appends only assignments of iuse that satisfy the constraint.
   */
  lemma {:induction false} SampledFacts(iuse: seq<string>, constraint: string, satisfies: Evaluator,
                                        found: seq<seq<string>>, drawn: seq<nat>)
    requires Distinct(found)
    ensures found <= Sampled(iuse, constraint, satisfies, found, drawn)
    ensures Distinct(Sampled(iuse, constraint, satisfies, found, drawn))
    ensures forall k :: |found| <= k < |Sampled(iuse, constraint, satisfies, found, drawn)| ==>
      IsAssignment(Sampled(iuse, constraint, satisfies, found, drawn)[k], iuse) &&
      satisfies(constraint, Sampled(iuse, constraint, satisfies, found, drawn)[k])
    decreases |drawn|
  {
    if drawn != [] {
      var prev := drawn[..|drawn| - 1];
      var index := drawn[|drawn| - 1];
      var before := Sampled(iuse, constraint, satisfies, found, prev);
      var flags := Toggle(index, iuse, false);
      SampledFacts(iuse, constraint, satisfies, found, prev);
      if flags !in before && satisfies(constraint, flags) {
        DistinctAppend(before, flags);
        ToggleIsAssignment(index, iuse, false);
        var after := before + [flags];
        forall k | |found| <= k < |after|
          ensures IsAssignment(after[k], iuse) && satisfies(constraint, after[k])
        {
          if k < |before| {
            assert after[k] == before[k];
          }
        }
      }
    }
  }

  /** Every drawn index whose decoding satisfies the constraint has that decoding in the sample. */
  lemma {:induction false} SampledComplete(iuse: seq<string>, constraint: string, satisfies: Evaluator,
                                           found: seq<seq<string>>, drawn: seq<nat>, index: nat)
    requires index in drawn && satisfies(constraint, Toggle(index, iuse, false))
    ensures Toggle(index, iuse, false) in Sampled(iuse, constraint, satisfies, found, drawn)
    decreases |drawn|
  {
    var prev := drawn[..|drawn| - 1];
    var before := Sampled(iuse, constraint, satisfies, found, prev);
    var after := Sampled(iuse, constraint, satisfies, found, drawn);
    assert before <= after;
    if index != drawn[|drawn| - 1] {
      assert drawn == prev + [drawn[|drawn| - 1]];
      assert index in prev;
      SampledComplete(iuse, constraint, satisfies, found, prev, index);
      PrefixMember(before, after, Toggle(index, iuse, false));
    } else if Toggle(index, iuse, false) !in before {
      assert after[|before|] == Toggle(index, iuse, false);
    }
  }

  /**
   * The sampling loop: draw an index not checked yet, record it, and append
   * its decoded list when it is new and satisfies the constraint; stop at the
   * budget or when every index has been checked. The draw is modelled as an
   * arbitrary choice among the unchecked indices: a draw of an index already
   * checked changes nothing. `drawn` is the order in which the indices were
   * checked.
   */
  method SampleCombinations(iuse: seq<string>, constraint: string, satisfies: Evaluator,
                            maxUseCombinations: int, found: seq<seq<string>>)
    returns (valid: seq<seq<string>>, ghost drawn: seq<nat>)
    requires Distinct(found)
    ensures Distinct(drawn) && forall k :: 0 <= k < |drawn| ==> drawn[k] < Pow2(|iuse|)
    ensures valid == Sampled(iuse, constraint, satisfies, found, drawn)
    ensures found <= valid && Distinct(valid)
    ensures |valid| <= Max(maxUseCombinations, |found|)
    ensures forall k :: |found| <= k < |valid| ==> IsAssignment(valid[k], iuse) && satisfies(constraint, valid[k])
    ensures |valid| >= maxUseCombinations ||
      forall index: nat :: index < Pow2(|iuse|) && satisfies(constraint, Toggle(index, iuse, false)) ==>
        Toggle(index, iuse, false) in valid
  {
    var allCombinationsCount := Pow2(|iuse|);
    var checkedCombinations: set<nat> := {};
    valid := found;
    drawn := [];
    while |valid| < maxUseCombinations && |checkedCombinations| < allCombinationsCount
      invariant checkedCombinations <= RangeSet(allCombinationsCount)
      invariant forall k :: 0 <= k < |drawn| ==> drawn[k] in checkedCombinations && drawn[k] < allCombinationsCount
      invariant forall index :: index in checkedCombinations ==> index in drawn
      invariant Distinct(drawn)
      invariant valid == Sampled(iuse, constraint, satisfies, found, drawn)
      invariant |valid| <= Max(maxUseCombinations, |found|)
      decreases allCombinationsCount - |checkedCombinations|
    {
      UncheckedExists(checkedCombinations, allCombinationsCount);
      RangeSetFacts(allCombinationsCount);
      var index: nat :| index < allCombinationsCount && index !in checkedCombinations;
      checkedCombinations := checkedCombinations + {index};
      var flags := GetUseFlagsToggles(index, iuse, false);
      SampledStep(iuse, constraint, satisfies, found, drawn, index);
      DrawnAppend(drawn, checkedCombinations - {index}, index);
      drawn := drawn + [index];
      if flags !in valid && satisfies(constraint, flags) {
        valid := valid + [flags];
      }
    }
    SampledFacts(iuse, constraint, satisfies, found, drawn);
    if |valid| < maxUseCombinations {
      forall index: nat | index < allCombinationsCount && satisfies(constraint, Toggle(index, iuse, false))
        ensures Toggle(index, iuse, false) in valid
      {
        AllChecked(checkedCombinations, allCombinationsCount, index);
        SampledComplete(iuse, constraint, satisfies, found, drawn, index);
      }
    }
  }

  /** Appending an index outside the set of those already drawn keeps the draws distinct. */
  lemma DrawnAppend(drawn: seq<nat>, checked: set<nat>, index: nat)
    requires Distinct(drawn) && index !in checked
    requires forall k :: 0 <= k < |drawn| ==> drawn[k] in checked
    ensures Distinct(drawn + [index])
  {
    var d := drawn + [index];
    forall i, j | 0 <= i < j < |d| ensures d[i] != d[j] {
      assert d[i] == drawn[i];
    }
  }

  // ---------------------------------------------------------------------------
  // get_use_combinations

  /**
   * The sparse and dense searches at the start of get_use_combinations: each
   * sweeps the split candidates and keeps the first new satisfying one.
   */
  method AddExtremal(iuse: seq<string>, constraint: string, satisfies: Evaluator,
                     addSparseUse: bool, addDenseUse: bool) returns (valid: seq<seq<string>>)
    ensures valid == Extremal(iuse, constraint, satisfies, addSparseUse, addDenseUse)
  {
    valid := [];
    var nonSingle := NonSingleTarget(iuse);
    var single := SingleTarget(iuse);
    if addSparseUse {
      var candidates := YieldUseFlagsTogglesSortedSplit(nonSingle, single, false);
      valid := AddFirstValid(candidates, valid, constraint, satisfies);
    }
    if addDenseUse {
      var candidates := YieldUseFlagsTogglesSortedSplit(nonSingle, single, true);
      valid := AddFirstValid(candidates, valid, constraint, satisfies);
    }
  }

  /** Exhaustive mode: no budget, or every index fits in the budget. */
  predicate Exhaustive(maxUseCombinations: int, n: nat)
  {
    !(maxUseCombinations >= 0 && Pow2(n) > maxUseCombinations)
  }

  /**
   * get_use_combinations(iuse, ruse, maxUseCombinations, addSparseUse, addDenseUse),
   * with `satisfies` standing for portage's REQUIRED_USE check.
   */
  method GetUseCombinations(iuse: seq<string>, ruse: seq<string>, maxUseCombinations: int,
                            addSparseUse: bool, addDenseUse: bool, satisfies: Evaluator)
    returns (combinations: seq<seq<string>>)
    ensures Distinct(combinations)
    ensures forall k :: 0 <= k < |combinations| ==> satisfies(Join(ruse), combinations[k])
    ensures Extremal(iuse, Join(ruse), satisfies, addSparseUse, addDenseUse) <= combinations
    ensures Exhaustive(maxUseCombinations, |iuse|) ==>
      var extremal := Extremal(iuse, Join(ruse), satisfies, addSparseUse, addDenseUse);
      combinations == extremal + Remaining(iuse, extremal, Join(ruse), satisfies, Pow2(|iuse|))
    ensures !Exhaustive(maxUseCombinations, |iuse|) ==>
      var extremal := Extremal(iuse, Join(ruse), satisfies, addSparseUse, addDenseUse);
      |combinations| <= Max(maxUseCombinations, |extremal|) &&
      (forall k :: |extremal| <= k < |combinations| ==> IsAssignment(combinations[k], iuse)) &&
      (|combinations| >= maxUseCombinations ||
       forall index: nat :: index < Pow2(|iuse|) && satisfies(Join(ruse), Toggle(index, iuse, false)) ==>
         Toggle(index, iuse, false) in combinations)
    ensures !addSparseUse && !addDenseUse && maxUseCombinations >= 0 ==> |combinations| <= maxUseCombinations
  {
    var constraint := Join(ruse);
    var allCombinationsCount := Pow2(|iuse|);
    var valid := AddExtremal(iuse, constraint, satisfies, addSparseUse, addDenseUse);
    ExtremalFacts(iuse, constraint, satisfies, addSparseUse, addDenseUse);
    if maxUseCombinations >= 0 && allCombinationsCount > maxUseCombinations {
      ghost var drawn;
      combinations, drawn := SampleCombinations(iuse, constraint, satisfies, maxUseCombinations, valid);
      ExtendSatisfies(valid, combinations, constraint, satisfies);
    } else {
      combinations := EnumerateCombinations(iuse, constraint, satisfies, valid);
      ExhaustiveFacts(iuse, valid, constraint, satisfies);
    }
  }

  /** Entries satisfying before and after `found` make a list whose entries all satisfy. */
  lemma ExtendSatisfies(found: seq<seq<string>>, valid: seq<seq<string>>, constraint: string, satisfies: Evaluator)
    requires found <= valid
    requires forall k :: 0 <= k < |found| ==> satisfies(constraint, found[k])
    requires forall k :: |found| <= k < |valid| ==> satisfies(constraint, valid[k])
    ensures forall k :: 0 <= k < |valid| ==> satisfies(constraint, valid[k])
  {
    forall k | 0 <= k < |found| ensures satisfies(constraint, valid[k]) {
      assert valid[k] == found[k];
    }
  }

  /** The exhaustive result is distinct and satisfying, with at most 2^n new entries. */
  lemma ExhaustiveFacts(iuse: seq<string>, found: seq<seq<string>>, constraint: string, satisfies: Evaluator)
    requires Distinct(found)
    requires forall k :: 0 <= k < |found| ==> satisfies(constraint, found[k])
    ensures |Remaining(iuse, found, constraint, satisfies, Pow2(|iuse|))| <= Pow2(|iuse|)
    ensures Distinct(found + Remaining(iuse, found, constraint, satisfies, Pow2(|iuse|)))
    ensures forall k :: 0 <= k < |found + Remaining(iuse, found, constraint, satisfies, Pow2(|iuse|))| ==>
      satisfies(constraint, (found + Remaining(iuse, found, constraint, satisfies, Pow2(|iuse|)))[k])
  {
    var hi := Pow2(|iuse|);
    var rest := Remaining(iuse, found, constraint, satisfies, hi);
    RemainingLength(iuse, found, constraint, satisfies, hi);
    RemainingDistinct(iuse, found, constraint, satisfies, hi);
    forall k | 0 <= k < |rest| ensures rest[k] !in found && satisfies(constraint, rest[k]) {
      RemainingAt(iuse, found, constraint, satisfies, hi, k);
    }
    DistinctConcat(found, rest);
    ExtendSatisfies(found, found + rest, constraint, satisfies);
  }

  lemma DistinctConcat(s: seq<seq<string>>, t: seq<seq<string>>)
    requires Distinct(s) && Distinct(t)
    requires forall k :: 0 <= k < |t| ==> t[k] !in s
    ensures Distinct(s + t)
  {
    var u := s + t;
    forall i, j | 0 <= i < j < |u| ensures u[i] != u[j] {
      if j < |s| {
        assert u[i] == s[i] && u[j] == s[j];
      } else if i < |s| {
        assert u[i] == s[i] && u[j] == t[j - |s|];
      } else {
        assert u[i] == t[i - |s|] && u[j] == t[j - |s|];
      }
    }
  }

  /** Each early-exit search appends at most one new, satisfying candidate. */
  lemma FirstFoundFacts(candidates: seq<seq<string>>, found: seq<seq<string>>, constraint: string, satisfies: Evaluator)
    ensures |FirstFound(candidates, found, constraint, satisfies)| <= 1
    ensures forall k :: 0 <= k < |FirstFound(candidates, found, constraint, satisfies)| ==>
      Qualifies(FirstFound(candidates, found, constraint, satisfies)[k], found, constraint, satisfies)
  {
  }

  /** The sparse and dense entries are distinct, satisfying, and at most two. */
  lemma ExtremalFacts(iuse: seq<string>, constraint: string, satisfies: Evaluator, addSparseUse: bool, addDenseUse: bool)
    ensures |Extremal(iuse, constraint, satisfies, addSparseUse, addDenseUse)| <= 2
    ensures Distinct(Extremal(iuse, constraint, satisfies, addSparseUse, addDenseUse))
    ensures forall k :: 0 <= k < |Extremal(iuse, constraint, satisfies, addSparseUse, addDenseUse)| ==>
      satisfies(constraint, Extremal(iuse, constraint, satisfies, addSparseUse, addDenseUse)[k])
  {
    var sparse := SparseEntries(iuse, constraint, satisfies, addSparseUse);
    FirstFoundFacts(ExtremalCandidates(iuse, false), [], constraint, satisfies);
    FirstFoundFacts(ExtremalCandidates(iuse, true), sparse, constraint, satisfies);
    if addDenseUse {
      var dense := FirstFound(ExtremalCandidates(iuse, true), sparse, constraint, satisfies);
      var e := sparse + dense;
      forall k | 0 <= k < |e| ensures satisfies(constraint, e[k]) {
        if k < |sparse| {
          assert e[k] == sparse[k];
        } else {
          assert e[k] == dense[k - |sparse|];
        }
      }
      DistinctConcat(sparse, dense);
    }
  }

  /** In exhaustive mode every satisfying decoded index ends up in the result. */
  lemma ExhaustiveComplete(iuse: seq<string>, found: seq<seq<string>>, constraint: string, satisfies: Evaluator, index: nat)
    requires index < Pow2(|iuse|)
    requires satisfies(constraint, Toggle(index, iuse, false))
    ensures Toggle(index, iuse, false) in found + Remaining(iuse, found, constraint, satisfies, Pow2(|iuse|))
  {
    RemainingComplete(iuse, found, constraint, satisfies, Pow2(|iuse|), index);
  }

  // ---------------------------------------------------------------------------
  // Sparse and dense entries are extremal

  /** `a` is at least as good as `b`: fewer enabled flags, or more when inverted. */
  predicate AsGood(a: nat, b: nat, inverted: bool)
  {
    if inverted then a >= b else a <= b
  }

  /**
   * The first qualifying candidate of a split sweep is extremal among all
   * qualifying candidates: its first part enables no more flags than theirs
   * (no fewer when inverted), and against a candidate with the same first
   * part its second part enables no more (no fewer when inverted).
   */
  lemma FirstQualifyingExtremal(sortedPart: seq<string>, unsortedPart: seq<string>, inverted: bool,
                                found: seq<seq<string>>, constraint: string, satisfies: Evaluator, q: nat)
    requires q < |SplitSweep(sortedPart, unsortedPart, inverted)|
    requires Qualifies(SplitSweep(sortedPart, unsortedPart, inverted)[q], found, constraint, satisfies)
    ensures FirstQualifying(SplitSweep(sortedPart, unsortedPart, inverted), found, constraint, satisfies).Some?
    ensures
      var candidates := SplitSweep(sortedPart, unsortedPart, inverted);
      var w := candidates[FirstQualifying(candidates, found, constraint, satisfies).value];
      var f := candidates[q];
      var m := |sortedPart|;
      |w| == |f| == m + |unsortedPart| &&
      AsGood(EnabledCount(w[..m], sortedPart), EnabledCount(f[..m], sortedPart), inverted) &&
      (w[..m] == f[..m] ==> AsGood(EnabledCount(w[m..], unsortedPart), EnabledCount(f[m..], unsortedPart), inverted))
  {
    var xs := SortedSweep(sortedPart, inverted);
    var ys := SortedSweep(unsortedPart, inverted);
    var candidates := Product(xs, ys);
    var p := FirstQualifying(candidates, found, constraint, satisfies).value;
    var m := |sortedPart|;
    assert p <= q;
    SortedSweepFacts(sortedPart, inverted);
    SortedSweepFacts(unsortedPart, inverted);
    var i0, j0, i1, j1 := ProductPair(xs, ys, p, q);
    var w := candidates[p];
    var f := candidates[q];
    assert w[..m] == xs[i0] && w[m..] == ys[j0];
    assert f[..m] == xs[i1] && f[m..] == ys[j1];
    SortedSweepOrdered(sortedPart, inverted, i0, i1);
    if w[..m] == f[..m] {
      SortedSweepOrdered(unsortedPart, inverted, j0, j1);
    }
  }

  /**
   * The sparse entry: when any sparse candidate satisfies the constraint, the
   * result starts with the first one, and it enables no more flags without
   * "single_target" than any satisfying candidate, and no more single_target
   * flags than one with the same other flags.
   */
  lemma SparseIsMinimal(iuse: seq<string>, ruse: seq<string>, satisfies: Evaluator, addDenseUse: bool, q: nat)
    requires q < |ExtremalCandidates(iuse, false)|
    requires satisfies(Join(ruse), ExtremalCandidates(iuse, false)[q])
    ensures
      var e := Extremal(iuse, Join(ruse), satisfies, true, addDenseUse);
      var f := ExtremalCandidates(iuse, false)[q];
      var m := |NonSingleTarget(iuse)|;
      |e| >= 1 && |e[0]| == |f| == m + |SingleTarget(iuse)| &&
      EnabledCount(e[0][..m], NonSingleTarget(iuse)) <= EnabledCount(f[..m], NonSingleTarget(iuse)) &&
      (e[0][..m] == f[..m] ==>
        EnabledCount(e[0][m..], SingleTarget(iuse)) <= EnabledCount(f[m..], SingleTarget(iuse)))
  {
    FirstQualifyingExtremal(NonSingleTarget(iuse), SingleTarget(iuse), false, [], Join(ruse), satisfies, q);
  }

  /**
   * The dense entry: when a dense candidate other than the sparse entry
   * satisfies the constraint, the first such one follows the sparse entries,
   * and it enables at least as many flags without "single_target" as any such
   * candidate, and at least as many single_target flags as one with the same
   * other flags.
   */
  lemma DenseIsMaximal(iuse: seq<string>, ruse: seq<string>, satisfies: Evaluator, addSparseUse: bool, q: nat)
    requires q < |ExtremalCandidates(iuse, true)|
    requires ExtremalCandidates(iuse, true)[q] !in SparseEntries(iuse, Join(ruse), satisfies, addSparseUse)
    requires satisfies(Join(ruse), ExtremalCandidates(iuse, true)[q])
    ensures
      var sparse := SparseEntries(iuse, Join(ruse), satisfies, addSparseUse);
      var e := Extremal(iuse, Join(ruse), satisfies, addSparseUse, true);
      var f := ExtremalCandidates(iuse, true)[q];
      var m := |NonSingleTarget(iuse)|;
      |e| == |sparse| + 1 && |e[|sparse|]| == |f| == m + |SingleTarget(iuse)| &&
      EnabledCount(e[|sparse|][..m], NonSingleTarget(iuse)) >= EnabledCount(f[..m], NonSingleTarget(iuse)) &&
      (e[|sparse|][..m] == f[..m] ==>
        EnabledCount(e[|sparse|][m..], SingleTarget(iuse)) >= EnabledCount(f[m..], SingleTarget(iuse)))
  {
    var sparse := SparseEntries(iuse, Join(ruse), satisfies, addSparseUse);
    FirstQualifyingExtremal(NonSingleTarget(iuse), SingleTarget(iuse), true, sparse, Join(ruse), satisfies, q);
  }
}
